# MiniMarker in Dafny

MiniMarker is a set of six Python scripts that shrink media files to a byte budget:

- `video_compressor.py` compresses one video or every `.mp4`/`.avi`/`.mkv` file of a directory.
  A file already within budget is hard-linked to the output directory. Any other file is
  encoded in two ffmpeg passes at a bitrate derived from the budget and the probed duration,
  plus a 5% buffer. Each file keeps its pass log under `log_<stem>`.
- `videoMarker_FreeMB.py` encodes one video to a given output path in the same two passes. A
  file within budget is left alone: the script returns without linking or writing anything. It
  takes an optional caller bitrate and uses the fixed log prefix `ffmpeg2pass`.
- `videoMarker_FixedMB.py` encodes one video like `videoMarker_FreeMB.py` and also returns
  early for a file within budget. Its rate has no buffer and is written with `:.0f`, which
  rounds half to even.
- `image_resizer_free.py` fits every `.png`/`.jpg`/`.jpeg` image of a directory into a bounding
  box once. It then saves the image at quality 95, 90, ... until the file is within budget or
  the quality reaches 10.
- `imageMarker_Free16-9.py` applies the same fit to one image.
- `imageMarker_Fixed16-9.py` brings one image to 1920x1080. A 16:9 image is resized directly;
  any other is stretched to 16:9 and the centred box is cut. Both imageMarker scripts redo the
  resize and the quality-95 save at the start of every round of their quality loop.

The model has one module per script and shared modules for the parts the scripts repeat:

- `Common`: Option, Result, the error kinds, and the megabyte conversion.
- `Text`: ASCII lower-casing, `endswith`, and decimal rendering.
- `Paths`: POSIX `join`, `basename` and `splitext`.
- `Bitrate`: the buffered floor formula and the `:.0f` rounding.
- `Progress`: the `time=` regex, and echoing the status stream.
- `TwoPass`: the argument lists and the loop that stops at the first failing pass.
- `BatchLoop`: the directory walk that stops at the first escaping exception.
- `Geometry`: the free fit and the fixed 16:9 plan.
- `QualitySearch`: the two quality loops.

Everything outside the scripts is an oracle held in a datatype of function values:

- `TwoPass.Env` holds `os.path.getsize`, the ffprobe duration, the ffmpeg run of one argument
  list, and the null sink.
- `QualitySearch.ImageEnv` holds `Image.open`'s dimensions for the input path and the size of
  a saved encoding. A save is not an oracle: it is the encoding it writes, and it always succeeds.
- The filesystem the directory walk sees is a value (`VideoCompressor.Fs`, `ImageResizerFree.Dir`).

imageMarker_Free16-9.py and imageMarker_Fixed16-9.py share their `compress_image` code line
for line and differ only in `resize_image`. The model repeats the shared members in
`ImageMarkerFree` and `ImageMarkerFixed` so that each script has its own module. In each module
the shared members are built on that script's `ResizeImage`.

Each loop of the scripts is a method. Its postcondition ties its result to a recursive
specification function, and lemmas state what the scripts promise about those functions.

## Model

| member | source | states |
|---|---|---|
| Common.TargetBytes | video_compressor.py:21 | the budget is the MB argument times 1048576 bytes, and dividing back gives the MB argument |
| VideoCompressor.New | video_compressor.py:9-21 | the three paths are kept as given and the budget is the MB argument in bytes |
| VideoMarkerFreeMB.New | videoMarker_FreeMB.py:8-11 | the paths are kept as given and the budget is the MB argument in bytes |
| VideoMarkerFixedMB.New | videoMarker_FixedMB.py:7-10 | the paths are kept as given and the budget is the MB argument in bytes |
| ImageResizerFree.New | image_resizer_free.py:7-19 | directories and box kept as given, budget in bytes |
| ImageMarkerFree.New | imageMarker_Free16-9.py:7-19 | paths and box kept as given, budget in bytes |
| ImageMarkerFixed.New | imageMarker_Fixed16-9.py:7-17 | paths kept as given, budget in bytes |
| Bitrate.RawBitrate | video_compressor.py:39 | the raw rate times the duration is eight times the budget |
| Bitrate.BufferedBitrate | video_compressor.py:42-45 | the result is the largest integer not above 1.05 times the raw rate |
| Bitrate.Calculate | video_compressor.py:23-45 | `None` exactly when the size is within budget; a failure exactly when the file is over budget and the probe fails or reports 0.0 (probe error vs. division by zero); otherwise the buffered floored rate |
| Bitrate.ProbeNotConsulted | video_compressor.py:25-29 | for a file within budget the probe's answer makes no difference |
| Bitrate.TenSecondExample | video_compressor.py:39-45 | 1,000,000 bytes over 10 s give 800,000 raw and 840,000 buffered bit/s |
| Bitrate.BufferedBitrateNonIncreasing | video_compressor.py:39-45 | a longer clip never gets a higher bitrate |
| Bitrate.RoundHalfEven | videoMarker_FixedMB.py:30 | the result is within 0.5 of its argument, and is even on a tie |
| Bitrate.RoundHalfEvenUnique | videoMarker_FixedMB.py:30 | those two conditions determine the rounded value |
| Bitrate.RoundHalfEvenNegate | videoMarker_FixedMB.py:30 | rounding is symmetric about zero |
| Bitrate.FormatFixed0 | videoMarker_FixedMB.py:30 | `:.0f` gives a sign and digits that read back as the half-to-even rounding |
| Bitrate.FixedExample | videoMarker_FixedMB.py:22-30 | 5 MB over 10 s is 4,194,304 bit/s, printed unchanged |
| Bitrate.TiesToEven | videoMarker_FixedMB.py:30 | 2.5 rounds to 2, 3.5 to 4, 2.75 to 3 |
| Text.LowerChar | video_compressor.py:94 | an ASCII capital becomes the small letter 32 code points above it; any other character is kept |
| Text.Lower | video_compressor.py:94 | same length; each ASCII capital becomes its small letter and every other character is kept |
| Text.LowerSuffix | video_compressor.py:94 | lower-casing a tail is taking the tail of the lower-cased name |
| Text.EndsWithLower | video_compressor.py:94 | testing a suffix of the lower-cased name is testing the lower-cased tail of that length |
| Text.EndsWithAnyOfThree | video_compressor.py:94 | `endswith` with a three-element tuple is the disjunction of the three tests |
| Text.DigitChar | video_compressor.py:63 | the character of a digit value is a digit that reads back as that value |
| Text.NatToString | video_compressor.py:63 | `str(n)` is a non-empty digit string with no leading zero |
| Text.IntToString | video_compressor.py:63 | `f'{i}'` is digits, preceded by a minus sign for a negative value |
| Text.ParseNatToString | video_compressor.py:63 | the digits of `str(n)` read back as `n` |
| Text.ParseIntToString | video_compressor.py:63 | `f'{i}'` reads back as `i` |
| Text.IntToStringInjective | video_compressor.py:63 | different bitrates never give the same argument |
| Paths.Basename | video_compressor.py:49 | the result is the suffix of the path after its last separator, and holds no separator |
| Paths.LastIndexOf | video_compressor.py:49 | `rfind`: -1 or a position holding the character, with no occurrence after it |
| Paths.LastIndexOfAt | video_compressor.py:49 | an occurrence with none after it is the one `rfind` reports |
| Paths.Join | video_compressor.py:50 | an absolute second part replaces the first; otherwise the path is the first part, one `/` unless the first part is empty or already ends in `/`, then the second part |
| Paths.Splitext | video_compressor.py:96 | stem plus extension is the path; a non-empty extension is a dot then no dot or separator, and the base name has a non-dot character before it |
| Paths.BasenameAfterSeparator | video_compressor.py:49 | whatever precedes the base name ends in a separator |
| Paths.BasenameJoin | video_compressor.py:49-50 | joining a directory with a plain name and taking the base name gives the name back |
| Paths.SplitextExamples | video_compressor.py:96 | `clip.MP4` and `a.b.mkv` split at the last dot |
| Paths.SplitextNoExtension | video_compressor.py:96 | `.mkv`, `..avi` and `noext` have no extension |
| Progress.TwoDigits | video_compressor.py:77 | `\d{2}` holds exactly when both characters are digits |
| Progress.MatchAtPattern | video_compressor.py:77 | a match at a position is the literal `time=`, then two digits, `:`, two digits, `:`, two digits, `.`, two digits |
| Progress.FindMatch | video_compressor.py:77 | the result is a match position with no match between the start and it, or there is no match at all |
| Progress.FindMatchLeftmost | video_compressor.py:77 | the leftmost match is the one reported |
| Progress.MatchTime | video_compressor.py:77-78 | `None` exactly when `time=` followed by a `HH:MM:SS.CC` stamp occurs nowhere; otherwise group 1 of the leftmost match |
| Progress.MatchExample | video_compressor.py:77-78 | text around the match is ignored |
| Progress.MalformedStampFirstMatch | video_compressor.py:77 | in `time=1 time=00:01:00.00` the first start that matches is the second `time=` |
| Progress.MalformedStampSkipped | video_compressor.py:77-78 | an earlier `time=` without a well-formed stamp does not hide a later one |
| Progress.LineEvents | video_compressor.py:76-78 | each line is echoed first, and followed by a progress marker exactly when it matches |
| Progress.StatusEvents | video_compressor.py:75-78 | the events of a stream number between one and two per line, and are only echoes and markers |
| Progress.Echoes | video_compressor.py:76 | the echoed lines of a list of events are never more than the events |
| Progress.EchoesAppend | video_compressor.py:75-76 | the echoes of two event lists in a row are the echoes of the first, then those of the second |
| Progress.LineEchoedOnce | video_compressor.py:76 | one line is echoed exactly once |
| Progress.EchoesOfLastLine | video_compressor.py:75-76 | the last line of a stream adds its own echo after those of the lines before it |
| Progress.EveryLineEchoed | video_compressor.py:75-76 | the echoed lines of a stream are the stream itself, in order |
| Progress.DrainStatus | video_compressor.py:75-78 | draining the stream produces the events of the stream specification |
| TwoPass.CommonArgs | video_compressor.py:60-66 | 13 arguments: `ffmpeg -y`, the input after `-i`, the scale filter after `-vf`, the bitrate after `-b:v`, the pass number after `-pass` (reading back as that number), `-an`, and the log prefix after `-passlogfile` |
| TwoPass.Command | video_compressor.py:60-70 | the common arguments, then `-f mp4 <null sink>` for pass 1 (16 in all) or the output path for pass 2 (14 in all) |
| TwoPass.Passes | video_compressor.py:59-83 | pass 1's command always runs; pass 2's command runs exactly when pass 1 exited 0; both passed exactly when two ran and pass 2 exited 0 |
| TwoPass.PassCommandsAgree | video_compressor.py:59-70 | pass 1 has 16 arguments ending in `-f mp4 <null sink>`, pass 2 has 14 ending in the output; they differ only in the pass number and that tail |
| TwoPass.PassOrder | video_compressor.py:59-83 | pass 1 always starts; pass 2 starts exactly when pass 1 exited 0; a failure is the last pass started and a non-zero exit is reported on the console |
| TwoPass.PassesCommands | video_compressor.py:59-70 | every started pass reads the input, asks for the bitrate and logs under the prefix; pass 2 writes the output |
| TwoPass.NoSecondPassAfterFailure | video_compressor.py:79-83 | after a failed pass 1, pass 2 never starts, whatever the encoder would answer |
| TwoPass.PassesEchoEveryLine | video_compressor.py:72-83 | the console echoes every status line of every pass that ran, in order |
| TwoPass.BuildCommand | video_compressor.py:60-70 | building the common arguments and then extending or appending gives the pass's command |
| TwoPass.PassesFromStart | video_compressor.py:59-83 | the loop state machine, started at pass 1 with nothing run, is the two-pass specification |
| TwoPass.RunPasses | video_compressor.py:59-83 | the pass loop produces the run of the pass specification |
| TwoPass.Finish | video_compressor.py:72-83 | both passes passed means encoded, a spawn failure escapes, and a non-zero exit is a caught failure; commands and console are kept |
| BatchLoop.RunUntil | video_compressor.py:92-97 | the walk yields at most one item per listed entry |
| BatchLoop.Filter | video_compressor.py:92-94 | an entry is picked exactly when it is listed and passes the test |
| BatchLoop.RunProcessesKept | video_compressor.py:92-97 | the items are the processed picked entries, in listing order |
| BatchLoop.RunEscapesOnlyLast | video_compressor.py:92-97 | no item but the last raised |
| BatchLoop.RunShortOnlyAtEscape | video_compressor.py:92-97 | the walk stops early only on an item that raised |
| BatchLoop.RunFollowsFilter | video_compressor.py:92-97 | the three facts above together |
| BatchLoop.RunCompleteWithoutEscape | video_compressor.py:92-97 | when nothing raises, every picked entry is processed |
| VideoCompressor.CalculateBitrate | video_compressor.py:23-45 | `None` exactly when the file is within budget; a failure exactly when the file is over budget and the probe fails (probe error) or reports 0.0 (division by zero); a rate only with a usable duration, and then the buffered floored rate |
| VideoCompressor.EncodeAt | video_compressor.py:49-83 | one or two passes run, and the outcome is the output file under the input's base name, a caught pass failure, or a spawn failure at the last pass started |
| VideoCompressor.CompressSpec | video_compressor.py:47-83 | no pass runs exactly when the file is not over budget with a usable duration; a file within budget is linked exactly when its destination is free, and raises exactly when it exists; the written file is always the input's base name in the output directory |
| VideoCompressor.CompressVideo | video_compressor.py:47-83 | the method produces the report of the per-file specification |
| VideoCompressor.LinkShortcut | video_compressor.py:49-57 | a file within budget starts no pass and is linked under its own base name and extension; an existing destination raises |
| VideoCompressor.EncodeAtBufferedBitrate | video_compressor.py:59-70 | a file over budget with a usable duration is encoded at the buffered rate, written in decimal and read back exactly; pass 2 writes into the output directory |
| VideoCompressor.FailureKinds | video_compressor.py:35-83 | a probe error happens exactly when the file is over budget and the probe fails, and a zero-duration error exactly when it is over budget and the probe answers 0.0; a spawn failure escapes at the pass that failed; a non-zero exit is caught at its pass |
| VideoCompressor.LogPrefix | video_compressor.py:96 | the prefix starts with the log directory and ends with `log_` and the stem of the name |
| VideoCompressor.IsVideoNameCaseInsensitive | video_compressor.py:94 | the extension test holds exactly when the lower-cased last four characters are `.mp4`, `.avi` or `.mkv` |
| VideoCompressor.DirItemsIsBatchLoop | video_compressor.py:92-97 | directory mode is the shared batch walk with this script's test and processing |
| VideoCompressor.DirItemsFollowSelection | video_compressor.py:92-97 | exactly the listed regular files with a video extension are handled, in listing order, each under its `log_<stem>` prefix |
| VideoCompressor.PassFailuresIsolated | video_compressor.py:81-97 | a failed pass does not stop the batch: with no exception, every picked entry is handled |
| VideoCompressor.ProcessEntry | video_compressor.py:93-97 | one entry's item: its `log_<stem>` prefix and its report |
| VideoCompressor.DirItemsAt | video_compressor.py:92-97 | an unpicked entry is skipped, a picked one comes next, and one that raises ends the walk |
| VideoCompressor.VisitEntry | video_compressor.py:92-97 | one loop step: after an entry that raised, the items are complete; otherwise they and the rest of the walk make up the whole |
| VideoCompressor.ProcessDirectory | video_compressor.py:90-97 | the loop over the listing produces the batch specification's items |
| VideoCompressor.ProcessSpec | video_compressor.py:90-104 | invalid exactly when the path is neither a directory nor a file; a directory gives the walk's items; a file gives one item under its base name with its `log_<stem>` prefix |
| VideoCompressor.ProcessVideos | video_compressor.py:85-104 | a directory walk, a single-file run, or the invalid-path case, as specified |
| VideoMarkerFreeMB.CalculateBitrate | videoMarker_FreeMB.py:13-33 | `None` exactly when within budget; a failure exactly when over budget and the probe fails (probe error) or reports 0.0 (division by zero); a rate only with a usable duration, and then the buffered floored rate |
| VideoMarkerFreeMB.EncodeAt | videoMarker_FreeMB.py:41-67 | one or two passes run, and the outcome is the output path, a caught pass failure, or a spawn failure at the last pass started |
| VideoMarkerFreeMB.CompressSpec | videoMarker_FreeMB.py:35-67 | with no caller bitrate, no pass runs exactly when the file is not over budget with a usable duration, and the file is reported small exactly when it is within budget |
| VideoMarkerFreeMB.CompressVideo | videoMarker_FreeMB.py:35-67 | the method produces the report of the specification |
| VideoMarkerFreeMB.EncodeAtCommands | videoMarker_FreeMB.py:41-54 | every pass reads the input, asks for the bitrate in decimal and logs under `ffmpeg2pass`; pass 2 writes the output path |
| VideoMarkerFreeMB.CallerBitrateBypassesBudget | videoMarker_FreeMB.py:35-39 | a caller's bitrate is used as is; neither size nor probe is consulted |
| VideoMarkerFreeMB.SmallFileUntouched | videoMarker_FreeMB.py:15-19 | with no caller bitrate, a file within budget starts no pass |
| VideoMarkerFreeMB.DerivedBitrate | videoMarker_FreeMB.py:21-39 | with no caller bitrate, a file over budget is encoded at the buffered rate, or the probe failure escapes before any pass |
| VideoMarkerFixedMB.BitrateArg | videoMarker_FixedMB.py:22-30 | the argument reads back as the raw rate rounded half to even, and is plain digits for a positive duration |
| VideoMarkerFixedMB.CompressSpec | videoMarker_FixedMB.py:12-50 | no pass runs exactly when the file is not over budget with a usable duration; small exactly when within budget; a failing probe or 0.0 duration raises; the written file is the output path |
| VideoMarkerFixedMB.CompressVideo | videoMarker_FixedMB.py:12-50 | the method produces the report of the specification |
| VideoMarkerFixedMB.SmallFileUntouched | videoMarker_FixedMB.py:13-16 | a file within budget is left alone, whatever probe or encoder would say |
| VideoMarkerFixedMB.EncodeAtRoundedRate | videoMarker_FixedMB.py:22-37 | every pass asks for the unbuffered rate rounded half to even and logs under `ffmpeg2pass`; pass 2 writes the output path |
| VideoMarkerFixedMB.ProbeFailuresEscape | videoMarker_FixedMB.py:18-22 | a failing probe or a zero duration escapes before any pass |
| VideoMarkerFixedMB.RoundedRateWithinBuffered | videoMarker_FixedMB.py:22-30 | from 10 bit/s up, the rounded rate never exceeds the buffered floored rate of the other scripts |
| Geometry.FitRatio | image_resizer_free.py:27 | the ratio is in (0, 1], at most both bound ratios, and equal to one of 1 and the two bound ratios |
| Geometry.FreeFit | image_resizer_free.py:27-29 | the fit is never larger than the image or the box; it is the image itself exactly when the image lies within the box; otherwise one side lands on its bound |
| Geometry.FreeFitFromRatio | image_resizer_free.py:27-29 | the integer fit equals flooring each side times the exact `min` ratio |
| Geometry.FreeFitKeepsAspect | image_resizer_free.py:27-29 | the aspect ratio is kept up to the flooring: the cross products differ by less than one side |
| Geometry.FreeFitRender | image_resizer_free.py:27-32 | the image is resized exactly when it does not lie within the box, and ends at the fitted size |
| Geometry.FreeFitExamples | image_resizer_free.py:27-32 | 4000x3000 into 1920x1080 gives 1440x1080; 1280x720 is left alone |
| Geometry.Is16x9 | imageMarker_Fixed16-9.py:25 | the integer test holds exactly when the exact ratio of the sides is 16/9 |
| Geometry.Stretch | imageMarker_Fixed16-9.py:27-32 | a wider image keeps its width and gets the floored 16:9 height; a taller one keeps its height and gets the floored width; neither side shrinks |
| Geometry.CenteredBox | imageMarker_Fixed16-9.py:36-40 | the box is 1920x1080 and centred up to one pixel; a side shorter than the box gives a negative offset |
| Geometry.Fixed16x9 | imageMarker_Fixed16-9.py:25-44 | a straight resize exactly for a 16:9 input; otherwise the stretch and then its centred box |
| Geometry.Fixed16x9Output | imageMarker_Fixed16-9.py:25-44 | whatever the input, the result is 1920x1080 |
| Geometry.Fixed16x9Examples | imageMarker_Fixed16-9.py:25-44 | 1000x1000 gives 1777x1000 with a box at (-72, -40); 3840x2160 is resized directly |
| QualitySearch.ResizeOnce | image_resizer_free.py:43-50 | at least one check, and one save per check; the reported quality is at most the starting one, the file on disk is the save at it, and its size is that file's size |
| QualitySearch.ResizeOnceUnfold | image_resizer_free.py:43-50 | a round that neither fits nor reached 10 saves and checks this quality, then goes on from 5 lower |
| QualitySearch.ResizeOnceStep | image_resizer_free.py:43-50 | the loop's saves and checks so far, followed by the rest of the search, are unchanged by one more round |
| QualitySearch.ResizeOnceShape | image_resizer_free.py:43-50 | the loop saves and checks 95, 90, ... in order, ends on a ladder quality, and leaves the last save on disk |
| QualitySearch.ResizeOnceStops | image_resizer_free.py:43-50 | no quality above the reported one fits, and above 10 the reported one fits |
| QualitySearch.ResizeOnceFacts | image_resizer_free.py:43-50 | the shape and the stop together: the first fit or 10, and the file on disk is the save at the reported quality |
| QualitySearch.ResizeOnceAtMost18 | image_resizer_free.py:38-50 | from 95 the loop checks between 1 and 18 qualities |
| QualitySearch.ResizeOnceFindsFit | image_resizer_free.py:43-50 | when any ladder quality fits, the loop ends within budget at that quality or above |
| QualitySearch.ResizeOnceSearch | image_resizer_free.py:38-50 | the `while True` loop produces the search of the specification |
| QualitySearch.ReResize | imageMarker_Free16-9.py:42-51 | at least one check; the reported quality is at most the starting one; the file on disk is the quality-95 save and its size is that file's size |
| QualitySearch.ReResizeUnfold | imageMarker_Free16-9.py:42-51 | a round that neither fits nor reached 10 saves at 95, then saves the reopened file 5 lower, and goes on from there |
| QualitySearch.ReResizeStep | imageMarker_Free16-9.py:42-51 | the loop's saves and checks so far, followed by the rest of the search, are unchanged by one more round |
| QualitySearch.ReResizeFacts | imageMarker_Free16-9.py:42-51 | the loop measures only quality-95 saves and leaves the quality-95 save on disk; it stops at once or walks down to 10 |
| QualitySearch.ReResizeTwoOutcomes | imageMarker_Free16-9.py:39-51 | from 95 it reports 95 after one check or 10 after eighteen |
| QualitySearch.ReResizeNeverShrinks | imageMarker_Free16-9.py:42-51 | a file over budget at 95 stays over budget, and 10 is reported |
| QualitySearch.LegacyLoopMisreports | imageMarker_Fixed16-9.py:54-63 | on a concrete input, the loop as written reports 10 and leaves 2000 bytes; the single-resize loop stops at 90 with 1000 bytes |
| QualitySearch.ReResizeSearch | imageMarker_Free16-9.py:39-51 | the `while True` loop, re-saving at 95 every round, produces the search of the specification |
| ImageResizerFree.ResizeImage | image_resizer_free.py:21-34 | an unopenable file raises; otherwise the image is resized exactly when it exceeds the box, to the fitted size |
| ImageResizerFree.OutputKeepsName | image_resizer_free.py:40-41 | an entry is written to the output directory under its own name |
| ImageResizerFree.CompressImage | image_resizer_free.py:36-54 | the output path is in the output directory, and the search is the single-resize loop |
| ImageResizerFree.IsImageNameCaseInsensitive | image_resizer_free.py:63 | the test holds exactly when the lower-cased last four characters are `.png` or `.jpg`, or the last five are `.jpeg` |
| ImageResizerFree.ProcessEntry | image_resizer_free.py:64-66 | one picked entry: resized, then searched; an unopenable file raises |
| ImageResizerFree.VisitEntry | image_resizer_free.py:61-66 | one loop step: after an entry that raised, the items are complete; otherwise they and the rest of the walk make up the whole |
| ImageResizerFree.DirItemsAt | image_resizer_free.py:61-66 | an unpicked entry is skipped, a picked one comes next, and one that raises ends the walk |
| ImageResizerFree.DirItemsFollowSelection | image_resizer_free.py:61-66 | exactly the listed regular files with an image extension are handled, in listing order |
| ImageResizerFree.ItemWritten | image_resizer_free.py:61-66 | an opened image ends in its own output file, holding the save at the reported quality, within budget unless the quality fell to 10 |
| ImageResizerFree.ProcessImages | image_resizer_free.py:56-66 | the loop over the listing produces the walk's items |
| ImageMarkerFree.ResizeImage | imageMarker_Free16-9.py:21-35 | an unopenable file raises; otherwise it is fitted into the box exactly when it exceeds it |
| ImageMarkerFree.CompressSpec | imageMarker_Free16-9.py:21-51 | fails exactly when the input cannot be opened; otherwise the file on disk is the quality-95 save and the size measured is its size |
| ImageMarkerFree.IntendedSpec | imageMarker_Free16-9.py:21-51 | fails exactly when the input cannot be opened; otherwise the file on disk is the save at the reported quality and the size measured is its size |
| ImageMarkerFree.CompressImage | imageMarker_Free16-9.py:37-51 | the method produces the as-written specification |
| ImageMarkerFree.CompressOutcome | imageMarker_Free16-9.py:37-54 | the file on disk is the quality-95 save; the reported quality is 95 or 10, and names the file's quality exactly when it fits |
| ImageMarkerFree.OpenFailureRaises | imageMarker_Free16-9.py:23 | an unopenable input raises before anything is saved |
| ImageMarkerFree.CompressImageIntended | imageMarker_Free16-9.py:37-51 | the corrected loop produces the single-resize search |
| ImageMarkerFree.IntendedOutcome | imageMarker_Free16-9.py:37-51 | with the corrected loop, the file holds the save at the reported quality and fits whenever some ladder quality fits |
| ImageMarkerFixed.ResizeImage | imageMarker_Fixed16-9.py:19-47 | an unopenable file raises; otherwise the picture is 1920x1080, resized directly exactly when the input is 16:9 |
| ImageMarkerFixed.CompressSpec | imageMarker_Fixed16-9.py:19-63 | fails exactly when the input cannot be opened; otherwise the file on disk is the quality-95 save and the size measured is its size |
| ImageMarkerFixed.IntendedSpec | imageMarker_Fixed16-9.py:19-63 | fails exactly when the input cannot be opened; otherwise the file on disk is the save at the reported quality and the size measured is its size |
| ImageMarkerFixed.CompressImage | imageMarker_Fixed16-9.py:49-63 | the method produces the as-written specification |
| ImageMarkerFixed.CompressOutcome | imageMarker_Fixed16-9.py:49-66 | the file on disk is the 1920x1080 quality-95 save; the reported quality is 95 or 10, and names the file's quality exactly when it fits |
| ImageMarkerFixed.OpenFailureRaises | imageMarker_Fixed16-9.py:21 | an unopenable input raises before anything is saved |
| ImageMarkerFixed.CompressImageIntended | imageMarker_Fixed16-9.py:49-63 | the corrected loop produces the single-resize search |
| ImageMarkerFixed.IntendedOutcome | imageMarker_Fixed16-9.py:49-63 | with the corrected loop, the file holds the save at the reported quality and fits whenever some ladder quality fits |

## Left out

- Printing is not modelled except the console of an encoder pass (`Progress.Event`). This covers the "already small", "Processing", final-quality and final-size messages, and the `\r` formatting of the marker.
- `argparse`, the `__main__` blocks and the module-level example invocations are left out.
  - The `__main__` block of video_compressor.py forwards the parsed command-line values to the constructor. The budget there is parsed with `type=int`.
  - The other scripts pass constants.
  - The model's constructors take these values as parameters.
- The constructors' default arguments are not modelled: every constructor takes every value.
  - The defaults are a 5 MB budget for the video scripts and a 2 MB budget for the image scripts.
  - image_resizer_free.py and imageMarker_Free16-9.py also default to a 1920x1080 box. imageMarker_Fixed16-9.py has no box parameter: its 1920x1080 is fixed in `resize_image`.
  - Where a caller relies on a default, the caller of the model passes it. This applies to the budget in videoMarker_FixedMB.py:53 and to the box in image_resizer_free.py and imageMarker_Free16-9.py.
- `os.makedirs` is assumed to succeed; its errors are not modelled. These are a path that exists as a non-directory (video_compressor.py:87-88, and :55 before `os.link`) and a missing permission. With such a path the script raises, where the model returns `InvalidInput`, the walk's items or `Linked`.
- ffprobe, ffmpeg, Pillow's `Image.open` and `os.path.getsize` are oracles in `TwoPass.Env` and `QualitySearch.ImageEnv`:
  - A probe failure and a `float()` that rejects the output are one case (`ProbeError`).
  - `getsize` is total: an unreadable file does not raise.
- Pillow's `save` always succeeds: a save is the encoding it writes. An `OSError` from a save (a full disk, a missing directory, an unwritable file) is not modelled.
- The input and output of the image scripts are assumed to be different files. `ImageEnv.open` answers for the input path only, and a reopened output is `Reopened` of the last save. This covers `QualitySearch.ReResizeFacts`, `ImageMarkerFree.CompressOutcome`, `ImageMarkerFixed.CompressOutcome` and the finding below. With the same path for both, `resize_image` would reopen the previous lower-quality save, so the file could shrink and the loop could stop before quality 10.
- The null sink is a parameter of `TwoPass.Env`, not a test of `os.name`.
- `os.link` fails in the model only when the destination exists. Other failures are not modelled: a cross-device link, a missing directory, permissions.
- Concurrency is not modelled. Each pass's status stream is a finished sequence of lines.
- Floating point is modelled as exact real arithmetic:
  - `Bitrate.RawBitrate` and `Bitrate.BufferedBitrate` use exact reals, so an IEEE rounding of the product may differ by one in the floor.
  - `Geometry.FreeFit` uses exact reals, so the IEEE value of `w * (maxW / w)` may floor to one pixel less.
  - `Geometry.Is16x9` uses exact cross products. It can differ from the float test only for sides longer than about 10^14 pixels.
- Pixels of images are not modelled. A picture is the plan that renders it: resize, crop and Lanczos resampling are left out.
- Pillow details are left out:
  - `resize_image` in image_resizer_free.py returns an image whose file was closed by its `with` block. Saving an unresized image may then fail in Pillow, and the model assumes it saves.
  - Pillow refuses a resize to a zero side. `Geometry.FreeFit` can give 0 for an extremely thin image, and the model does not raise there.
- VideoMarkerFreeMB.CompressSpec: a caller's bitrate is an integer. The script writes any caller value with `f'{bitrate}'`, so a float would give an argument such as `1500000.0`, and that case is not modelled.
- `Text.Lower`: only ASCII letters are lower-cased, and Unicode case folding is left out.
- Progress.MatchTime: `\d` is the ASCII digits 0-9 (`Progress.StampAt`). Python's `\d` on a `str` also matches other Unicode decimal digits, so a stamp written in such digits matches in the scripts but not in the model.
- ImageResizerFree.New: the box sides are `Pixels`, at least 1. The scripts accept a 0 side. The ratio is then 0 and the fitted size has a 0 side, which Pillow's `resize` refuses. That error is not modelled.
- ImageMarkerFree.New: the same restriction to box sides of at least 1, for the same reason.
- Paths follow POSIX rules only.
- Image dimensions are at least 1 (`Common.Pixels`), as Pillow reports for any opened image.

## Findings

| source | as written | input that shows it | evidently intended | confidence | as-written member | corrected member |
|---|---|---|---|---|---|---|
| imageMarker_Free16-9.py:42-51 and imageMarker_Fixed16-9.py:54-63 | with the input and output being different files, every round first calls `resize_image()`, which overwrites the output with the quality-95 save; the size is always measured on that save, and the lower-quality save is overwritten before it is measured | a picture whose quality-95 save is 2000 bytes and every other save 1000 bytes, budget 1500 bytes: the loop reports quality 10 and leaves the 2000-byte file | stop at quality 90 with the 1000-byte file, as image_resizer_free.py:43-50 does | not executed | QualitySearch.LegacyLoopMisreports | QualitySearch.ResizeOnceFindsFit |
