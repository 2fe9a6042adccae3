/** video_compressor.py: the batch video compressor. Each selected file is either hard-linked
    to the output directory (already within budget) or encoded in two passes at a bitrate
    derived from the byte budget; the pass-log prefix is derived from the file's name. */
module VideoCompressor {
  import opened Common
  import opened Text
  import opened Paths
  import opened Bitrate
  import opened Progress
  import opened TwoPass
  import BatchLoop

  /** The extensions handled in directory mode, compared with the lower-cased name. */
  const VideoExtensions: seq<string> := [".mp4", ".avi", ".mkv"]

  /** The fields `__init__` sets once: where to read, where to write, where to keep pass logs,
      and the byte budget. */
  datatype Compressor = Compressor(inputPath: string, outputPath: string, logPath: string, targetBytes: real)

  /** `VideoCompressor.__init__`. */
  function New(inputPath: string, outputPath: string, logPath: string, targetMb: real): (c: Compressor)
    ensures c.inputPath == inputPath && c.outputPath == outputPath && c.logPath == logPath
    ensures c.targetBytes == targetMb * 1048576.0
  {
    Compressor(inputPath, outputPath, logPath, TargetBytes(targetMb))
  }

  /** What the batch sees of the filesystem: the paths that are regular files, those that are
      directories, the entries `os.listdir` gives for the input directory (in its order), and the
      paths that already exist, where `os.link` raises. */
  datatype Fs = Fs(files: set<string>, dirs: set<string>, listing: seq<string>, existing: set<string>)

  /** `calculate_bitrate(video_path)`. */
  function CalculateBitrate(c: Compressor, env: Env, videoPath: string): (r: Result<Estimate, Error>)
    ensures r == Success(AlreadySmall) <==> env.sizeOf(videoPath) as real <= c.targetBytes
    ensures r.Success? && r.value.Rate? ==>
      env.probe(videoPath).Some? && env.probe(videoPath).value != 0.0 &&
      r.value.bps == BufferedBitrate(c.targetBytes, env.probe(videoPath).value)
    ensures r.Failure? <==>
      env.sizeOf(videoPath) as real > c.targetBytes && (env.probe(videoPath).None? || env.probe(videoPath).value == 0.0)
    ensures r.Failure? ==> r.error == (if env.probe(videoPath).None? then ProbeError else ZeroDuration)
  {
    Calculate(env.sizeOf(videoPath), c.targetBytes, env.probe(videoPath))
  }

  /** `os.path.join(self.output_path, os.path.basename(video_path))`. */
  function OutputFor(c: Compressor, videoPath: string): string
  {
    Join(c.outputPath, Basename(videoPath))
  }

  /** The pass loop at the estimated bitrate, written with `str(bitrate)`, into the output
      directory under the input's base name. */
  function EncodeAt(c: Compressor, env: Env, videoPath: string, bps: int, logPrefix: string): (r: Report)
    ensures 1 <= |r.attempted| <= 2
    ensures r.outcome == Encoded(OutputFor(c, videoPath)) || r.outcome.PassFailed? ||
            r.outcome == Raised(SpawnError(|r.attempted|))
  {
    var dest := OutputFor(c, videoPath);
    Finish(Passes(videoPath, IntToString(bps), logPrefix, dest, env.nullSink, env.encoder), dest)
  }

  /** `compress_video(video_path, log_prefix)` as a function of the oracles. */
  function CompressSpec(c: Compressor, env: Env, fs: Fs, videoPath: string, logPrefix: string): (r: Report)
    ensures r.attempted == [] <==> !(env.sizeOf(videoPath) as real > c.targetBytes && env.probe(videoPath).Some? && env.probe(videoPath).value != 0.0)
    ensures r.outcome.Linked? <==> env.sizeOf(videoPath) as real <= c.targetBytes && OutputFor(c, videoPath) !in fs.existing
    ensures r.outcome == Raised(LinkError) <==> env.sizeOf(videoPath) as real <= c.targetBytes && OutputFor(c, videoPath) in fs.existing
    ensures r.outcome.Linked? || r.outcome.Encoded? ==> r.outcome.dest == OutputFor(c, videoPath)
  {
    var dest := OutputFor(c, videoPath);
    match CalculateBitrate(c, env, videoPath)
    case Failure(e) => Report(Raised(e), [], [])
    case Success(AlreadySmall) =>
      if dest in fs.existing then Report(Raised(LinkError), [], []) else Report(Linked(dest), [], [])
    case Success(Rate(bps)) =>
      EncodeAt(c, env, videoPath, bps, logPrefix)
  }

  /** `compress_video`: the link shortcut when the bitrate is `None`, otherwise the pass loop. */
  method CompressVideo(c: Compressor, env: Env, fs: Fs, videoPath: string, logPrefix: string)
    returns (report: Report)
    ensures report == CompressSpec(c, env, fs, videoPath, logPrefix)
  {
    var fileName := Basename(videoPath);
    var dest := Join(c.outputPath, fileName);
    var bitrate := CalculateBitrate(c, env, videoPath);
    if bitrate.Failure? {
      return Report(Raised(bitrate.error), [], []);
    }
    if bitrate.value.AlreadySmall? {
      if dest in fs.existing {
        return Report(Raised(LinkError), [], []);
      }
      return Report(Linked(dest), [], []);
    }
    var run := RunPasses(videoPath, IntToString(bitrate.value.bps), logPrefix, dest, env.nullSink, env.encoder);
    report := Finish(run, dest);
  }

  /** A file within budget starts no encoder pass: it is linked to the output directory under its
      own base name, extension included, unless that destination already exists. */
  lemma LinkShortcut(c: Compressor, env: Env, fs: Fs, videoPath: string, logPrefix: string)
    requires env.sizeOf(videoPath) as real <= c.targetBytes
    ensures var r := CompressSpec(c, env, fs, videoPath, logPrefix);
            var dest := OutputFor(c, videoPath);
            && r.attempted == [] && r.console == []
            && r.outcome == (if dest in fs.existing then Raised(LinkError) else Linked(dest))
            && Basename(dest) == Basename(videoPath)
            && Splitext(Basename(dest)).1 == Splitext(Basename(videoPath)).1
  {
    var dest := OutputFor(c, videoPath);
    assert CalculateBitrate(c, env, videoPath) == Success(AlreadySmall);
    assert CompressSpec(c, env, fs, videoPath, logPrefix) ==
             if dest in fs.existing then Report(Raised(LinkError), [], []) else Report(Linked(dest), [], []);
    BasenameJoin(c.outputPath, Basename(videoPath));
  }

  /** A file over budget with a usable duration is encoded at the floored, buffered bitrate,
      written as a decimal integer, with pass 2 writing to the output directory. */
  lemma EncodeAtBufferedBitrate(c: Compressor, env: Env, fs: Fs, videoPath: string, logPrefix: string)
    requires env.sizeOf(videoPath) as real > c.targetBytes
    requires env.probe(videoPath).Some? && env.probe(videoPath).value != 0.0
    ensures var r := CompressSpec(c, env, fs, videoPath, logPrefix);
            var bps := BufferedBitrate(c.targetBytes, env.probe(videoPath).value);
            && |r.attempted| >= 1 && |r.attempted[0]| == 16
            && r.attempted[0] == Command(videoPath, IntToString(bps), 1, logPrefix, OutputFor(c, videoPath), env.nullSink)
            && r.attempted[0][7] == IntToString(bps) && ParseInt(r.attempted[0][7]) == bps
            && (|r.attempted| == 2 ==> |r.attempted[1]| == 14 && r.attempted[1][13] == OutputFor(c, videoPath))
            && (r.outcome == Encoded(OutputFor(c, videoPath)) || r.outcome.PassFailed? || r.outcome.Raised?)
  {
    var bps := BufferedBitrate(c.targetBytes, env.probe(videoPath).value);
    PassOrder(videoPath, IntToString(bps), logPrefix, OutputFor(c, videoPath), env.nullSink, env.encoder);
    PassCommandsAgree(videoPath, IntToString(bps), logPrefix, OutputFor(c, videoPath), env.nullSink);
    ParseIntToString(bps);
  }

  /** The three failure kinds stay apart: a probe failure and a spawn failure escape as
      exceptions, a non-zero exit is caught and reported as a failed pass. */
  lemma FailureKinds(c: Compressor, env: Env, fs: Fs, videoPath: string, logPrefix: string)
    ensures var r := CompressSpec(c, env, fs, videoPath, logPrefix);
            && (r.outcome == Raised(ProbeError) <==>
                  env.sizeOf(videoPath) as real > c.targetBytes && env.probe(videoPath).None?)
            && (r.outcome == Raised(ZeroDuration) <==>
                  env.sizeOf(videoPath) as real > c.targetBytes && env.probe(videoPath) == Some(0.0))
            && (r.outcome.Raised? && r.outcome.error.SpawnError? ==> |r.attempted| == r.outcome.error.pass)
            && (r.outcome.PassFailed? ==> |r.attempted| == r.outcome.pass && r.outcome.code != 0)
  {
    match CalculateBitrate(c, env, videoPath)
    case Failure(e) =>
    case Success(AlreadySmall) =>
    case Success(Rate(bps)) =>
      PassOrder(videoPath, IntToString(bps), logPrefix, OutputFor(c, videoPath), env.nullSink, env.encoder);
  }

  /** `filename.lower().endswith(('.mp4', '.avi', '.mkv'))`. */
  predicate IsVideoName(name: string)
  {
    EndsWithAny(Lower(name), VideoExtensions)
  }

  /** The extension test ignores case: it looks at the last four characters, lower-cased. */
  lemma IsVideoNameCaseInsensitive(name: string)
    ensures IsVideoName(name) <==>
              |name| >= 4 && (var tail := Lower(name[|name| - 4..]); tail == ".mp4" || tail == ".avi" || tail == ".mkv")
  {
    EndsWithAnyOfThree(Lower(name), ".mp4", ".avi", ".mkv");
    if |name| >= 4 {
      EndsWithLower(name, ".mp4");
      EndsWithLower(name, ".avi");
      EndsWithLower(name, ".mkv");
    }
  }

  /** `os.path.join(self.log_path, f"log_{os.path.splitext(filename)[0]}")`. */
  function LogPrefix(c: Compressor, name: string): (prefix: string)
    ensures var stem := Splitext(name).0;
            && |prefix| >= |c.logPath| + 4 + |stem|
            && prefix[..|c.logPath|] == c.logPath
            && prefix[|prefix| - |stem| - 4..] == "log_" + stem
  {
    Join(c.logPath, "log_" + Splitext(name).0)
  }

  /** One processed entry: its name, its pass-log prefix and its report. */
  datatype Item = Item(name: string, logPrefix: string, report: Report)

  /** Whether directory mode picks the entry: a regular file with a video extension. */
  predicate Picked(c: Compressor, fs: Fs, name: string)
  {
    Join(c.inputPath, name) in fs.files && IsVideoName(name)
  }

  /** The item directory mode makes of a picked entry. */
  function ItemFor(c: Compressor, env: Env, fs: Fs, name: string): Item
  {
    Item(name, LogPrefix(c, name), CompressSpec(c, env, fs, Join(c.inputPath, name), LogPrefix(c, name)))
  }

  predicate Escaped(item: Item) { item.report.outcome.Raised? }

  /** The directory-mode test and per-entry processing, as function values for the loop. */
  function PickTest(c: Compressor, fs: Fs): string -> bool { n => Picked(c, fs, n) }
  function Processor(c: Compressor, env: Env, fs: Fs): string -> Item { n => ItemFor(c, env, fs, n) }

  /** The entries directory mode picks, in listing order. */
  function Selected(c: Compressor, fs: Fs, names: seq<string>): seq<string>
  {
    BatchLoop.Filter(names, PickTest(c, fs))
  }

  /** Directory mode over `names`: picked entries in order; an item whose exception escapes
      ends the batch, a failed pass does not. */
  function DirItems(c: Compressor, env: Env, fs: Fs, names: seq<string>): seq<Item>
    decreases |names|
  {
    if names == [] then []
    else if !Picked(c, fs, names[0]) then DirItems(c, env, fs, names[1..])
    else
      var item := ItemFor(c, env, fs, names[0]);
      if Escaped(item) then [item] else [item] + DirItems(c, env, fs, names[1..])
  }

  /** Directory mode is the shared batch loop with this script's test and processing. */
  lemma {:induction false} DirItemsIsBatchLoop(c: Compressor, env: Env, fs: Fs, names: seq<string>)
    ensures DirItems(c, env, fs, names) == BatchLoop.RunUntil(names, PickTest(c, fs), Processor(c, env, fs), Escaped)
    decreases |names|
  {
    if names != [] {
      DirItemsIsBatchLoop(c, env, fs, names[1..]);
      assert PickTest(c, fs)(names[0]) == Picked(c, fs, names[0]);
      assert Processor(c, env, fs)(names[0]) == ItemFor(c, env, fs, names[0]);
    }
  }

  /** Directory mode handles exactly the listed regular files with a video extension, in listing
      order, each under its own `log_<stem>` prefix. */
  lemma DirItemsFollowSelection(c: Compressor, env: Env, fs: Fs, names: seq<string>)
    ensures var items := DirItems(c, env, fs, names);
            var picked := Selected(c, fs, names);
            && |items| <= |picked|
            && (forall n :: n in picked <==> n in names && Picked(c, fs, n))
            && (forall k :: 0 <= k < |items| ==> items[k] == ItemFor(c, env, fs, picked[k]))
  {
    var pick, proc := PickTest(c, fs), Processor(c, env, fs);
    DirItemsIsBatchLoop(c, env, fs, names);
    var items := BatchLoop.RunUntil(names, pick, proc, Escaped);
    var picked := BatchLoop.Filter(names, pick);
    BatchLoop.RunFollowsFilter(names, pick, proc, Escaped);
    forall n ensures n in picked <==> n in names && Picked(c, fs, n) {
      assert pick(n) == Picked(c, fs, n);
    }
    forall k | 0 <= k < |items| ensures items[k] == ItemFor(c, env, fs, picked[k]) {
      assert items[k] == proc(picked[k]);
    }
  }

  /** A failed pass (non-zero exit) does not stop the batch: when no item raises, every picked
      entry gets its item. */
  lemma PassFailuresIsolated(c: Compressor, env: Env, fs: Fs, names: seq<string>)
    requires forall n :: n in names && Picked(c, fs, n) ==> !Escaped(ItemFor(c, env, fs, n))
    ensures |DirItems(c, env, fs, names)| == |Selected(c, fs, names)|
  {
    DirItemsIsBatchLoop(c, env, fs, names);
    BatchLoop.RunCompleteWithoutEscape(names, PickTest(c, fs), Processor(c, env, fs), Escaped);
  }

  /** How a run of `process_videos` ends. */
  datatype Batch = InvalidInput | Ran(items: seq<Item>)

  /** `process_videos`: a directory is processed entry by entry, a file on its own, anything
      else is reported as an invalid input path. */
  function ProcessSpec(c: Compressor, env: Env, fs: Fs): (b: Batch)
    ensures b == InvalidInput <==> c.inputPath !in fs.dirs && c.inputPath !in fs.files
    ensures c.inputPath in fs.dirs ==> b.items == DirItems(c, env, fs, fs.listing)
    ensures c.inputPath !in fs.dirs && c.inputPath in fs.files ==>
              |b.items| == 1 && b.items[0].name == Basename(c.inputPath) &&
              b.items[0].report == CompressSpec(c, env, fs, c.inputPath, LogPrefix(c, Basename(c.inputPath)))
  {
    if c.inputPath in fs.dirs then Ran(DirItems(c, env, fs, fs.listing))
    else if c.inputPath in fs.files then
      var name := Basename(c.inputPath);
      Ran([Item(name, LogPrefix(c, name), CompressSpec(c, env, fs, c.inputPath, LogPrefix(c, name)))])
    else InvalidInput
  }

  /** The body of the directory loop for a picked entry: its `log_<stem>` prefix, then
      `compress_video` on its path. */
  method ProcessEntry(c: Compressor, env: Env, fs: Fs, filename: string) returns (item: Item)
    ensures item == ItemFor(c, env, fs, filename)
  {
    var filePath := Join(c.inputPath, filename);
    var logPrefix := Join(c.logPath, "log_" + Splitext(filename).0);
    var report := CompressVideo(c, env, fs, filePath, logPrefix);
    item := Item(filename, logPrefix, report);
  }

  /** One entry of directory mode, taken at position `i` of the listing. */
  lemma DirItemsAt(c: Compressor, env: Env, fs: Fs, names: seq<string>, i: nat)
    requires i < |names|
    ensures DirItems(c, env, fs, names[i..]) ==
              if !Picked(c, fs, names[i]) then DirItems(c, env, fs, names[i + 1..])
              else if Escaped(ItemFor(c, env, fs, names[i])) then [ItemFor(c, env, fs, names[i])]
              else [ItemFor(c, env, fs, names[i])] + DirItems(c, env, fs, names[i + 1..])
  {
    assert names[i..][0] == names[i] && names[i..][1..] == names[i + 1..];
  }

  /** The body of the directory loop for the entry at position `i`: a picked entry is processed
      and appended; `stop` says its exception escaped, which ends the loop. */
  method VisitEntry(c: Compressor, env: Env, fs: Fs, names: seq<string>, i: nat, items: seq<Item>)
    returns (next: seq<Item>, stop: bool)
    requires i < |names|
    ensures stop ==> next == items + DirItems(c, env, fs, names[i..])
    ensures !stop ==> next + DirItems(c, env, fs, names[i + 1..]) == items + DirItems(c, env, fs, names[i..])
  {
    DirItemsAt(c, env, fs, names, i);
    var filename := names[i];
    ghost var later := DirItems(c, env, fs, names[i + 1..]);
    if !Picked(c, fs, filename) {
      assert DirItems(c, env, fs, names[i..]) == later;
      return items, false;
    }
    var item := ProcessEntry(c, env, fs, filename);
    next := items + [item];
    stop := item.report.outcome.Raised?;
    if stop {
      assert DirItems(c, env, fs, names[i..]) == [item];
    } else {
      assert DirItems(c, env, fs, names[i..]) == [item] + later;
      assert next + later == items + ([item] + later);
    }
  }

  /** The directory branch of `process_videos`: the loop over `os.listdir`, stopping when an
      exception escapes an item. */
  method ProcessDirectory(c: Compressor, env: Env, fs: Fs) returns (items: seq<Item>)
    ensures items == DirItems(c, env, fs, fs.listing)
  {
    var names := fs.listing;
    items := [];
    for i := 0 to |names|
      invariant items + DirItems(c, env, fs, names[i..]) == DirItems(c, env, fs, names)
    {
      var stop;
      items, stop := VisitEntry(c, env, fs, names, i, items);
      if stop {
        return;
      }
    }
    assert names[|names|..] == [];
  }

  /** `process_videos`: a directory entry by entry, a single file on its own, otherwise the
      invalid-path message. */
  method ProcessVideos(c: Compressor, env: Env, fs: Fs) returns (batch: Batch)
    ensures batch == ProcessSpec(c, env, fs)
  {
    if c.inputPath in fs.dirs {
      var items := ProcessDirectory(c, env, fs);
      return Ran(items);
    } else if c.inputPath in fs.files {
      var fileName := Basename(c.inputPath);
      var logPrefix := Join(c.logPath, "log_" + Splitext(fileName).0);
      var report := CompressVideo(c, env, fs, c.inputPath, logPrefix);
      return Ran([Item(fileName, logPrefix, report)]);
    } else {
      return InvalidInput;
    }
  }
}
