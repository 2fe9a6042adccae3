/** videoMarker_FixedMB.py: one video, one output path, a byte budget; the bitrate is the budget
    spread over the duration with no buffer, written with `:.0f` (rounded half to even). */
module VideoMarkerFixedMB {
  import opened Common
  import opened Text
  import opened Bitrate
  import opened TwoPass

  /** The fields `__init__` sets: the input video, the output path and the byte budget. */
  datatype Compressor = Compressor(inputPath: string, outputPath: string, targetBytes: real)

  /** `VideoCompressor.__init__`. */
  function New(inputPath: string, outputPath: string, targetMb: real): (c: Compressor)
    ensures c.inputPath == inputPath && c.outputPath == outputPath
    ensures c.targetBytes == targetMb * 1048576.0
  {
    Compressor(inputPath, outputPath, TargetBytes(targetMb))
  }

  /** `f'{bitrate:.0f}'` with `bitrate = (target_size_bytes * 8) / duration`. */
  function BitrateArg(c: Compressor, duration: real): (arg: string)
    requires duration != 0.0
    ensures |arg| >= 1 && (AllDigits(arg) || (arg[0] == '-' && AllDigits(arg[1..])))
    ensures ParseInt(arg) == RoundHalfEven(RawBitrate(c.targetBytes, duration))
    ensures duration > 0.0 && c.targetBytes >= 0.0 ==> AllDigits(arg)
  {
    FormatFixed0(RawBitrate(c.targetBytes, duration))
  }

  /** `compress_video()` as a function of the oracles: the size test comes before the probe, a
      failing probe or a zero duration escapes, otherwise the two passes run. */
  function CompressSpec(c: Compressor, env: Env): (r: Report)
    ensures r.attempted == [] <==>
      !(env.sizeOf(c.inputPath) as real > c.targetBytes && env.probe(c.inputPath).Some? && env.probe(c.inputPath).value != 0.0)
    ensures r.outcome == SmallEnough <==> env.sizeOf(c.inputPath) as real <= c.targetBytes
    ensures env.sizeOf(c.inputPath) as real > c.targetBytes && (env.probe(c.inputPath).None? || env.probe(c.inputPath).value == 0.0) ==>
      r.outcome == Raised(if env.probe(c.inputPath).None? then ProbeError else ZeroDuration)
    ensures r.outcome.Encoded? ==> r.outcome.dest == c.outputPath
  {
    if env.sizeOf(c.inputPath) as real <= c.targetBytes then Report(SmallEnough, [], [])
    else match env.probe(c.inputPath)
      case None => Report(Raised(ProbeError), [], [])
      case Some(d) =>
        if d == 0.0 then Report(Raised(ZeroDuration), [], [])
        else Finish(Passes(c.inputPath, BitrateArg(c, d), FixedLogPrefix, c.outputPath, env.nullSink, env.encoder),
                    c.outputPath)
  }

  /** `compress_video`. */
  method CompressVideo(c: Compressor, env: Env) returns (report: Report)
    ensures report == CompressSpec(c, env)
  {
    var originalSize := env.sizeOf(c.inputPath);
    if originalSize as real <= c.targetBytes {
      return Report(SmallEnough, [], []);
    }
    var duration := env.probe(c.inputPath);
    if duration.None? {
      return Report(Raised(ProbeError), [], []);
    }
    if duration.value == 0.0 {
      return Report(Raised(ZeroDuration), [], []);
    }
    var bitrate := RawBitrate(c.targetBytes, duration.value);
    var run := RunPasses(c.inputPath, FormatFixed0(bitrate), FixedLogPrefix, c.outputPath, env.nullSink, env.encoder);
    report := Finish(run, c.outputPath);
  }

  /** A file within budget is left alone whatever the probe or the encoder would say. */
  lemma SmallFileUntouched(c: Compressor, env1: Env, env2: Env)
    requires env1.sizeOf(c.inputPath) as real <= c.targetBytes
    requires env2.sizeOf(c.inputPath) == env1.sizeOf(c.inputPath)
    ensures CompressSpec(c, env1) == CompressSpec(c, env2) == Report(SmallEnough, [], [])
  {
  }

  /** A file over budget with a usable duration is encoded at the unbuffered rate rounded half
      to even; every pass keeps its log under `ffmpeg2pass`, and pass 2 writes the output path. */
  lemma EncodeAtRoundedRate(c: Compressor, env: Env)
    requires env.sizeOf(c.inputPath) as real > c.targetBytes
    requires env.probe(c.inputPath).Some? && env.probe(c.inputPath).value != 0.0
    ensures var r := CompressSpec(c, env);
            var raw := RawBitrate(c.targetBytes, env.probe(c.inputPath).value);
            && 1 <= |r.attempted| <= 2
            && (forall k :: 0 <= k < |r.attempted| ==>
                  && |r.attempted[k]| >= 14 && r.attempted[k][12] == FixedLogPrefix
                  && r.attempted[k][7] == BitrateArg(c, env.probe(c.inputPath).value)
                  && ParseInt(r.attempted[k][7]) == RoundHalfEven(raw))
            && (|r.attempted| == 2 ==> r.attempted[1][13] == c.outputPath)
            && (r.outcome == Encoded(c.outputPath) || r.outcome.PassFailed? || r.outcome.Raised?)
  {
    var arg := BitrateArg(c, env.probe(c.inputPath).value);
    PassesCommands(c.inputPath, arg, FixedLogPrefix, c.outputPath, env.nullSink, env.encoder);
  }

  /** A failing probe or a zero duration escapes before any pass starts. */
  lemma ProbeFailuresEscape(c: Compressor, env: Env)
    requires env.sizeOf(c.inputPath) as real > c.targetBytes
    requires env.probe(c.inputPath).None? || env.probe(c.inputPath).value == 0.0
    ensures CompressSpec(c, env).attempted == []
    ensures CompressSpec(c, env).outcome ==
      Raised(if env.probe(c.inputPath).None? then ProbeError else ZeroDuration)
  {
  }

  /** Without the 5% buffer this script never asks for more than the floored buffered rate of
      the other two scripts, once the raw rate reaches 10 bit/s (where 5% covers the rounding). */
  lemma RoundedRateWithinBuffered(targetBytes: real, duration: real)
    requires duration != 0.0 && RawBitrate(targetBytes, duration) >= 10.0
    ensures RoundHalfEven(RawBitrate(targetBytes, duration)) <= BufferedBitrate(targetBytes, duration)
  {
    var raw := RawBitrate(targetBytes, duration);
    var n := RoundHalfEven(raw);
    assert n as real <= raw + 0.5 <= raw * 1.05;
  }
}
