/** videoMarker_FreeMB.py: one video, one output path, a byte budget; the caller may pass the
    bitrate, otherwise it is derived from the budget with the 5% buffer. The pass log always
    lives under the fixed prefix `ffmpeg2pass`. */
module VideoMarkerFreeMB {
  import opened Common
  import opened Text
  import opened Bitrate
  import opened TwoPass

  /** The fields `__init__` sets: the input video, the output path and the byte budget. */
  datatype Compressor = Compressor(inputPath: string, outputPath: string, targetBytes: real)

  /** `VideoCompressor.__init__`. */
  function New(inputPath: string, outputPath: string, targetMb: real): (c: Compressor)
    ensures c.inputPath == inputPath && c.outputPath == outputPath
    ensures c.targetBytes == targetMb * 1048576.0
  {
    Compressor(inputPath, outputPath, TargetBytes(targetMb))
  }

  /** `calculate_bitrate()`: `None` when the file is within budget, the floored buffered rate
      otherwise; a failing probe or a zero duration escapes. */
  function CalculateBitrate(c: Compressor, env: Env): (r: Result<Estimate, Error>)
    ensures r == Success(AlreadySmall) <==> env.sizeOf(c.inputPath) as real <= c.targetBytes
    ensures r.Success? && r.value.Rate? ==>
      env.probe(c.inputPath).Some? && env.probe(c.inputPath).value != 0.0 &&
      r.value.bps == BufferedBitrate(c.targetBytes, env.probe(c.inputPath).value)
    ensures r.Failure? <==>
      env.sizeOf(c.inputPath) as real > c.targetBytes && (env.probe(c.inputPath).None? || env.probe(c.inputPath).value == 0.0)
    ensures r.Failure? ==> r.error == (if env.probe(c.inputPath).None? then ProbeError else ZeroDuration)
  {
    Calculate(env.sizeOf(c.inputPath), c.targetBytes, env.probe(c.inputPath))
  }

  /** The pass loop at a given bitrate, written with `f'{bitrate}'`, into the output path. */
  function EncodeAt(c: Compressor, env: Env, bitrate: int): (r: Report)
    ensures 1 <= |r.attempted| <= 2
    ensures r.outcome == Encoded(c.outputPath) || r.outcome.PassFailed? || r.outcome == Raised(SpawnError(|r.attempted|))
  {
    Finish(Passes(c.inputPath, IntToString(bitrate), FixedLogPrefix, c.outputPath, env.nullSink, env.encoder),
           c.outputPath)
  }

  /** `compress_video(bitrate)` as a function of the oracles: a bitrate the caller passes is used
      as is; otherwise `None` from `calculate_bitrate` ends the call with nothing written. */
  function CompressSpec(c: Compressor, env: Env, bitrate: Option<int>): (r: Report)
    ensures r.attempted == [] <==>
      bitrate.None? && !(env.sizeOf(c.inputPath) as real > c.targetBytes && env.probe(c.inputPath).Some? && env.probe(c.inputPath).value != 0.0)
    ensures r.outcome == SmallEnough <==> bitrate.None? && env.sizeOf(c.inputPath) as real <= c.targetBytes
  {
    match bitrate
    case Some(b) => EncodeAt(c, env, b)
    case None =>
      match CalculateBitrate(c, env)
      case Failure(e) => Report(Raised(e), [], [])
      case Success(AlreadySmall) => Report(SmallEnough, [], [])
      case Success(Rate(bps)) => EncodeAt(c, env, bps)
  }

  /** `compress_video`: fill in the bitrate when the caller gave none, then run the passes. */
  method CompressVideo(c: Compressor, env: Env, bitrate: Option<int>) returns (report: Report)
    ensures report == CompressSpec(c, env, bitrate)
  {
    var rate: int;
    if bitrate.None? {
      var estimate := CalculateBitrate(c, env);
      if estimate.Failure? {
        return Report(Raised(estimate.error), [], []);
      }
      if estimate.value.AlreadySmall? {
        return Report(SmallEnough, [], []);
      }
      rate := estimate.value.bps;
    } else {
      rate := bitrate.value;
    }
    var run := RunPasses(c.inputPath, IntToString(rate), FixedLogPrefix, c.outputPath, env.nullSink, env.encoder);
    report := Finish(run, c.outputPath);
  }

  /** Every pass the call starts reads the input, asks for the given bitrate in decimal (which
      reads back as that bitrate, by `ParseIntToString`), keeps its log under
      `ffmpeg2pass`, and the second one writes the output path; the outcome is one of the
      encoder's. */
  lemma EncodeAtCommands(c: Compressor, env: Env, bitrate: int)
    ensures var r := EncodeAt(c, env, bitrate);
            && 1 <= |r.attempted| <= 2
            && (forall k :: 0 <= k < |r.attempted| ==>
                  |r.attempted[k]| >= 14 && r.attempted[k][3] == c.inputPath && r.attempted[k][12] == FixedLogPrefix &&
                  r.attempted[k][7] == IntToString(bitrate))
            && (|r.attempted| == 2 ==> r.attempted[1][13] == c.outputPath)
            && (r.outcome == Encoded(c.outputPath) || r.outcome.PassFailed? || r.outcome.Raised?)
  {
    PassesCommands(c.inputPath, IntToString(bitrate), FixedLogPrefix, c.outputPath, env.nullSink, env.encoder);
  }

  /** A bitrate passed by the caller bypasses the budget: neither the file size nor the probe
      is consulted, so two environments that differ only there give the same report. */
  lemma CallerBitrateBypassesBudget(c: Compressor, env1: Env, env2: Env, bitrate: int)
    requires env1.encoder == env2.encoder && env1.nullSink == env2.nullSink
    ensures CompressSpec(c, env1, Some(bitrate)) == CompressSpec(c, env2, Some(bitrate))
    ensures CompressSpec(c, env1, Some(bitrate)) == EncodeAt(c, env1, bitrate)
  {
  }

  /** Without a caller bitrate, a file within budget starts no pass and reports nothing written. */
  lemma SmallFileUntouched(c: Compressor, env: Env)
    requires env.sizeOf(c.inputPath) as real <= c.targetBytes
    ensures CompressSpec(c, env, None) == Report(SmallEnough, [], [])
  {
  }

  /** Without a caller bitrate, a file over budget is encoded at the floored buffered rate, or the
      probe's failure (or a zero duration) escapes before any pass starts. */
  lemma DerivedBitrate(c: Compressor, env: Env)
    requires env.sizeOf(c.inputPath) as real > c.targetBytes
    ensures var r := CompressSpec(c, env, None);
            var d := env.probe(c.inputPath);
            && (d.None? ==> r == Report(Raised(ProbeError), [], []))
            && (d.Some? && d.value == 0.0 ==> r == Report(Raised(ZeroDuration), [], []))
            && (d.Some? && d.value != 0.0 ==>
                  r == EncodeAt(c, env, BufferedBitrate(c.targetBytes, d.value)) &&
                  |r.attempted| >= 1 && |r.attempted[0]| >= 14 && r.attempted[0][7] == IntToString(BufferedBitrate(c.targetBytes, d.value)))
  {
    var d := env.probe(c.inputPath);
    if d.Some? && d.value != 0.0 {
      EncodeAtCommands(c, env, BufferedBitrate(c.targetBytes, d.value));
    }
  }
}
