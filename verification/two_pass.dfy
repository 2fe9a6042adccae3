/** The two-pass encode shared by the three video scripts: the ffmpeg argument list of each
    pass, and the `for pass_num in [1, 2]` loop that stops at the first failing pass. */
module TwoPass {
  import opened Common
  import opened Text
  import opened Progress

  /** Output scale every pass asks for, whatever the source resolution. */
  const Scale: string := "scale=1920:1080"

  /** The pass-log prefix of videoMarker_FreeMB.py and videoMarker_FixedMB.py. */
  const FixedLogPrefix: string := "ffmpeg2pass"

  /** The 13 leading arguments of a pass: input, scale, bitrate, pass number, no audio, log prefix. */
  function CommonArgs(input: string, bitrateArg: string, passNum: nat, logPrefix: string): (args: seq<string>)
    ensures |args| == 13 && args[0] == "ffmpeg" && args[1] == "-y"
    ensures args[2] == "-i" && args[3] == input
    ensures args[4] == "-vf" && args[5] == Scale
    ensures args[6] == "-b:v" && args[7] == bitrateArg
    ensures args[8] == "-pass" && AllDigits(args[9]) && ParseNat(args[9]) == passNum
    ensures args[10] == "-an"
    ensures args[11] == "-passlogfile" && args[12] == logPrefix
  {
    ParseNatToString(passNum);
    ["ffmpeg", "-y", "-i", input,
     "-vf", Scale,
     "-b:v", bitrateArg, "-pass", NatToString(passNum),
     "-an",
     "-passlogfile", logPrefix]
  }

  /** What pass 1 (`extend`) or pass 2 (`append`) adds: the null sink, or the real output. */
  function PassTail(passNum: nat, output: string, nullSink: string): seq<string>
  {
    if passNum == 1 then ["-f", "mp4", nullSink] else [output]
  }

  /** The full argument list of one pass. */
  function Command(input: string, bitrateArg: string, passNum: nat, logPrefix: string,
                   output: string, nullSink: string): (cmd: seq<string>)
    ensures |cmd| == (if passNum == 1 then 16 else 14)
    ensures cmd[..13] == CommonArgs(input, bitrateArg, passNum, logPrefix)
    ensures passNum == 1 ==> cmd[13..] == ["-f", "mp4", nullSink]
    ensures passNum != 1 ==> cmd[13] == output
  {
    CommonArgs(input, bitrateArg, passNum, logPrefix) + PassTail(passNum, output, nullSink)
  }

  /** The two passes share everything but the pass number and the sink: pass 1 has 16 arguments
      and ends with `-f mp4 <null sink>`, pass 2 has 14 and ends with the output path. */
  lemma PassCommandsAgree(input: string, bitrateArg: string, logPrefix: string, output: string, nullSink: string)
    ensures var c1 := Command(input, bitrateArg, 1, logPrefix, output, nullSink);
            var c2 := Command(input, bitrateArg, 2, logPrefix, output, nullSink);
            && |c1| == 16 && |c2| == 14
            && (forall k :: 0 <= k < 13 && k != 9 ==> c1[k] == c2[k])
            && c1[9] == "1" && c2[9] == "2"
            && c1[3] == input && c1[5] == Scale && c1[7] == bitrateArg && c1[10] == "-an" && c1[12] == logPrefix
            && c1[13..] == ["-f", "mp4", nullSink] && c2[13] == output
  {
  }

  /** What starting the encoder on a command gives: the status lines it printed and its exit
      status, or a failure to start it at all (binary missing), which Popen raises. */
  datatype PassRun = Exited(lines: seq<string>, code: int) | SpawnFailed

  /** How the pass loop ends. */
  datatype PassesOutcome = BothPassed | ExitFailure(pass: nat, code: int) | SpawnFailure(pass: nat)

  /** The outcome, the commands handed to the encoder in order, and the console output. */
  datatype Run = Run(outcome: PassesOutcome, attempted: seq<seq<string>>, console: seq<Event>)

  predicate Succeeded(r: PassRun) { r.Exited? && r.code == 0 }

  /** The pass loop over two given commands: pass 1, then pass 2 only if pass 1 exited with
      status 0; a non-zero exit is reported and ends the loop. */
  function PassRuns(c1: seq<string>, c2: seq<string>, encoder: seq<string> -> PassRun): Run
  {
    match encoder(c1)
    case SpawnFailed => Run(SpawnFailure(1), [c1], [])
    case Exited(lines1, code1) =>
      var out1 := StatusEvents(lines1);
      if code1 != 0 then Run(ExitFailure(1, code1), [c1], out1 + [PassError(1, code1)])
      else
        match encoder(c2)
        case SpawnFailed => Run(SpawnFailure(2), [c1, c2], out1)
        case Exited(lines2, code2) =>
          var out2 := out1 + StatusEvents(lines2);
          if code2 != 0 then Run(ExitFailure(2, code2), [c1, c2], out2 + [PassError(2, code2)])
          else Run(BothPassed, [c1, c2], out2)
  }

  /** The rest of the pass loop from pass `passNum`, given the commands started and the console
      output so far: the state the `for` loop carries from one pass to the next. */
  function PassesFrom(c1: seq<string>, c2: seq<string>, encoder: seq<string> -> PassRun, passNum: nat,
                      attempted: seq<seq<string>>, console: seq<Event>): Run
    decreases 3 - passNum
  {
    if passNum >= 3 then Run(BothPassed, attempted, console)
    else
      var cmd := if passNum == 1 then c1 else c2;
      match encoder(cmd)
      case SpawnFailed => Run(SpawnFailure(passNum), attempted + [cmd], console)
      case Exited(lines, code) =>
        if code != 0 then
          Run(ExitFailure(passNum, code), attempted + [cmd], console + StatusEvents(lines) + [PassError(passNum, code)])
        else PassesFrom(c1, c2, encoder, passNum + 1, attempted + [cmd], console + StatusEvents(lines))
  }

  /** Running the loop from pass 1 with nothing started is the two-pass state machine. */
  lemma PassesFromStart(c1: seq<string>, c2: seq<string>, encoder: seq<string> -> PassRun)
    ensures PassesFrom(c1, c2, encoder, 1, [], []) == PassRuns(c1, c2, encoder)
  {
    assert [] + [c1] == [c1] && [c1] + [c2] == [c1, c2];
    if encoder(c1).Exited? {
      var out1 := StatusEvents(encoder(c1).lines);
      assert [] + out1 == out1;
    }
  }

  /** The pass loop as a state machine over the encoder's answers, on the two pass commands. */
  function Passes(input: string, bitrateArg: string, logPrefix: string, output: string,
                  nullSink: string, encoder: seq<string> -> PassRun): (r: Run)
    ensures 1 <= |r.attempted| <= 2
    ensures r.attempted[0] == Command(input, bitrateArg, 1, logPrefix, output, nullSink)
    ensures |r.attempted| == 2 <==> Succeeded(encoder(r.attempted[0]))
    ensures |r.attempted| == 2 ==> r.attempted[1] == Command(input, bitrateArg, 2, logPrefix, output, nullSink)
    ensures r.outcome == BothPassed <==> |r.attempted| == 2 && Succeeded(encoder(r.attempted[1]))
  {
    PassRuns(Command(input, bitrateArg, 1, logPrefix, output, nullSink),
             Command(input, bitrateArg, 2, logPrefix, output, nullSink), encoder)
  }

  /** Pass order: pass 1 always starts; pass 2 starts exactly when pass 1 exited with status 0;
      both passed exactly when both exited with 0; a failure is the last pass started, and a
      non-zero exit is reported on the console. */
  lemma PassOrder(input: string, bitrateArg: string, logPrefix: string, output: string,
                  nullSink: string, encoder: seq<string> -> PassRun)
    ensures var r := Passes(input, bitrateArg, logPrefix, output, nullSink, encoder);
            var c1 := Command(input, bitrateArg, 1, logPrefix, output, nullSink);
            var c2 := Command(input, bitrateArg, 2, logPrefix, output, nullSink);
            && 1 <= |r.attempted| <= 2
            && r.attempted[0] == c1
            && (|r.attempted| == 2 <==> Succeeded(encoder(c1)))
            && (|r.attempted| == 2 ==> r.attempted[1] == c2)
            && (r.outcome == BothPassed <==> Succeeded(encoder(c1)) && Succeeded(encoder(c2)))
            && (r.outcome.SpawnFailure? <==> encoder(r.attempted[|r.attempted| - 1]).SpawnFailed?)
            && (r.outcome.ExitFailure? ==>
                  r.outcome.pass == |r.attempted| &&
                  encoder(r.attempted[|r.attempted| - 1]) == Exited(encoder(r.attempted[|r.attempted| - 1]).lines, r.outcome.code) &&
                  r.outcome.code != 0 &&
                  |r.console| >= 1 && r.console[|r.console| - 1] == PassError(r.outcome.pass, r.outcome.code))
  {
  }

  /** Every command the loop starts reads the input, asks for the given bitrate and keeps its
      log under the given prefix; pass 2, when started, writes the output. */
  lemma PassesCommands(input: string, bitrateArg: string, logPrefix: string, output: string,
                       nullSink: string, encoder: seq<string> -> PassRun)
    ensures var r := Passes(input, bitrateArg, logPrefix, output, nullSink, encoder);
            && 1 <= |r.attempted| <= 2
            && (forall k :: 0 <= k < |r.attempted| ==>
                  |r.attempted[k]| >= 14 &&
                  r.attempted[k][3] == input && r.attempted[k][7] == bitrateArg && r.attempted[k][12] == logPrefix)
            && (|r.attempted| == 2 ==> r.attempted[1][13] == output)
  {
    var r := Passes(input, bitrateArg, logPrefix, output, nullSink, encoder);
    PassOrder(input, bitrateArg, logPrefix, output, nullSink, encoder);
    forall k | 0 <= k < |r.attempted|
      ensures |r.attempted[k]| >= 14
      ensures r.attempted[k][3] == input && r.attempted[k][7] == bitrateArg && r.attempted[k][12] == logPrefix
    {
      assert r.attempted[k] == Command(input, bitrateArg, k + 1, logPrefix, output, nullSink);
    }
  }

  /** Pass 2 is never started after pass 1 fails, however the encoder would answer it. */
  lemma NoSecondPassAfterFailure(input: string, bitrateArg: string, logPrefix: string, output: string,
                                 nullSink: string, encoder: seq<string> -> PassRun)
    requires !Succeeded(encoder(Command(input, bitrateArg, 1, logPrefix, output, nullSink)))
    ensures Passes(input, bitrateArg, logPrefix, output, nullSink, encoder).attempted
            == [Command(input, bitrateArg, 1, logPrefix, output, nullSink)]
    ensures Passes(input, bitrateArg, logPrefix, output, nullSink, encoder).outcome != BothPassed
  {
  }

  /** Every status line of every pass that ran is echoed, in order. */
  lemma PassesEchoEveryLine(input: string, bitrateArg: string, logPrefix: string, output: string,
                            nullSink: string, encoder: seq<string> -> PassRun)
    ensures var c1 := Command(input, bitrateArg, 1, logPrefix, output, nullSink);
            var c2 := Command(input, bitrateArg, 2, logPrefix, output, nullSink);
            var r := Passes(input, bitrateArg, logPrefix, output, nullSink, encoder);
            Echoes(r.console) ==
              (if encoder(c1).Exited? then encoder(c1).lines else []) +
              (if |r.attempted| == 2 && encoder(c2).Exited? then encoder(c2).lines else [])
  {
    var c1 := Command(input, bitrateArg, 1, logPrefix, output, nullSink);
    var c2 := Command(input, bitrateArg, 2, logPrefix, output, nullSink);
    var r := Passes(input, bitrateArg, logPrefix, output, nullSink, encoder);
    if encoder(c1).Exited? {
      var l1 := encoder(c1).lines;
      EveryLineEchoed(l1);
      if encoder(c1).code != 0 {
        EchoesAppend(StatusEvents(l1), [PassError(1, encoder(c1).code)]);
        assert Echoes([PassError(1, encoder(c1).code)]) == [];
      } else if encoder(c2).Exited? {
        var l2 := encoder(c2).lines;
        EveryLineEchoed(l2);
        EchoesAppend(StatusEvents(l1), StatusEvents(l2));
        if encoder(c2).code != 0 {
          EchoesAppend(StatusEvents(l1) + StatusEvents(l2), [PassError(2, encoder(c2).code)]);
          assert Echoes([PassError(2, encoder(c2).code)]) == [];
        }
      }
    }
  }

  /** Builds one pass's argument list: the common arguments, then `extend` with the null-sink
      output for pass 1 or `append` of the output path for pass 2. */
  method BuildCommand(input: string, bitrateArg: string, passNum: nat, logPrefix: string,
                      output: string, nullSink: string) returns (cmd: seq<string>)
    ensures cmd == Command(input, bitrateArg, passNum, logPrefix, output, nullSink)
  {
    cmd := CommonArgs(input, bitrateArg, passNum, logPrefix);
    if passNum == 1 {
      cmd := cmd + ["-f", "mp4", nullSink];
    } else {
      cmd := cmd + [output];
    }
  }

  /** The loop of `compress_video`: build each pass's command (the common arguments, then
      `extend` for pass 1 or `append` for pass 2), start it, drain its status stream, and
      return at the first non-zero exit. */
  method RunPasses(input: string, bitrateArg: string, logPrefix: string, output: string,
                   nullSink: string, encoder: seq<string> -> PassRun) returns (run: Run)
    ensures run == Passes(input, bitrateArg, logPrefix, output, nullSink, encoder)
  {
    var c1 := Command(input, bitrateArg, 1, logPrefix, output, nullSink);
    var c2 := Command(input, bitrateArg, 2, logPrefix, output, nullSink);
    ghost var whole := PassRuns(c1, c2, encoder);
    PassesFromStart(c1, c2, encoder);
    var attempted: seq<seq<string>> := [];
    var console: seq<Event> := [];
    for passNum := 1 to 3
      invariant PassesFrom(c1, c2, encoder, passNum, attempted, console) == whole
    {
      var cmd := BuildCommand(input, bitrateArg, passNum, logPrefix, output, nullSink);
      assert cmd == if passNum == 1 then c1 else c2;
      ghost var before, sofar := attempted, console;
      attempted := attempted + [cmd];
      var result := encoder(cmd);
      if result.SpawnFailed? {
        run := Run(SpawnFailure(passNum), attempted, console);
        return;
      }
      var events := DrainStatus(result.lines);
      console := console + events;
      if result.code != 0 {
        console := console + [PassError(passNum, result.code)];
        run := Run(ExitFailure(passNum, result.code), attempted, console);
        return;
      }
      assert PassesFrom(c1, c2, encoder, passNum, before, sofar) ==
             PassesFrom(c1, c2, encoder, passNum + 1, attempted, console);
    }
    run := Run(BothPassed, attempted, console);
  }

  /** How an item of a video script ends. */
  datatype Outcome =
    | SmallEnough              // already within budget: nothing is written
    | Linked(dest: string)     // already within budget: hard-linked to the destination
    | Encoded(dest: string)    // both passes exited with status 0
    | PassFailed(pass: nat, code: int)  // a pass exited non-zero: reported, item abandoned
    | Raised(error: Error)     // an exception escapes the item

  /** An item's outcome with the encoder commands it started and its console output. */
  datatype Report = Report(outcome: Outcome, attempted: seq<seq<string>>, console: seq<Event>)

  /** The oracles the video scripts consult: `os.path.getsize`, the probed duration (`None`
      when ffprobe fails or prints something `float()` rejects), the encoder, and the null sink
      (`/dev/null` on POSIX, `NUL` elsewhere). */
  datatype Env = Env(sizeOf: string -> int, probe: string -> Option<real>,
                     encoder: seq<string> -> PassRun, nullSink: string)

  /** What an item reports once its passes have run: a spawn failure escapes as an exception,
      a non-zero exit is caught and reported. */
  function Finish(run: Run, dest: string): (r: Report)
    ensures r.attempted == run.attempted && r.console == run.console
    ensures r.outcome == Encoded(dest) <==> run.outcome == BothPassed
    ensures r.outcome.Raised? <==> run.outcome.SpawnFailure?
    ensures r.outcome.PassFailed? <==> run.outcome.ExitFailure?
    ensures r.outcome == Encoded(dest) || r.outcome.PassFailed? || (r.outcome.Raised? && r.outcome.error.SpawnError?)
  {
    var outcome := match run.outcome
      case BothPassed => Encoded(dest)
      case ExitFailure(p, c) => PassFailed(p, c)
      case SpawnFailure(p) => Raised(SpawnError(p));
    Report(outcome, run.attempted, run.console)
  }
}
