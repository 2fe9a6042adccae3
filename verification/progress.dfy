/** Progress reporting of an encoder pass: the `time=HH:MM:SS.CC` search applied to each status
    line, and the console events produced while the status stream is drained. */
module Progress {
  import opened Common
  import opened Text

  /** Length of the captured stamp `HH:MM:SS.CC`. */
  const StampLength: nat := 11
  /** Length of a whole match, `time=` included. */
  const MatchLength: nat := 16

  /** `\d{2}:\d{2}:\d{2}\.\d{2}` matches `line[i..i + 11]` (ASCII digits only). */
  predicate StampAt(line: string, i: nat)
  {
    i + StampLength <= |line| &&
    IsDigit(line[i]) && IsDigit(line[i + 1]) && line[i + 2] == ':' &&
    IsDigit(line[i + 3]) && IsDigit(line[i + 4]) && line[i + 5] == ':' &&
    IsDigit(line[i + 6]) && IsDigit(line[i + 7]) && line[i + 8] == '.' &&
    IsDigit(line[i + 9]) && IsDigit(line[i + 10])
  }

  /** The literal `time=` starts at index `i`. */
  predicate KeyAt(line: string, i: nat)
  {
    i + 5 <= |line| &&
    line[i] == 't' && line[i + 1] == 'i' && line[i + 2] == 'm' && line[i + 3] == 'e' && line[i + 4] == '='
  }

  /** The whole pattern `time=(\d{2}:\d{2}:\d{2}\.\d{2})` matches starting at index `i`. */
  predicate MatchAt(line: string, i: nat)
  {
    i + MatchLength <= |line| && KeyAt(line, i) && StampAt(line, i + 5)
  }

  /** `\d{2}` at index `a`: both characters are digits. */
  lemma TwoDigits(s: string, a: nat)
    requires a + 2 <= |s|
    ensures AllDigits(s[a..a + 2]) <==> IsDigit(s[a]) && IsDigit(s[a + 1])
  {
    assert s[a..a + 2][0] == s[a] && s[a..a + 2][1] == s[a + 1];
  }

  /** The pattern read piece by piece: the literal `time=`, then `\d{2}:\d{2}:\d{2}\.\d{2}`. */
  lemma MatchAtPattern(line: string, i: nat)
    ensures MatchAt(line, i) <==>
              && i + MatchLength <= |line| && line[i..i + 5] == "time="
              && AllDigits(line[i + 5..i + 7]) && line[i + 7] == ':'
              && AllDigits(line[i + 8..i + 10]) && line[i + 10] == ':'
              && AllDigits(line[i + 11..i + 13]) && line[i + 13] == '.'
              && AllDigits(line[i + 14..i + 16])
  {
    if i + MatchLength <= |line| {
      TwoDigits(line, i + 5);
      TwoDigits(line, i + 8);
      TwoDigits(line, i + 11);
      TwoDigits(line, i + 14);
      var key := line[i..i + 5];
      assert key[0] == line[i] && key[1] == line[i + 1] && key[2] == line[i + 2];
      assert key[3] == line[i + 3] && key[4] == line[i + 4];
      assert KeyAt(line, i) <==> key == "time=";
    }
  }

  /** The leftmost start at or after `from` where the pattern matches. */
  function FindMatch(line: string, from: nat): (r: Option<nat>)
    ensures r.Some? ==> from <= r.value && MatchAt(line, r.value)
    ensures r.Some? ==> forall j: nat :: from <= j < r.value ==> !MatchAt(line, j)
    ensures r.None? ==> forall j: nat :: from <= j ==> !MatchAt(line, j)
    decreases |line| - from
  {
    if from + MatchLength > |line| then None
    else if MatchAt(line, from) then Some(from)
    else FindMatch(line, from + 1)
  }

  /** The leftmost match is the one `FindMatch` reports. */
  lemma {:induction false} FindMatchLeftmost(line: string, from: nat, i: nat)
    requires from <= i && MatchAt(line, i)
    requires forall j: nat :: from <= j < i ==> !MatchAt(line, j)
    ensures FindMatch(line, from) == Some(i)
    decreases i - from
  {
    if from < i {
      FindMatchLeftmost(line, from + 1, i);
    }
  }

  /** `re.search(r'time=(\d{2}:\d{2}:\d{2}\.\d{2})', line)` and its group 1: the stamp of the
      leftmost match; characters after the match are ignored. */
  function MatchTime(line: string): (m: Option<string>)
    ensures m.None? <==> forall j: nat :: !MatchAt(line, j)
    ensures m.Some? ==> |m.value| == StampLength && exists i: nat ::
      MatchAt(line, i) && m.value == line[i + 5..i + MatchLength] &&
      forall j: nat :: j < i ==> !MatchAt(line, j)
  {
    match FindMatch(line, 0)
    case None => None
    case Some(i) => Some(line[i + 5..i + MatchLength])
  }

  /** The stamp is taken from the `time=` on the line; what surrounds it is ignored. */
  lemma MatchExample()
    ensures MatchTime("x time=00:00:01.92 y") == Some("00:00:01.92")
  {
    var a := "x time=00:00:01.92 y";
    assert MatchAt(a, 2);
    assert FindMatch(a, 2) == Some(2);
    assert a[1] != 't' && FindMatch(a, 1) == Some(2);
    assert a[0] != 't' && FindMatch(a, 0) == Some(2);
    assert a[7..18] == "00:00:01.92";
  }

  /** A `time=` followed by a single digit is no match; the next `time=`, at index 7, is the
      first start that matches. */
  lemma MalformedStampFirstMatch()
    ensures MatchAt("time=1 time=00:01:00.00", 7)
    ensures forall j: nat :: j < 7 ==> !MatchAt("time=1 time=00:01:00.00", j)
  {
    var b := "time=1 time=00:01:00.00";
    assert MatchAt(b, 7);
    forall j: nat | j < 7
      ensures !MatchAt(b, j)
    {
      if j == 0 {
        assert !IsDigit(b[6]);
      } else {
        assert b[j] != 't';
      }
    }
  }

  /** A malformed `time=` earlier on the line does not hide a later well-formed one. */
  lemma MalformedStampSkipped()
    ensures MatchTime("time=1 time=00:01:00.00") == Some("00:01:00.00")
  {
    var b := "time=1 time=00:01:00.00";
    MalformedStampFirstMatch();
    FindMatchLeftmost(b, 0, 7);
    assert b[12..23] == "00:01:00.00";
  }

  /** What the console shows while a pass runs (the stream is a finite sequence of lines). */
  datatype Event =
    | Echo(line: string)               // `print(line, end='')`: every status line, as is
    | Stamp(stamp: string)             // `Processing ...: <stamp>`: a progress marker
    | PassError(pass: int, code: int)  // `Error during pass N`: a non-zero exit

  /** The events one status line produces: its echo, then a progress marker if it matches. */
  function LineEvents(line: string): (ev: seq<Event>)
    ensures 1 <= |ev| <= 2 && ev[0] == Echo(line)
    ensures |ev| == 2 <==> MatchTime(line).Some?
    ensures |ev| == 2 ==> ev[1] == Stamp(MatchTime(line).value)
  {
    [Echo(line)] + match MatchTime(line) case Some(t) => [Stamp(t)] case None => []
  }

  /** The events of a whole status stream, line after line. */
  function StatusEvents(lines: seq<string>): (ev: seq<Event>)
    ensures |lines| <= |ev| <= 2 * |lines|
    ensures forall k :: 0 <= k < |ev| ==> ev[k].Echo? || ev[k].Stamp?
    decreases |lines|
  {
    if lines == [] then [] else StatusEvents(lines[..|lines| - 1]) + LineEvents(lines[|lines| - 1])
  }

  /** The echoed lines among the events, in order. */
  function Echoes(ev: seq<Event>): (lines: seq<string>)
    ensures |lines| <= |ev|
    decreases |ev|
  {
    if ev == [] then []
    else Echoes(ev[..|ev| - 1]) + if ev[|ev| - 1].Echo? then [ev[|ev| - 1].line] else []
  }

  lemma {:induction false} EchoesAppend(a: seq<Event>, b: seq<Event>)
    ensures Echoes(a + b) == Echoes(a) + Echoes(b)
    decreases |b|
  {
    if b == [] {
      assert a + b == a;
    } else {
      assert (a + b)[..|a + b| - 1] == a + b[..|b| - 1];
      EchoesAppend(a, b[..|b| - 1]);
    }
  }

  /** One status line is echoed exactly once, whether or not it carries a time stamp. */
  lemma LineEchoedOnce(line: string)
    ensures Echoes(LineEvents(line)) == [line]
  {
    var le := LineEvents(line);
    if |le| == 2 {
      assert le[..1] == [Echo(line)];
      assert le[..1][..0] == [];
    } else {
      assert le[..0] == [];
    }
  }

  /** The last status line adds its own echo after those of the lines before it. */
  lemma EchoesOfLastLine(lines: seq<string>)
    requires lines != []
    ensures Echoes(StatusEvents(lines)) == Echoes(StatusEvents(lines[..|lines| - 1])) + [lines[|lines| - 1]]
  {
    var init := lines[..|lines| - 1];
    var last := lines[|lines| - 1];
    assert StatusEvents(lines) == StatusEvents(init) + LineEvents(last);
    EchoesAppend(StatusEvents(init), LineEvents(last));
    LineEchoedOnce(last);
  }

  /** Every status line is echoed, in order, whether or not it carries a time stamp. */
  lemma {:induction false} EveryLineEchoed(lines: seq<string>)
    ensures Echoes(StatusEvents(lines)) == lines
    decreases |lines|
  {
    if lines != [] {
      var init := lines[..|lines| - 1];
      assert lines == init + [lines[|lines| - 1]];
      EchoesOfLastLine(lines);
      EveryLineEchoed(init);
    }
  }

  /** Drains the status stream: `for line in proc.stdout`, echoing each line and reporting its
      time stamp when the pattern matches. */
  method DrainStatus(lines: seq<string>) returns (events: seq<Event>)
    ensures events == StatusEvents(lines)
  {
    events := [];
    for i := 0 to |lines|
      invariant events == StatusEvents(lines[..i])
    {
      events := events + [Echo(lines[i])];
      var m := MatchTime(lines[i]);
      if m.Some? {
        events := events + [Stamp(m.value)];
      }
      assert lines[..i + 1][..i] == lines[..i];
    }
    assert lines[..|lines|] == lines;
  }
}
