/** Bitrate arithmetic of the video scripts: the skip test, the buffered floor formula of
    `calculate_bitrate`, and the unbuffered `:.0f` rounding of videoMarker_FixedMB.py. */
module Bitrate {
  import opened Common
  import opened Text

  /** The 5% safety margin added on top of the raw bitrate. */
  const BufferPercentage: real := 0.05

  /** `(target_size_bytes * 8) / duration`: the bits per second that spread the byte budget
      over the whole clip. */
  function RawBitrate(targetBytes: real, duration: real): (bps: real)
    requires duration != 0.0
    ensures bps * duration == targetBytes * 8.0
  {
    targetBytes * 8.0 / duration
  }

  /** `math.floor(target_bitrate * (1 + 0.05))`: the largest integer not above the buffered rate. */
  function BufferedBitrate(targetBytes: real, duration: real): (bps: int)
    requires duration != 0.0
    ensures bps as real <= RawBitrate(targetBytes, duration) * 1.05 < bps as real + 1.0
  {
    (RawBitrate(targetBytes, duration) * (1.0 + BufferPercentage)).Floor
  }

  /** What `calculate_bitrate` returns: `None` (already small enough) or a bitrate. */
  datatype Estimate = AlreadySmall | Rate(bps: int)

  /** `calculate_bitrate`, given the file size and what the probe would report (`None` when
      ffprobe fails or prints something `float()` rejects). The probe is consulted only when the
      file is larger than the budget. */
  function Calculate(originalSize: int, targetBytes: real, duration: Option<real>): (r: Result<Estimate, Error>)
    ensures r == Success(AlreadySmall) <==> originalSize as real <= targetBytes
    ensures r.Failure? <==> originalSize as real > targetBytes && (duration.None? || duration.value == 0.0)
    ensures r.Failure? ==> r.error == (if duration.None? then ProbeError else ZeroDuration)
    ensures r.Success? && r.value.Rate? ==>
      duration.Some? && duration.value != 0.0 && r.value.bps == BufferedBitrate(targetBytes, duration.value)
  {
    if originalSize as real <= targetBytes then Success(AlreadySmall)
    else match duration
      case None => Failure(ProbeError)
      case Some(d) => if d == 0.0 then Failure(ZeroDuration) else Success(Rate(BufferedBitrate(targetBytes, d)))
  }

  /** A file within budget never reaches the probe: whatever it would report, the answer is the same. */
  lemma ProbeNotConsulted(originalSize: int, targetBytes: real, d1: Option<real>, d2: Option<real>)
    requires originalSize as real <= targetBytes
    ensures Calculate(originalSize, targetBytes, d1) == Calculate(originalSize, targetBytes, d2) == Success(AlreadySmall)
  {
  }

  /** 1,000,000 bytes over 10 s: 800,000 bit/s raw, 840,000 bit/s with the buffer. */
  lemma TenSecondExample()
    ensures RawBitrate(1000000.0, 10.0) == 800000.0
    ensures BufferedBitrate(1000000.0, 10.0) == 840000
  {
  }

  /** A longer clip never gets a higher bitrate. */
  lemma BufferedBitrateNonIncreasing(targetBytes: real, d1: real, d2: real)
    requires targetBytes >= 0.0 && 0.0 < d1 <= d2
    ensures BufferedBitrate(targetBytes, d2) <= BufferedBitrate(targetBytes, d1)
  {
    var x := targetBytes * 8.0;
    assert x / d2 <= x / d1;
    var a := RawBitrate(targetBytes, d2) * 1.05;
    var b := RawBitrate(targetBytes, d1) * 1.05;
    assert a <= b;
  }

  /** Python's `round`-to-even rule, which `:.0f` formatting applies: the nearest integer, and the
      even one of the two on a tie. */
  function RoundHalfEven(x: real): (n: int)
    ensures n as real - 0.5 <= x <= n as real + 0.5
    ensures x - x.Floor as real == 0.5 ==> n % 2 == 0
  {
    var f := x.Floor;
    var frac := x - f as real;
    if frac < 0.5 then f
    else if frac > 0.5 then f + 1
    else if f % 2 == 0 then f
    else f + 1
  }

  /** The two conditions above pin the rounded value down: no other integer meets them. */
  lemma RoundHalfEvenUnique(x: real, n: int)
    requires n as real - 0.5 <= x <= n as real + 0.5
    requires x - x.Floor as real == 0.5 ==> n % 2 == 0
    ensures n == RoundHalfEven(x)
  {
  }

  /** Rounding half to even is symmetric about zero. */
  lemma RoundHalfEvenNegate(x: real)
    ensures RoundHalfEven(-x) == -RoundHalfEven(x)
  {
    var f := x.Floor;
    var frac := x - f as real;
    if frac == 0.0 {
      assert (-x).Floor == -f;
    } else {
      assert (-x).Floor == -f - 1;
      assert -x - (-f - 1) as real == 1.0 - frac;
    }
  }

  /** `f'{x:.0f}'`: the sign, then the digits of the magnitude rounded half to even
      (so a small negative value prints as "-0"). */
  function FormatFixed0(x: real): (s: string)
    ensures |s| >= 1
    ensures x >= 0.0 ==> AllDigits(s)
    ensures x < 0.0 ==> s[0] == '-' && AllDigits(s[1..])
    ensures x >= 0.0 ==> (s[0] == '0' <==> s == "0")
    ensures x < 0.0 ==> |s| >= 2 && (s[1] == '0' <==> s == "-0")
    ensures ParseInt(s) == RoundHalfEven(x)
  {
    if x < 0.0 then
      RoundHalfEvenNegate(x);
      var s := "-" + NatToString(RoundHalfEven(-x));
      assert s[1..] == NatToString(RoundHalfEven(-x));
      ParseNatToString(RoundHalfEven(-x));
      s
    else
      ParseNatToString(RoundHalfEven(x));
      NatToString(RoundHalfEven(x))
  }

  /** 5 MB over 10 s: 4,194,304 bit/s, already whole, printed as is. */
  lemma FixedExample()
    ensures RawBitrate(TargetBytes(5.0), 10.0) == 4194304.0
    ensures RoundHalfEven(RawBitrate(TargetBytes(5.0), 10.0)) == 4194304
  {
  }

  /** Ties go to the even neighbour: 2.5 rounds to 2 and 3.5 to 4, unlike a floor or a half-up rule. */
  lemma TiesToEven()
    ensures RoundHalfEven(2.5) == 2 && RoundHalfEven(3.5) == 4 && RoundHalfEven(2.75) == 3
  {
    assert (2.5).Floor == 2 && (3.5).Floor == 3 && (2.75).Floor == 2;
  }
}
