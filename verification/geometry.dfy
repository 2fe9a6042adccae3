/** The resize planners of the image scripts: the free fit into a bounding box, which keeps the
    aspect ratio and never enlarges, and the fixed 16:9 plan, which stretches one side to 16:9
    and cuts a centred 1920x1080 box. */
module Geometry {
  import opened Common

  const TargetWidth: int := 1920
  const TargetHeight: int := 1080

  /** A crop box as Pillow takes it: left, upper, right, lower. Offsets may be negative or run
      past the image; Pillow pads the outside. */
  datatype Box = Box(left: int, top: int, right: int, bottom: int)

  /** What happens to the opened image before it is saved. */
  datatype Render =
    | AsIs                                   // saved as opened
    | Resize(width: int, height: int)        // Lanczos resize to these dimensions
    | ResizeCrop(width: int, height: int, box: Box)  // resize, then crop the box

  /** The dimensions of the rendered picture. */
  function RenderSize(w: Pixels, h: Pixels, render: Render): (int, int)
  {
    match render
    case AsIs => (w, h)
    case Resize(nw, nh) => (nw, nh)
    case ResizeCrop(_, _, box) => (box.right - box.left, box.bottom - box.top)
  }

  /** `min(max_width / original_width, max_height / original_height, 1)`. */
  function FitRatio(w: Pixels, h: Pixels, maxW: Pixels, maxH: Pixels): (r: real)
    ensures 0.0 < r <= 1.0
    ensures r <= maxW as real / w as real && r <= maxH as real / h as real
    ensures r == 1.0 || r == maxW as real / w as real || r == maxH as real / h as real
  {
    var rw := maxW as real / w as real;
    var rh := maxH as real / h as real;
    var m := if rw <= rh then rw else rh;
    if m <= 1.0 then m else 1.0
  }

  /** The fitted dimensions `(int(w * ratio), int(h * ratio))`, computed on integers: when the
      image lies within the box the ratio is 1; otherwise the side with the smaller bound ratio
      (the width on a tie, as `min` returns its first argument) lands on its bound and the
      other is floored, by `FreeFitFromRatio`. */
  function FreeFit(w: Pixels, h: Pixels, maxW: Pixels, maxH: Pixels): (dims: (int, int))
    ensures var (nw, nh) := dims;
            && 0 <= nw <= w && 0 <= nh <= h
            && nw <= maxW && nh <= maxH
            && (dims == (w, h) <==> w <= maxW && h <= maxH)
            && (!(w <= maxW && h <= maxH) ==> nw == maxW || nh == maxH)
  {
    if w <= maxW && h <= maxH then (w, h)
    else if maxW * h <= maxH * w then
      WidthBindsBelow(w, h, maxW, maxH);
      DivAtMost(h * maxW, w, h - 1);
      DivAtMost(h * maxW, w, maxH);
      (maxW as int, (h * maxW) / w)
    else
      HeightBindsBelow(w, h, maxW, maxH);
      DivAtMost(w * maxH, h, w - 1);
      DivAtMost(w * maxH, h, maxW);
      ((w * maxH) / h, maxH as int)
  }

  /** When the image is too large and the width ratio is the smaller one, the width is over its
      bound (so the height scales down too). */
  lemma WidthBindsBelow(w: Pixels, h: Pixels, maxW: Pixels, maxH: Pixels)
    requires !(w <= maxW && h <= maxH) && maxW * h <= maxH * w
    ensures maxW < w && h * maxW <= (h - 1) * w + (w - 1) && h * maxW <= maxH * w
  {
    if w <= maxW {
      MulMono(w, maxW, maxH);
      MulMono(maxH + 1, h, maxW);
    }
    MulMono(maxW, w - 1, h);
  }

  /** When the image is too large and the height ratio is the smaller one, the height is over
      its bound (so the width scales down too). */
  lemma HeightBindsBelow(w: Pixels, h: Pixels, maxW: Pixels, maxH: Pixels)
    requires !(w <= maxW && h <= maxH) && !(maxW * h <= maxH * w)
    ensures maxH < h && w * maxH <= (w - 1) * h + (h - 1) && w * maxH <= maxW * h
  {
    if h <= maxH {
      MulMono(h, maxH, maxW);
      MulMono(maxW + 1, w, maxH);
    }
    MulMono(maxH, h - 1, w);
  }

  lemma MulMono(a: int, b: int, c: int)
    requires a <= b && c >= 0
    ensures a * c <= b * c
  {
    assert b * c - a * c == (b - a) * c;
  }

  /** Floor division by a positive divisor stays at or below any `c` with `a < (c + 1) * b`. */
  lemma DivAtMost(a: int, b: int, c: int)
    requires a >= 0 && b > 0 && a <= c * b + (b - 1)
    ensures 0 <= a / b <= c
  {
    var q := a / b;
    assert a == q * b + a % b;
    if q > c {
      MulMono(c + 1, q, b);
    }
  }

  /** The integer fit is exactly what the real ratio formula gives: both sides times
      `min(maxW / w, maxH / h, 1)`, truncated. */
  lemma FreeFitFromRatio(w: Pixels, h: Pixels, maxW: Pixels, maxH: Pixels)
    ensures FreeFit(w, h, maxW, maxH) == (Scaled(w, FitRatio(w, h, maxW, maxH)), Scaled(h, FitRatio(w, h, maxW, maxH)))
  {
    var r := FitRatio(w, h, maxW, maxH);
    if w <= maxW && h <= maxH {
      AtLeastOne(maxW, w);
      AtLeastOne(maxH, h);
      assert r == 1.0;
      assert Scaled(w, r) == w && Scaled(h, r) == h;
    } else if maxW * h <= maxH * w {
      RatioWhenWidthBinds(w, h, maxW, maxH);
      ScaleBack(w, h, maxW);
      assert FreeFit(w, h, maxW, maxH) == (maxW as int, (h * maxW) / w);
    } else {
      RatioWhenHeightBinds(w, h, maxW, maxH);
      ScaleBack(h, w, maxH);
      assert FreeFit(w, h, maxW, maxH) == ((w * maxH) / h, maxH as int);
    }
  }

  /** `int(n * ratio)`: the side scaled by the ratio and truncated (floored, as both are
      non-negative). */
  function Scaled(n: Pixels, ratio: real): int
  {
    (n as real * ratio).Floor
  }

  /** An image too large for the box whose width ratio is the smaller one is scaled by it. */
  lemma RatioWhenWidthBinds(w: Pixels, h: Pixels, maxW: Pixels, maxH: Pixels)
    requires !(w <= maxW && h <= maxH) && maxW * h <= maxH * w
    ensures FitRatio(w, h, maxW, maxH) == maxW as real / w as real
  {
    WidthBindsBelow(w, h, maxW, maxH);
    RatioOrder(maxW, w, maxH, h);
    BelowOne(maxW, w);
  }

  /** An image too large for the box whose height ratio is the smaller one is scaled by it. */
  lemma RatioWhenHeightBinds(w: Pixels, h: Pixels, maxW: Pixels, maxH: Pixels)
    requires !(w <= maxW && h <= maxH) && !(maxW * h <= maxH * w)
    ensures FitRatio(w, h, maxW, maxH) == maxH as real / h as real
  {
    HeightBindsBelow(w, h, maxW, maxH);
    RatioOrder(maxH, h, maxW, w);
    BelowOne(maxH, h);
  }

  /** A ratio of sides is at least 1 when the numerator is at least the denominator. */
  lemma AtLeastOne(m: Pixels, n: Pixels)
    requires n <= m
    ensures m as real / n as real >= 1.0
  {
    var x := m as real / n as real;
    assert x * n as real == m as real;
    assert (x - 1.0) * n as real == x * n as real - n as real;
    NonNegativeFactor(x - 1.0, n as real);
  }

  /** A ratio of sides is below 1 when the numerator is below the denominator. */
  lemma BelowOne(m: Pixels, n: Pixels)
    requires m < n
    ensures m as real / n as real < 1.0
  {
    var x := m as real / n as real;
    assert x * n as real == m as real;
    BelowOneFactor(x, n as real);
  }

  /** `a / b <= c / d` when `a * d <= c * b`, for positive denominators. */
  lemma RatioOrder(a: Pixels, b: Pixels, c: Pixels, d: Pixels)
    requires a * d <= c * b
    ensures a as real / b as real <= c as real / d as real
  {
    CastProduct(a, d);
    CastProduct(c, b);
    RealRatioOrder(a as real, b as real, c as real, d as real);
  }

  lemma RealRatioOrder(a: real, b: real, c: real, d: real)
    requires b > 0.0 && d > 0.0
    requires a * d <= c * b
    ensures a / b <= c / d
  {
    var x := a / b;
    var y := c / d;
    assert x * b == a;
    assert y * d == c;
    var e := y - x;
    assert e * (b * d) == (y * d) * b - (x * b) * d;
    assert e * (b * d) == c * b - a * d;
    NonNegativeFactor(e, b * d);
  }

  /** Casting to `real` commutes with multiplication. */
  lemma CastProduct(a: int, b: int)
    ensures (a * b) as real == a as real * b as real
  {
  }

  /** A product with a positive factor is non-negative only when the other factor is. */
  lemma NonNegativeFactor(e: real, s: real)
    requires s > 0.0 && e * s >= 0.0
    ensures e >= 0.0
  {
  }

  /** A product with a positive factor stays below that factor only when the other is below 1. */
  lemma BelowOneFactor(e: real, s: real)
    requires s > 0.0 && e * s < s
    ensures e < 1.0
  {
  }

  /** Dividing `q * s + r` by `s`, with `0 <= r < s`, lands in `[q, q + 1)`. */
  lemma QuotientBounds(p: real, s: real, q: real, r: real)
    requires s > 0.0
    requires 0.0 <= r < s
    requires p == q * s + r
    ensures q <= p / s < q + 1.0
  {
    var z := p / s;
    assert z * s == p;
    var e := z - q;
    assert e * s == z * s - q * s;
    assert e * s == r;
    NonNegativeFactor(e, s);
    BelowOneFactor(e, s);
  }

  /** On non-negative integers the real quotient floors to the integer quotient. */
  lemma RealQuotientFloor(p: int, s: Pixels)
    requires p >= 0
    ensures (p as real / s as real).Floor == p / s
  {
    var q := p / s;
    var r := p % s;
    assert p == q * s + r;
    CastProduct(q, s);
    QuotientBounds(p as real, s as real, q as real, r as real);
  }

  /** Scaling the binding side `s` by `m / s` gives `m`; scaling the other side `t` gives
      `t * m / s`, whose floor is the integer quotient. */
  lemma ScaleBack(s: Pixels, t: Pixels, m: Pixels)
    ensures Scaled(s, m as real / s as real) == m
    ensures Scaled(t, m as real / s as real) == (t * m) / s
  {
    var x := m as real / s as real;
    var y := (t * m) as real / s as real;
    assert x * s as real == m as real;
    assert y * s as real == (t * m) as real;
    CastProduct(t, m);
    var e := t as real * x - y;
    assert e * s as real == t as real * (x * s as real) - y * s as real;
    assert e * s as real == 0.0;
    NonNegativeFactor(e, s as real);
    NonNegativeFactor(-e, s as real);
    RealQuotientFloor(t * m, s);
  }

  /** Both sides are scaled by the same ratio, so the aspect ratio is kept up to the flooring:
      the cross products differ by less than one side. */
  lemma FreeFitKeepsAspect(w: Pixels, h: Pixels, maxW: Pixels, maxH: Pixels)
    ensures var (nw, nh) := FreeFit(w, h, maxW, maxH);
            -(h as int) < nw * h - nh * w < w
  {
    if !(w <= maxW && h <= maxH) {
      if maxW * h <= maxH * w {
        var q := (h * maxW) / w;
        assert h * maxW == q * w + (h * maxW) % w;
      } else {
        var q := (w * maxH) / h;
        assert w * maxH == q * h + (w * maxH) % h;
      }
    }
  }

  /** `resize_image` of image_resizer_free.py and imageMarker_Free16-9.py: resize only when the
      fitted dimensions differ from the original ones. */
  function FreeFitRender(w: Pixels, h: Pixels, maxW: Pixels, maxH: Pixels): (render: Render)
    ensures render.AsIs? <==> w <= maxW && h <= maxH
    ensures render.Resize? ==> render.width <= w && render.height <= h &&
                               render.width <= maxW && render.height <= maxH
    ensures RenderSize(w, h, render) == FreeFit(w, h, maxW, maxH)
  {
    var (nw, nh) := FreeFit(w, h, maxW, maxH);
    if (nw, nh) != (w, h) then Resize(nw, nh) else AsIs
  }

  /** A 4000x3000 photo is fitted into 1920x1080 as 1440x1080; a 1280x720 one is left alone. */
  lemma FreeFitExamples()
    ensures FreeFitRender(4000, 3000, 1920, 1080) == Resize(1440, 1080)
    ensures FreeFitRender(1280, 720, 1920, 1080) == AsIs
  {
  }

  /** `original_width / original_height != 16 / 9`, on exact ratios: compared by cross products. */
  predicate Is16x9(w: Pixels, h: Pixels)
    ensures Is16x9(w, h) <==> w as real / h as real == 16.0 / 9.0
  {
    9 * w == 16 * h
  }

  /** The stretch of a non-16:9 image: a wider image keeps its width and gets
      `int(w * 9 / 16)` rows, a taller one keeps its height and gets `int(h * 16 / 9)` columns. */
  function Stretch(w: Pixels, h: Pixels): (dims: (int, int))
    requires !Is16x9(w, h)
    ensures var (nw, nh) := dims;
            && (9 * w > 16 * h ==> nw == w && 16 * nh <= 9 * w < 16 * nh + 16)
            && (9 * w < 16 * h ==> nh == h && 9 * nw <= 16 * h < 9 * nw + 9)
            && nw >= w && nh >= h
  {
    if 9 * w > 16 * h then (w, (w * 9) / 16) else ((h * 16) / 9, h)
  }

  /** The centred box: `left = (new_width - 1920) // 2`, `top = (new_height - 1080) // 2`
      (Python's `//` floors; for the divisor 2 this is Dafny's `/`). */
  function CenteredBox(nw: int, nh: int): (box: Box)
    ensures box.right - box.left == TargetWidth && box.bottom - box.top == TargetHeight
    ensures 0 <= (nw - box.right) - box.left <= 1
    ensures 0 <= (nh - box.bottom) - box.top <= 1
    ensures nw < TargetWidth ==> box.left < 0
    ensures nh < TargetHeight ==> box.top < 0
  {
    var left := (nw - TargetWidth) / 2;
    var top := (nh - TargetHeight) / 2;
    Box(left, top, left + TargetWidth, top + TargetHeight)
  }

  /** `resize_image` of imageMarker_Fixed16-9.py: a 16:9 image is resized straight to
      1920x1080; any other is stretched to 16:9 and the centred 1920x1080 box is cut from it. */
  function Fixed16x9(w: Pixels, h: Pixels): (render: Render)
    ensures render.Resize? <==> Is16x9(w, h)
    ensures render.Resize? ==> render == Resize(TargetWidth, TargetHeight)
    ensures render.ResizeCrop? ==>
              (render.width, render.height) == Stretch(w, h) &&
              render.box == CenteredBox(render.width, render.height)
  {
    if Is16x9(w, h) then Resize(TargetWidth, TargetHeight)
    else
      var (nw, nh) := Stretch(w, h);
      ResizeCrop(nw, nh, CenteredBox(nw, nh))
  }

  /** Whatever the input, the fixed plan produces a 1920x1080 picture, and no side of the
      stretched image is shorter than the original. */
  lemma Fixed16x9Output(w: Pixels, h: Pixels)
    ensures RenderSize(w, h, Fixed16x9(w, h)) == (TargetWidth, TargetHeight)
    ensures Fixed16x9(w, h).ResizeCrop? ==>
              Fixed16x9(w, h).width >= w && Fixed16x9(w, h).height >= h
  {
  }

  /** A 1000x1000 square becomes 1777x1000 and the box starts at (-72, -40): the offsets are
      floored, so they can be negative. A 3840x2160 image is resized directly. */
  lemma Fixed16x9Examples()
    ensures Fixed16x9(1000, 1000) == ResizeCrop(1777, 1000, Box(-72, -40, 1848, 1040))
    ensures Fixed16x9(3840, 2160) == Resize(1920, 1080)
    ensures Fixed16x9(4000, 1000) == ResizeCrop(4000, 2250, Box(1040, 585, 2960, 1665))
  {
  }
}
