/**
 * Output-size resolution of the converter (`get_target_size`).
 *
 * Scales are exact rationals (`real`), not binary floating point, and
 * `int(round(x))` is Python's round-half-to-even on that exact value.
 */
module Sizing {

  /** A pixel size as the imaging library reports it: (width, height). */
  datatype Size = Size(w: int, h: int)

  function MinReal(a: real, b: real): real { if a <= b then a else b }

  function MinInt(a: int, b: int): int { if a <= b then a else b }

  function MaxInt(a: int, b: int): int { if a >= b then a else b }

  /**
   * Python's `round` on an exact value: the nearest integer, and on a tie
   * (a fractional part of exactly one half) the even one of the two.
   */
  function RoundHalfEven(x: real): (n: int)
    ensures x - 0.5 <= n as real <= x + 0.5
    ensures (n as real - x == 0.5 || x - n as real == 0.5) ==> n % 2 == 0
  {
    var f := x.Floor;
    var frac := x - f as real;
    if frac < 0.5 then f
    else if frac > 0.5 then f + 1
    else if f % 2 == 0 then f else f + 1
  }

  /** The two properties in RoundHalfEven's contract pin the result down. */
  lemma RoundHalfEvenUnique(x: real, n: int)
    requires x - 0.5 <= n as real <= x + 0.5
    requires (n as real - x == 0.5 || x - n as real == 0.5) ==> n % 2 == 0
    ensures n == RoundHalfEven(x)
  {
    var m := RoundHalfEven(x);
    assert -1.0 <= n as real - m as real <= 1.0;
    assert n != m ==> n as real - x == 0.5 || x - n as real == 0.5;
  }

  /** Rounding an integer gives it back. */
  lemma RoundOfInteger(k: int)
    ensures RoundHalfEven(k as real) == k
  {
    RoundHalfEvenUnique(k as real, k);
  }

  /** Rounding never reverses the order of two values. */
  lemma RoundMonotone(x: real, y: real)
    requires x <= y
    ensures RoundHalfEven(x) <= RoundHalfEven(y)
  {
    var a, b := RoundHalfEven(x), RoundHalfEven(y);
    assert a as real - b as real <= 1.0 + (x - y);
    assert x != y ==> a <= b;
  }

  /** A value at most the integer k rounds to at most k. */
  lemma RoundAtMost(x: real, k: int)
    requires x <= k as real
    ensures RoundHalfEven(x) <= k
  {
    RoundMonotone(x, k as real);
    RoundOfInteger(k);
  }

  /**
   * Integer-only reference for rounding the quotient n / d (d > 0) half to
   * even: q is the floor of the quotient and rem the remainder, so the
   * fractional part is rem / d and compares with one half as 2 * rem with d.
   */
  function RoundDiv(n: int, d: int): int
    requires d > 0
  {
    var q, rem := n / d, n % d;
    if 2 * rem < d then q
    else if 2 * rem > d then q + 1
    else if q % 2 == 0 then q else q + 1
  }

  /** The fractional part of n / d is rem / d, and it compares with one half as 2 * rem with d. */
  lemma QuotientFraction(n: int, d: int)
    requires d > 0
    ensures var diff := n as real / d as real - (n / d) as real;
            && 0.0 <= diff < 1.0
            && (diff < 0.5 <==> 2 * (n % d) < d)
            && (diff > 0.5 <==> 2 * (n % d) > d)
  {
    var q, rem := n / d, n % d;
    var dr := d as real;
    var x := n as real / dr;
    var diff := x - q as real;
    assert x * dr == n as real by { MulCancel(n as real, dr); }
    assert (q * d) as real == q as real * dr by { CastMul(q, d); }
    assert n as real == (q * d) as real + rem as real;
    assert diff * dr == x * dr - q as real * dr;
    assert diff * dr == rem as real;
    FractionBounds(diff, rem, d);
  }

  /** A fraction f with f * d == rem, for 0 <= rem < d, lies in [0, 1) and compares with one half as 2 * rem with d. */
  lemma FractionBounds(f: real, rem: int, d: int)
    requires 0 <= rem < d
    requires f * d as real == rem as real
    ensures 0.0 <= f < 1.0
    ensures f < 0.5 <==> 2 * rem < d
    ensures f > 0.5 <==> 2 * rem > d
  {
    var dr := d as real;
    var rr := rem as real;
    FractionRange(f, rr, dr);
    HalfCompare(f, dr, rr);
    assert (2 * rem) as real == 2.0 * rr;
  }

  /** A factor f with f * c == y compares with one half as 2 * y compares with c. */
  lemma HalfCompare(f: real, c: real, y: real)
    requires c > 0.0
    requires f * c == y
    ensures f < 0.5 <==> 2.0 * y < c
    ensures f > 0.5 <==> 2.0 * y > c
  {
    ScaleLt(f, 0.5, c);
    ScaleLt(0.5, f, c);
  }

  /** A fraction f with f * d == r, for 0 <= r < d, lies in [0, 1). */
  lemma FractionRange(f: real, r: real, d: real)
    requires 0.0 <= r < d
    requires f * d == r
    ensures 0.0 <= f < 1.0
  {
    ScaleLe(0.0, f, d);
    assert 0.0 * d == 0.0;
    ScaleLt(f, 1.0, d);
    assert 1.0 * d == d;
  }

  /** Rounding the exact quotient agrees with the integer-only reference. */
  lemma RoundDivIsRoundHalfEven(n: int, d: int)
    requires d > 0
    ensures RoundHalfEven(n as real / d as real) == RoundDiv(n, d)
  {
    var q := n / d;
    var x := n as real / d as real;
    var diff := x - q as real;
    QuotientFraction(n, d);
    var r := RoundDiv(n, d);
    if diff < 0.5 {
      assert r == q;
    } else if diff > 0.5 {
      assert r == q + 1;
    } else {
      assert diff == 0.5;
      assert r % 2 == 0;
    }
    RoundHalfEvenUnique(x, r);
  }

  /**
   * The uniform factor of the aspect-locked branch: the tighter of the two
   * per-axis ratios, capped at 1 when enlarging is forbidden.
   */
  function Scale(original: Size, target: Size, noUpscale: bool): (s: real)
    requires original.w != 0 && original.h != 0
    ensures s <= target.w as real / original.w as real
    ensures s <= target.h as real / original.h as real
    ensures noUpscale ==> s <= 1.0
    ensures s == target.w as real / original.w as real || s == target.h as real / original.h as real
            || (noUpscale && s == 1.0)
  {
    var s := MinReal(target.w as real / original.w as real, target.h as real / original.h as real);
    if noUpscale then MinReal(s, 1.0) else s
  }

  /** One side of the aspect-locked result: the side times s, rounded, and never below 1. */
  function ScaledSide(side: int, s: real): (n: int)
    ensures n >= 1
  {
    MaxInt(1, RoundHalfEven(side as real * s))
  }

  /**
   * `get_target_size`: the size an image of size `original` is resized to,
   * for the requested box `target` and the two policy flags.
   */
  function TargetSize(original: Size, target: Size, keepAspectRatio: bool, noUpscale: bool): (r: Size)
    ensures keepAspectRatio && (original.w == 0 || original.h == 0) ==> r == original
    ensures keepAspectRatio && original.w != 0 && original.h != 0 ==> r.w >= 1 && r.h >= 1
  {
    if keepAspectRatio then
      if original.w == 0 || original.h == 0 then original
      else
        var s := Scale(original, target, noUpscale);
        Size(ScaledSide(original.w, s), ScaledSide(original.h, s))
    else if noUpscale then
      Size(MinInt(original.w, target.w), MinInt(original.h, target.h))
    else
      target
  }

  /** Small facts about exact arithmetic used by the rounding and scaling proofs. */
  lemma CastMul(a: int, b: int)
    ensures (a * b) as real == a as real * b as real
  {
  }

  lemma MulCancel(a: real, b: real)
    requires b != 0.0
    ensures (a / b) * b == a
  {
  }

  lemma ScaleLe(a: real, b: real, c: real)
    requires c > 0.0
    ensures a <= b <==> a * c <= b * c
  {
  }

  lemma ScaleLt(a: real, b: real, c: real)
    requires c > 0.0
    ensures a < b <==> a * c < b * c
  {
  }

  /** For positive b and d, a / b <= c / d exactly when a * d <= c * b. */
  lemma RatioLe(a: int, b: int, c: int, d: int)
    requires b > 0 && d > 0
    ensures a as real / b as real <= c as real / d as real <==> a * d <= c * b
  {
    var x, y := a as real / b as real, c as real / d as real;
    assert x * b as real == a as real;
    assert y * d as real == c as real;
    assert (a * d) as real == x * (b as real * d as real);
    assert (c * b) as real == y * (b as real * d as real);
  }

  /** What the ratio a / b of two integers (b > 0) is worth against 0 and 1. */
  lemma RatioFacts(a: int, b: int)
    requires b > 0
    ensures b as real * (a as real / b as real) == a as real
    ensures a as real / b as real >= 1.0 <==> a >= b
    ensures a > 0 ==> a as real / b as real > 0.0
  {
    var x, br := a as real / b as real, b as real;
    MulCancel(a as real, br);
    ScaleLe(1.0, x, br);
    assert 1.0 * br == br;
    ScaleLt(0.0, x, br);
    assert 0.0 * br == 0.0;
  }

  /** Multiplying an integer by a ratio of integers is one exact quotient. */
  lemma MulRatio(a: int, b: int, c: int)
    requires c > 0
    ensures a as real * (b as real / c as real) == (a * b) as real / c as real
  {
    var cr := c as real;
    CastMul(a, b);
    MulCancel(b as real, cr);
    MulCancel((a * b) as real, cr);
    assert (a as real * (b as real / cr)) * cr == a as real * b as real;
    assert ((a * b) as real / cr) * cr == a as real * b as real;
    ScaleLe(a as real * (b as real / cr), (a * b) as real / cr, cr);
    ScaleLe((a * b) as real / cr, a as real * (b as real / cr), cr);
  }

  /** A positive side scaled to at most k >= 1 gives at most k. */
  lemma ScaledSideAtMost(side: int, s: real, k: int)
    requires k >= 1 && side as real * s <= k as real
    ensures ScaledSide(side, s) <= k
  {
    RoundAtMost(side as real * s, k);
  }

  /** A side scaled exactly to the integer k >= 1 gives k. */
  lemma ScaledSideExact(side: int, s: real, k: int)
    requires k >= 1 && side as real * s == k as real
    ensures ScaledSide(side, s) == k
  {
    RoundOfInteger(k);
  }

  /** n is the rounding of an exact side x > 0 under the one-pixel floor: within half a pixel of x, or 1 when x is below one half. */
  predicate Approximates(n: int, x: real)
  {
    && (x >= 0.5 ==> -0.5 <= n as real - x <= 0.5)
    && (x < 0.5 ==> n == 1)
  }

  /** A side scaled to x > 0 comes out as an approximation of x. */
  lemma ScaledSideNear(side: int, s: real, n: int)
    requires side > 0 && s > 0.0
    requires n == ScaledSide(side, s)
    ensures Approximates(n, side as real * s)
  {
    var x := side as real * s;
    ScaleLt(0.0, side as real, s);
    assert 0.0 * s == 0.0;
    var m := RoundHalfEven(x);
    if x >= 0.5 {
      assert m >= 0;
      if m == 0 { assert x == 0.5; }
    }
  }

  /**
   * Aspect-locked resolution in integers: the image is kept as it is when
   * enlarging is forbidden and it already fits; otherwise the width binds
   * when tw * oh <= th * ow (width tw, height oh * tw / ow rounded), and the
   * height binds in the other case.
   */
  function AspectSize(original: Size, target: Size, noUpscale: bool): Size
    requires original.w > 0 && original.h > 0
  {
    if noUpscale && original.w <= target.w && original.h <= target.h then original
    else if target.w * original.h <= target.h * original.w then
      Size(MaxInt(1, target.w), MaxInt(1, RoundDiv(original.h * target.w, original.w)))
    else
      Size(MaxInt(1, RoundDiv(original.w * target.h, original.h)), MaxInt(1, target.h))
  }

  /** The factor of the aspect-locked branch, case by case, in integer comparisons. */
  lemma ScaleCases(original: Size, target: Size, noUpscale: bool)
    requires original.w > 0 && original.h > 0
    ensures var s := Scale(original, target, noUpscale);
            var sw := target.w as real / original.w as real;
            var sh := target.h as real / original.h as real;
            if noUpscale && original.w <= target.w && original.h <= target.h then s == 1.0
            else if target.w * original.h <= target.h * original.w then s == sw
            else s == sh
  {
    RatioLe(target.w, original.w, target.h, original.h);
    RatioFacts(target.w, original.w);
    RatioFacts(target.h, original.h);
  }

  /** A side scaled by the ratio n / d is the one exact quotient side * n / d, rounded. */
  lemma ScaledSideByRatio(side: int, n: int, d: int)
    requires d > 0
    ensures ScaledSide(side, n as real / d as real) == MaxInt(1, RoundHalfEven((side * n) as real / d as real))
  {
    MulRatio(side, n, d);
    ScaledSideEq(side, n as real / d as real, (side * n) as real / d as real);
  }

  /** ScaledSide depends on the side and the factor only through their product. */
  lemma ScaledSideEq(side: int, s: real, x: real)
    requires side as real * s == x
    ensures ScaledSide(side, s) == MaxInt(1, RoundHalfEven(x))
  {
  }

  /** The binding side of the aspect-locked branch comes out exactly at the box size. */
  lemma ScaledSideBinding(side: int, t: int)
    requires side > 0
    ensures ScaledSide(side, t as real / side as real) == MaxInt(1, t)
  {
    RatioFacts(t, side);
    RoundOfInteger(t);
  }

  /** The exact-rational resolution equals its integer restatement. */
  lemma AspectSizeInIntegers(original: Size, target: Size, noUpscale: bool)
    requires original.w > 0 && original.h > 0
    ensures TargetSize(original, target, true, noUpscale) == AspectSize(original, target, noUpscale)
  {
    var s := Scale(original, target, noUpscale);
    ScaleCases(original, target, noUpscale);
    if noUpscale && original.w <= target.w && original.h <= target.h {
      ScaledSideExact(original.w, s, original.w);
      ScaledSideExact(original.h, s, original.h);
    } else if target.w * original.h <= target.h * original.w {
      ScaledSideBinding(original.w, target.w);
      ScaledSideByRatio(original.h, target.w, original.w);
      RoundDivIsRoundHalfEven(original.h * target.w, original.w);
    } else {
      ScaledSideBinding(original.h, target.h);
      ScaledSideByRatio(original.w, target.h, original.h);
      RoundDivIsRoundHalfEven(original.w * target.h, original.h);
    }
  }

  /** Scaling a positive side by at most t / side gives at most t. */
  lemma ScaledNoMoreThan(side: int, s: real, t: int)
    requires side > 0 && s <= t as real / side as real
    ensures side as real * s <= t as real
  {
    RatioFacts(t, side);
    ScaleLe(s, t as real / side as real, side as real);
  }

  /** Scaling a positive side by at most 1 does not enlarge it. */
  lemma ScaledAtMostSelf(side: int, s: real)
    requires side > 0 && s <= 1.0
    ensures side as real * s <= side as real
  {
    ScaleLe(s, 1.0, side as real);
    assert 1.0 * side as real == side as real;
  }

  /** For a real image and a positive box the factor is positive. */
  lemma ScalePositive(original: Size, target: Size, noUpscale: bool)
    requires original.w > 0 && original.h > 0
    requires target.w > 0 && target.h > 0
    ensures Scale(original, target, noUpscale) > 0.0
  {
    RatioFacts(target.w, original.w);
    RatioFacts(target.h, original.h);
  }

  /**
   * Aspect-locked, for a real image and a positive box: the result fits
   * inside the box and has no zero side.
   */
  lemma AspectFitsTargetBox(original: Size, target: Size, noUpscale: bool)
    requires original.w > 0 && original.h > 0
    requires target.w > 0 && target.h > 0
    ensures 1 <= TargetSize(original, target, true, noUpscale).w <= target.w
    ensures 1 <= TargetSize(original, target, true, noUpscale).h <= target.h
  {
    var s := Scale(original, target, noUpscale);
    ScaledNoMoreThan(original.w, s, target.w);
    ScaledNoMoreThan(original.h, s, target.h);
    ScaledSideAtMost(original.w, s, target.w);
    ScaledSideAtMost(original.h, s, target.h);
  }

  /** Aspect-locked without enlarging: neither side grows, whatever the box. */
  lemma AspectNoUpscaleNeverEnlarges(original: Size, target: Size)
    requires original.w > 0 && original.h > 0
    ensures TargetSize(original, target, true, true).w <= original.w
    ensures TargetSize(original, target, true, true).h <= original.h
  {
    var s := Scale(original, target, true);
    ScaledAtMostSelf(original.w, s);
    ScaledAtMostSelf(original.h, s);
    ScaledSideAtMost(original.w, s, original.w);
    ScaledSideAtMost(original.h, s, original.h);
  }

  /** Aspect-locked without enlarging: an image that already fits is kept as it is. */
  lemma AspectNoUpscaleKeepsFittingImage(original: Size, target: Size)
    requires 0 < original.w <= target.w && 0 < original.h <= target.h
    ensures TargetSize(original, target, true, true) == original
  {
    AspectSizeInIntegers(original, target, true);
  }

  /**
   * Aspect-locked, for a real image and a positive box: the width is the
   * exact width times the positive factor s, to within half a pixel, except
   * that an exact width below one half becomes 1.
   */
  lemma AspectWidthFollowsScale(original: Size, target: Size, noUpscale: bool)
    requires original.w > 0 && original.h > 0
    requires target.w > 0 && target.h > 0
    ensures Scale(original, target, noUpscale) > 0.0
    ensures Approximates(TargetSize(original, target, true, noUpscale).w,
                         original.w as real * Scale(original, target, noUpscale))
  {
    ScalePositive(original, target, noUpscale);
    ScaledSideNear(original.w, Scale(original, target, noUpscale), TargetSize(original, target, true, noUpscale).w);
  }

  /** Aspect-locked: the height follows the same factor s as the width. */
  lemma AspectHeightFollowsScale(original: Size, target: Size, noUpscale: bool)
    requires original.w > 0 && original.h > 0
    requires target.w > 0 && target.h > 0
    ensures Scale(original, target, noUpscale) > 0.0
    ensures Approximates(TargetSize(original, target, true, noUpscale).h,
                         original.h as real * Scale(original, target, noUpscale))
  {
    ScalePositive(original, target, noUpscale);
    ScaledSideNear(original.h, Scale(original, target, noUpscale), TargetSize(original, target, true, noUpscale).h);
  }

  /** Fixed box: each side is clamped alone, never above the box and, without enlarging, never above the image. */
  lemma FixedBoxClampsEachAxis(original: Size, target: Size, noUpscale: bool)
    ensures var r := TargetSize(original, target, false, noUpscale);
            && r.w <= target.w && r.h <= target.h
            && (!noUpscale ==> r == target)
            && (noUpscale ==> r.w <= original.w && r.h <= original.h
                              && (r.w == original.w || r.w == target.w)
                              && (r.h == original.h || r.h == target.h))
  {
  }

  /** Fixed box: the width does not depend on the heights and the height not on the widths. */
  lemma FixedBoxAxesIndependent(o1: Size, o2: Size, t1: Size, t2: Size, noUpscale: bool)
    ensures o1.w == o2.w && t1.w == t2.w ==>
              TargetSize(o1, t1, false, noUpscale).w == TargetSize(o2, t2, false, noUpscale).w
    ensures o1.h == o2.h && t1.h == t2.h ==>
              TargetSize(o1, t1, false, noUpscale).h == TargetSize(o2, t2, false, noUpscale).h
  {
  }

  /** A real image and a positive box never give a zero side, whatever the flags. */
  lemma PositiveInputsGivePositiveSize(original: Size, target: Size, keepAspectRatio: bool, noUpscale: bool)
    requires original.w > 0 && original.h > 0 && target.w > 0 && target.h > 0
    ensures TargetSize(original, target, keepAspectRatio, noUpscale).w >= 1
    ensures TargetSize(original, target, keepAspectRatio, noUpscale).h >= 1
  {
  }

  /** Only the aspect-locked branch floors at 1, and it passes a zero-sided size through untouched. */
  lemma ZeroSideIsNotFloored()
    ensures TargetSize(Size(0, 5), Size(10, 10), false, true) == Size(0, 5)
    ensures TargetSize(Size(0, 5), Size(10, 10), true, false) == Size(0, 5)
  {
  }

  /** 800x600 and 200x100 images into a 400x400 box, aspect-locked without enlarging. */
  lemma ExampleBatchSizes()
    ensures TargetSize(Size(800, 600), Size(400, 400), true, true) == Size(400, 300)
    ensures TargetSize(Size(200, 100), Size(400, 400), true, true) == Size(200, 100)
  {
    AspectSizeInIntegers(Size(800, 600), Size(400, 400), true);
    AspectNoUpscaleKeepsFittingImage(Size(200, 100), Size(400, 400));
  }
}
