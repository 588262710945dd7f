/**
 * The scale-bar length of `Batch_Converter.addScaleBar`: a quarter of the
 * image width in calibrated units, rounded to the nearest multiple of a decade
 * chosen from that width, halves rounding up.
 */
module BatchConverter {

  /** The decades, compared from the largest down; the last is the fallback. */
  const Decades: seq<real> := [1000.0, 100.0, 10.0, 1.0, 0.1, 0.01, 0.001]

  /** The decade chain of the plugin: the first threshold the width strictly exceeds. */
  function Decade(w: real): (d: real)
    ensures d in Decades && d > 0.0
    ensures w > 0.01 ==> d < w
    ensures w <= 1000.0 ==> w <= 10.0 * d
  {
    if w > 1000.0 then 1000.0
    else if w > 100.0 then 100.0
    else if w > 10.0 then 10.0
    else if w > 1.0 then 1.0
    else if w > 0.1 then 0.1
    else if w > 0.01 then 0.01
    else 0.001
  }

  /** Reference reading of the chain: the first of `Decades[i..6]` below `w`, else the last. */
  function FirstExceeded(w: real, i: nat): (d: real)
    requires i < |Decades|
    decreases |Decades| - i
  {
    if i == |Decades| - 1 || w > Decades[i] then Decades[i] else FirstExceeded(w, i + 1)
  }

  /** The chain picks exactly the first decade the width exceeds. */
  lemma DecadeIsFirstExceeded(w: real)
    ensures Decade(w) == FirstExceeded(w, 0)
  {
  }

  /**
   * Characterisation of the chosen decade by position: every larger decade is
   * at least the width, and the chosen one is below it unless it is the fallback.
   */
  lemma DecadePosition(w: real)
    ensures exists i :: (0 <= i < |Decades| && Decades[i] == Decade(w)
                         && (forall j :: 0 <= j < i ==> w <= Decades[j])
                         && (i < |Decades| - 1 ==> w > Decades[i]))
  {
    var d := Decade(w);
    if d == 1000.0 { assert Decades[0] == d; }
    else if d == 100.0 { assert Decades[1] == d; }
    else if d == 10.0 { assert Decades[2] == d; }
    else if d == 1.0 { assert Decades[3] == d; }
    else if d == 0.1 { assert Decades[4] == d; }
    else if d == 0.01 { assert Decades[5] == d; }
    else { assert Decades[6] == d; }
  }

  /** `k` steps of size `unit`. */
  function Times(k: int, unit: real): real
  {
    k as real * unit
  }

  /** `x` is a whole number of `unit`s. */
  ghost predicate IsMultipleOf(x: real, unit: real)
  {
    exists k: int :: x == Times(k, unit)
  }

  /** `Math.floor((w / d) + 0.5) * d`. */
  function RoundToMultiple(w: real, d: real): real
    requires d > 0.0
  {
    Times((w / d + 0.5).Floor, d)
  }

  // Arithmetic facts, each stated for a plain real number of steps so that
  // no integer rounding is in sight while they are proved.

  /** Scaling by a positive factor keeps the order, and so does dividing it out. */
  lemma ScaleLe(a: real, b: real, d: real)
    requires d > 0.0
    ensures a <= b <==> a * d <= b * d
  {
  }

  lemma ScaleLt(a: real, b: real, d: real)
    requires d > 0.0
    ensures a < b <==> a * d < b * d
  {
  }

  /** Half a step either side of `w / d`, scaled back by `d`. */
  lemma HalfStep(w: real, d: real)
    requires d > 0.0
    ensures (w / d + 0.5) * d == w + d / 2.0
    ensures (w / d - 0.5) * d == w - d / 2.0
  {
    assert (w / d) * d == w;
  }

  /** `s` steps lie within half a step of `w` exactly when `s` is within half of `w / d`. */
  lemma NearStep(w: real, d: real, s: real)
    requires d > 0.0
    ensures (w - d / 2.0 < s * d <= w + d / 2.0) <==> (s <= w / d + 0.5 < s + 1.0)
  {
    NearStepAbove(w, d, s);
    NearStepBelow(w, d, s);
  }

  /** The upper edge of the window, in steps. */
  lemma NearStepAbove(w: real, d: real, s: real)
    requires d > 0.0
    ensures s * d <= w + d / 2.0 <==> s <= w / d + 0.5
  {
    var q := w / d + 0.5;
    HalfStep(w, d);
    assert q * d == w + d / 2.0;
    ScaleLe(s, q, d);
  }

  /** The lower edge of the window, in steps. */
  lemma NearStepBelow(w: real, d: real, s: real)
    requires d > 0.0
    ensures w - d / 2.0 < s * d <==> w / d + 0.5 < s + 1.0
  {
    var q := w / d - 0.5;
    HalfStep(w, d);
    assert q * d == w - d / 2.0;
    ScaleLt(q, s, d);
  }

  /** The integer `k` with `k <= x < k + 1` is the floor of `x`. */
  lemma FloorBetween(x: real, k: int)
    ensures k as real <= x < k as real + 1.0 <==> x.Floor == k
  {
  }

  /** The rounding lands on a multiple of `d` no more than half a step away, halves going up. */
  lemma RoundToMultipleWindow(w: real, d: real)
    requires d > 0.0
    ensures IsMultipleOf(RoundToMultiple(w, d), d)
    ensures w - d / 2.0 < RoundToMultiple(w, d) <= w + d / 2.0
  {
    var k := (w / d + 0.5).Floor;
    assert RoundToMultiple(w, d) == Times(k, d);
    FloorBetween(w / d + 0.5, k);
    NearStep(w, d, k as real);
  }

  /**
   * The rounding is the only multiple of `d` in the half-open window around
   * `w`, so halves go up: a length exactly half a step above `w` is chosen
   * over the one half a step below.
   */
  lemma RoundToMultipleUnique(w: real, d: real, v: real)
    requires d > 0.0
    requires IsMultipleOf(v, d)
    requires w - d / 2.0 < v <= w + d / 2.0
    ensures v == RoundToMultiple(w, d)
  {
    var k :| v == Times(k, d);
    NearStep(w, d, k as real);
    FloorBetween(w / d + 0.5, k);
  }

  /** The bar length for a candidate width `w`: rounded to the decade chosen for `w`. */
  function RoundToDecade(w: real): (r: real)
    ensures IsMultipleOf(r, Decade(w))
    ensures w - Decade(w) / 2.0 < r <= w + Decade(w) / 2.0
  {
    RoundToMultipleWindow(w, Decade(w));
    RoundToMultiple(w, Decade(w))
  }

  /** The decade rounding is the only multiple of the decade in the window. */
  lemma RoundToDecadeUnique(w: real, v: real)
    requires IsMultipleOf(v, Decade(w))
    requires w - Decade(w) / 2.0 < v <= w + Decade(w) / 2.0
    ensures v == RoundToDecade(w)
  {
    RoundToMultipleUnique(w, Decade(w), v);
  }

  /** Between one and ten steps, as a quotient. */
  lemma QuotientWithin(w: real, d: real)
    requires d > 0.0 && d < w <= 10.0 * d
    ensures 1.0 < w / d <= 10.0
  {
    assert (w / d) * d == w;
    ScaleLt(1.0, w / d, d);
    ScaleLe(w / d, 10.0, d);
  }

  /** A width between one and ten steps rounds to between one and ten steps. */
  lemma RoundToMultipleWithin(w: real, d: real)
    requires d > 0.0 && d < w <= 10.0 * d
    ensures d <= RoundToMultiple(w, d) <= 10.0 * d
  {
    var k := (w / d + 0.5).Floor;
    assert RoundToMultiple(w, d) == Times(k, d);
    QuotientWithin(w, d);
    FloorBetween(w / d + 0.5, k);
    assert 1 <= k <= 10;
    ScaleLe(1.0, k as real, d);
    ScaleLe(k as real, 10.0, d);
  }

  /** Rounding keeps the sign, and a width under half a step rounds to nothing. */
  lemma RoundToMultipleSign(w: real, d: real)
    requires d > 0.0
    ensures w >= 0.0 ==> RoundToMultiple(w, d) >= 0.0
    ensures w < 0.0 ==> RoundToMultiple(w, d) <= 0.0
    ensures 0.0 <= w < d / 2.0 ==> RoundToMultiple(w, d) == 0.0
  {
    var k := (w / d + 0.5).Floor;
    assert RoundToMultiple(w, d) == Times(k, d);
    FloorBetween(w / d + 0.5, k);
    assert (w / d) * d == w;
    ScaleLe(0.0, w / d, d);
    ScaleLt(w / d, 0.5, d);
    ScaleLe(0.0, k as real, d);
    if 0.0 <= w < d / 2.0 {
      assert 0.0 <= w / d < 0.5;
      assert k == 0;
    }
  }

  /** Any width above the smallest threshold gets a bar of at least one decade and at most ten. */
  lemma RoundToDecadeRange(w: real)
    requires 0.01 < w <= 1000.0
    ensures Decade(w) <= RoundToDecade(w) <= 10.0 * Decade(w)
  {
    RoundToMultipleWithin(w, Decade(w));
  }

  /** Widths above the largest threshold still round to at least a thousand. */
  lemma RoundToDecadeLarge(w: real)
    requires w > 1000.0
    ensures RoundToDecade(w) >= 1000.0
  {
    var k := (w / 1000.0 + 0.5).Floor;
    assert RoundToDecade(w) == Times(k, 1000.0);
    assert k >= 1;
  }

  /** A non-negative width gives a non-negative bar; a tiny one gives no bar at all. */
  lemma RoundToDecadeSign(w: real)
    ensures w >= 0.0 ==> RoundToDecade(w) >= 0.0
    ensures 0.0 <= w < 0.0005 ==> RoundToDecade(w) == 0.0
    ensures w < 0.0 ==> RoundToDecade(w) <= 0.0
  {
    RoundToMultipleSign(w, Decade(w));
  }

  /** The bar of `addScaleBar` for an image `imageWidthInUnits` wide. */
  function ScaleBarLength(imageWidthInUnits: real): (len: real)
    ensures var w := imageWidthInUnits / 4.0;
      IsMultipleOf(len, Decade(w)) && w - Decade(w) / 2.0 < len <= w + Decade(w) / 2.0
  {
    RoundToDecade(imageWidthInUnits / 4.0)
  }

  /** A 10000-unit-wide image: a quarter is 2500, exactly halfway, which rounds up. */
  lemma HalfRoundsUpExample()
    ensures Decade(2500.0) == 1000.0
    ensures RoundToDecade(2500.0) == 3000.0
    ensures ScaleBarLength(10000.0) == 3000.0
  {
    assert (2500.0 / 1000.0 + 0.5).Floor == 3;
  }

  lemma SmallWidthExample()
    ensures Decade(0.05) == 0.01
    ensures RoundToDecade(0.05) == 0.05
  {
    assert (0.05 / 0.01 + 0.5).Floor == 5;
  }
}
