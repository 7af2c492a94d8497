/** The pixel classifier of the background remover: the thresholds derived from
    the aggressiveness slider, the RGB to HSV conversion and the four
    heuristics that are OR'ed together to call a pixel "background". */
module Classify {

  /** One 8-bit colour channel. */
  type Byte = x: int | 0 <= x < 256

  /** The aggressiveness slider, an integer percent 0..100; the source divides
      it by 100, so "aggr > 0.8" is "percent > 80". */
  type Percent = p: int | 0 <= p <= 100

  /** The thresholds handed to the classifier. */
  datatype Params = Params(
    brightnessThreshold: int,
    distanceThreshold: int,
    valueThreshold: int,
    saturationThreshold: real,
    uniformThreshold: int,
    uniformBrightness: int,
    morphologicalRadius: int)

  /** Math.round(n / 100): the integer nearest to n / 100, halves rounded up. */
  function RoundHundredths(n: int): (r: int)
    ensures 100 * r <= n + 50 < 100 * r + 100
  {
    (n + 50) / 100
  }

  lemma RoundHundredthsMonotone(n1: int, n2: int)
    requires n1 <= n2
    ensures RoundHundredths(n1) <= RoundHundredths(n2)
  {
  }

  predicate InRanges(prm: Params) {
    && 200 <= prm.brightnessThreshold <= 255
    && 20 <= prm.distanceThreshold <= 255
    && 200 <= prm.valueThreshold <= 255
    && 0.05 <= prm.saturationThreshold <= 1.0
    && 5 <= prm.uniformThreshold <= 100
    && 180 <= prm.uniformBrightness <= 255
    && 1 <= prm.morphologicalRadius <= 6
  }

  /** The parameter mapping of the slider: every threshold is rounded from a
      linear interpolation in aggr = p / 100 and stays in its documented range. */
  function DeriveParams(p: Percent): (prm: Params)
    ensures InRanges(prm)
    ensures p == 0 ==> prm == Params(200, 20, 200, 0.05, 5, 180, 1)
    ensures p == 100 ==> prm == Params(255, 255, 255, 1.0, 100, 255, 6)
  {
    Params(
      RoundHundredths(20000 + 55 * p),   // 200 + aggr * 55
      RoundHundredths(2000 + 235 * p),   // 20 + aggr * 235
      RoundHundredths(20000 + 55 * p),   // 200 + aggr * 55
      0.05 + (p as real / 100.0) * 0.95,
      RoundHundredths(500 + 95 * p),     // 5 + aggr * 95
      RoundHundredths(18000 + 75 * p),   // 180 + aggr * 75
      RoundHundredths(100 + 5 * p))      // 1 + aggr * 5
  }

  /** Every derived threshold is non-decreasing in the slider percent. */
  lemma DeriveParamsMonotone(p: Percent, q: Percent)
    requires p <= q
    ensures var a, b := DeriveParams(p), DeriveParams(q);
      && a.brightnessThreshold <= b.brightnessThreshold
      && a.distanceThreshold <= b.distanceThreshold
      && a.valueThreshold <= b.valueThreshold
      && a.saturationThreshold <= b.saturationThreshold
      && a.uniformThreshold <= b.uniformThreshold
      && a.uniformBrightness <= b.uniformBrightness
      && a.morphologicalRadius <= b.morphologicalRadius
  {
    RoundHundredthsMonotone(20000 + 55 * p, 20000 + 55 * q);
    RoundHundredthsMonotone(2000 + 235 * p, 2000 + 235 * q);
    RoundHundredthsMonotone(500 + 95 * p, 500 + 95 * q);
    RoundHundredthsMonotone(18000 + 75 * p, 18000 + 75 * q);
    RoundHundredthsMonotone(100 + 5 * p, 100 + 5 * q);
  }

  function MaxR(a: real, b: real): real { if a >= b then a else b }
  function MinR(a: real, b: real): real { if a <= b then a else b }

  /** Hue, saturation and value, each in [0, 1]. */
  datatype Hsv = Hsv(h: real, s: real, v: real)

  /** Hue of a colour whose largest channel is mx and whose spread is diff;
      the source tests the red, green and blue channel in that order. */
  function Hue(rr: real, gg: real, bb: real, mx: real, diff: real): (h: real)
    requires diff > 0.0
    requires rr <= mx && gg <= mx && bb <= mx && (mx == rr || mx == gg || mx == bb)
    requires mx - rr <= diff && mx - gg <= diff && mx - bb <= diff
    ensures 0.0 <= h < 1.0
  {
    if mx == rr then
      var t := (gg - bb) / diff;
      assert -1.0 <= t <= 1.0 by { DivUnit(gg - bb, diff); }
      assert gg < bb ==> t < 0.0 by { DivUnit(gg - bb, diff); }
      (t + (if gg < bb then 6.0 else 0.0)) / 6.0
    else if mx == gg then
      var t := (bb - rr) / diff;
      assert -1.0 <= t <= 1.0 by { DivUnit(bb - rr, diff); }
      (t + 2.0) / 6.0
    else
      var t := (rr - gg) / diff;
      assert -1.0 <= t <= 1.0 by { DivUnit(rr - gg, diff); }
      (t + 4.0) / 6.0
  }

  lemma DivUnit(a: real, d: real)
    requires d > 0.0 && -d <= a <= d
    ensures -1.0 <= a / d <= 1.0
    ensures a < 0.0 ==> a / d < 0.0
  {
  }

  /** rgbToHsv: channels are scaled to [0, 1]; v is the largest channel,
      s the spread relative to it (0 for black), h as in Hue. */
  function RgbToHsv(r: Byte, g: Byte, b: Byte): (hsv: Hsv)
    ensures 0.0 <= hsv.h < 1.0 && 0.0 <= hsv.s <= 1.0 && 0.0 <= hsv.v <= 1.0
    ensures hsv.v * 255.0 == (if r >= g && r >= b then r else if g >= b then g else b) as real
    ensures hsv.s == 0.0 <==> (r == g == b || hsv.v == 0.0)
  {
    var rr, gg, bb := r as real / 255.0, g as real / 255.0, b as real / 255.0;
    var mx := MaxR(rr, MaxR(gg, bb));
    var mn := MinR(rr, MinR(gg, bb));
    var diff := mx - mn;
    var h := if diff == 0.0 then 0.0 else Hue(rr, gg, bb, mx, diff);
    var s := if mx == 0.0 then 0.0 else diff / mx;
    assert 0.0 <= s <= 1.0 by {
      if mx != 0.0 { DivUnit(diff, mx); }
    }
    assert mx != 0.0 && diff != 0.0 ==> s != 0.0;
    Hsv(h, s, mx)
  }

  /** (r + g + b) / 3. */
  function Brightness(r: Byte, g: Byte, b: Byte): real {
    (r + g + b) as real / 3.0
  }

  /** Squared Euclidean distance to white; the source's square root compared
      with a threshold t is the same as this compared with t * t for t >= 0. */
  function DistSqToWhite(r: Byte, g: Byte, b: Byte): int {
    (255 - r) * (255 - r) + (255 - g) * (255 - g) + (255 - b) * (255 - b)
  }

  function Abs(x: int): int { if x < 0 then -x else x }

  /** Largest pairwise channel difference. */
  function MaxDiff(r: Byte, g: Byte, b: Byte): int {
    var d1, d2, d3 := Abs(r - g), Abs(g - b), Abs(b - r);
    if d1 >= d2 && d1 >= d3 then d1 else if d2 >= d3 then d2 else d3
  }

  /** Rule 1, HSV: v (in [0, 1]) against the value threshold (on the 0..255 scale). */
  predicate HsvRule(r: Byte, g: Byte, b: Byte, prm: Params) {
    var hsv := RgbToHsv(r, g, b);
    hsv.v >= prm.valueThreshold as real && hsv.s <= prm.saturationThreshold
  }

  /** Rule 2: bright enough and close enough to white. */
  predicate DistanceRule(r: Byte, g: Byte, b: Byte, prm: Params) {
    && Brightness(r, g, b) >= prm.brightnessThreshold as real
    && prm.distanceThreshold >= 0
    && DistSqToWhite(r, g, b) <= prm.distanceThreshold * prm.distanceThreshold
  }

  /** Rule 3: a near-grey colour that is bright enough. */
  predicate UniformRule(r: Byte, g: Byte, b: Byte, prm: Params) {
    MaxDiff(r, g, b) <= prm.uniformThreshold && Brightness(r, g, b) >= prm.uniformBrightness as real
  }

  /** (aggr - 0.8) / 0.2, which runs from 0 to 1 as the slider goes from 80 to 100. */
  function ExtremeFactor(p: int): real {
    (p as real / 100.0 - 0.8) / 0.2
  }

  /** Rule 4a: brightness at least 30 + factor * 225. */
  predicate ExtremeBrightnessRule(r: Byte, g: Byte, b: Byte, p: int) {
    Brightness(r, g, b) >= 30.0 + ExtremeFactor(p) * 225.0
  }

  /** Rule 4b: saturation at least 0.05 + factor * 0.95 and brightness above 20. */
  predicate ExtremeSaturationRule(r: Byte, g: Byte, b: Byte, p: int) {
    RgbToHsv(r, g, b).s >= 0.05 + ExtremeFactor(p) * 0.95 && Brightness(r, g, b) > 20.0
  }

  /** Rule 4c: v (in [0, 1]) at least 20 + factor * 235 and brightness above 20. */
  predicate ExtremeValueRule(r: Byte, g: Byte, b: Byte, p: int) {
    RgbToHsv(r, g, b).v >= 20.0 + ExtremeFactor(p) * 235.0 && Brightness(r, g, b) > 20.0
  }

  /** isBackgroundPixel: any rule classifies the pixel as background; the
      extreme rules apply only above 80 percent. */
  predicate IsBackgroundPixel(r: Byte, g: Byte, b: Byte, prm: Params, p: int) {
    || HsvRule(r, g, b, prm)
    || DistanceRule(r, g, b, prm)
    || UniformRule(r, g, b, prm)
    || (p > 80 && (ExtremeBrightnessRule(r, g, b, p)
                   || ExtremeSaturationRule(r, g, b, p)
                   || ExtremeValueRule(r, g, b, p)))
  }

  /** The two rules on the HSV value can never fire with derived thresholds:
      v is at most 1 while the thresholds are at least 200 and at least 20, so
      the classifier is the disjunction of the remaining rules. */
  lemma ValueRulesDead(r: Byte, g: Byte, b: Byte, p: Percent)
    ensures !HsvRule(r, g, b, DeriveParams(p))
    ensures p > 80 ==> !ExtremeValueRule(r, g, b, p)
    ensures IsBackgroundPixel(r, g, b, DeriveParams(p), p) <==>
      || DistanceRule(r, g, b, DeriveParams(p))
      || UniformRule(r, g, b, DeriveParams(p))
      || (p > 80 && (ExtremeBrightnessRule(r, g, b, p) || ExtremeSaturationRule(r, g, b, p)))
  {
    var hsv := RgbToHsv(r, g, b);
    assert hsv.v <= 1.0;
  }

  /** Pure white is background at every aggressiveness (rule 2: brightness 255
      meets any threshold up to 255 and the distance to white is 0). */
  lemma WhiteIsBackground(p: Percent)
    ensures DistanceRule(255, 255, 255, DeriveParams(p))
    ensures IsBackgroundPixel(255, 255, 255, DeriveParams(p), p)
  {
  }

  /** A pixel of brightness at most 20 (so pure black too) is never background:
      every live rule needs brightness at least 200, 180, 30 or above 20. */
  lemma DarkIsNeverBackground(r: Byte, g: Byte, b: Byte, p: Percent)
    requires r + g + b <= 60
    ensures !IsBackgroundPixel(r, g, b, DeriveParams(p), p)
  {
    ValueRulesDead(r, g, b, p);
    if p > 80 {
      assert ExtremeFactor(p) > 0.0;
      assert !ExtremeBrightnessRule(r, g, b, p);
    }
  }

  /** Classification is not monotone in aggressiveness: light grey is removed at
      0 percent (rule 3) but kept at 50 percent, where the brightness floors of
      rules 2 and 3 have risen to 228 and 218. */
  lemma NotMonotoneInAggressiveness()
    ensures IsBackgroundPixel(210, 210, 210, DeriveParams(0), 0)
    ensures !IsBackgroundPixel(210, 210, 210, DeriveParams(50), 50)
  {
    assert DeriveParams(50).brightnessThreshold == 228;
    assert DeriveParams(50).uniformBrightness == 218;
    ValueRulesDead(210, 210, 210, 50);
  }

  /** At 100 percent a fully saturated colour of brightness 21 is removed while
      one of brightness 20 is kept, and a grey of brightness 21 is kept too. */
  lemma ExtremeBoundary()
    ensures IsBackgroundPixel(63, 0, 0, DeriveParams(100), 100)
    ensures !IsBackgroundPixel(60, 0, 0, DeriveParams(100), 100)
    ensures !IsBackgroundPixel(21, 21, 21, DeriveParams(100), 100)
  {
    assert RgbToHsv(63, 0, 0).s == 1.0;
    DarkIsNeverBackground(60, 0, 0, 100);
    ValueRulesDead(21, 21, 21, 100);
    assert RgbToHsv(21, 21, 21).s == 0.0;
  }
}
