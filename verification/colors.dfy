/** The cell colours of the BOM table: a heatmap background that runs from
    green at the row's minimum supplier rate through yellow at the midpoint
    to red at the maximum (`getHeatmapColor`), and the colour of the
    percentage difference label (`getPercentageColor`). Arithmetic is over
    the reals; `Math.round` is floor(x + 1/2). */
module Colors {

  /** An `rgba(r, g, b, a)` colour. */
  datatype Rgba = Rgba(r: int, g: int, b: int, alpha: real)

  const Neutral := Rgba(239, 246, 255, 1.0)
  const Green := Rgba(16, 185, 129, 0.15)
  const Yellow := Rgba(245, 158, 11, 0.15)
  const Red := Rgba(239, 68, 68, 0.15)

  /** `Math.round`: the nearest integer, halves rounded up. */
  function Round(x: real): (k: int)
    ensures x - 0.5 < k as real <= x + 0.5
  {
    (x + 0.5).Floor
  }

  /** Rounding an integer gives it back, and rounding keeps integer bounds. */
  lemma RoundBetween(x: real, lo: int, hi: int)
    requires lo as real <= x <= hi as real
    ensures lo <= Round(x) <= hi
  {
  }

  /** One channel moved the fraction `t` of the way from `from` to `to`, rounded. */
  function Lerp(from: int, to: int, t: real): int {
    Round(from as real + (to - from) as real * t)
  }

  lemma MulNonNegative(a: real, b: real)
    requires 0.0 <= a && 0.0 <= b
    ensures 0.0 <= a * b
  {
  }

  /** An amount scaled by a fraction in [0, 1] stays between 0 and the
      amount. */
  lemma ScaleBetween(c: real, t: real)
    requires 0.0 <= t <= 1.0
    ensures 0.0 <= c ==> 0.0 <= c * t <= c
    ensures c <= 0.0 ==> c <= c * t <= 0.0
  {
    if 0.0 <= c {
      MulNonNegative(c, t);
      MulNonNegative(c, 1.0 - t);
    } else {
      MulNonNegative(-c, t);
      MulNonNegative(-c, 1.0 - t);
    }
    assert c * t + c * (1.0 - t) == c;
    assert (-c) * t == -(c * t) && (-c) * (1.0 - t) == -(c * (1.0 - t));
  }

  /** For `t` in [0, 1] the channel stays between the two anchor values. */
  lemma LerpBetween(from: int, to: int, t: real)
    requires 0.0 <= t <= 1.0
    ensures (if from <= to then from else to) <= Lerp(from, to, t) <= (if from <= to then to else from)
  {
    var d := (to - from) as real;
    ScaleBetween(d, t);
    var x := from as real + d * t;
    if from <= to {
      RoundBetween(x, from, to);
    } else {
      RoundBetween(x, to, from);
    }
  }

  /** The colour between two anchors, `t` of the way from `a` to `b`. */
  function Blend(a: Rgba, b: Rgba, t: real): Rgba {
    Rgba(Lerp(a.r, b.r, t), Lerp(a.g, b.g, t), Lerp(a.b, b.b, t), 0.15)
  }

  /** `getHeatmapColor(value, min, max)`: neutral when the range is a single
      point; otherwise the position of `value` in the range, below one half
      blending green into yellow and from one half on yellow into red. */
  function HeatmapColor(value: real, min: real, max: real): (c: Rgba)
    ensures min == max ==> c == Neutral
    ensures min != max ==> c.alpha == 0.15
  {
    if min == max then Neutral
    else
      var ratio := (value - min) / (max - min);
      if ratio < 0.5 then Blend(Green, Yellow, ratio * 2.0)
      else Blend(Yellow, Red, (ratio - 0.5) * 2.0)
  }

  /** The three anchors: the minimum is green, the midpoint yellow and the
      maximum red. */
  lemma HeatmapAnchors(min: real, max: real)
    requires min != max
    ensures HeatmapColor(min, min, max) == Green
    ensures HeatmapColor((min + max) / 2.0, min, max) == Yellow
    ensures HeatmapColor(max, min, max) == Red
  {
    var d := max - min;
    assert (min - min) / d == 0.0;
    assert ((min + max) / 2.0 - min) / d == 0.5;
    var one := d / d;
    assert one * d == d;
    assert (one - 1.0) * d == 0.0;
    assert one == 1.0;
    assert Round(16.0) == 16 && Round(185.0) == 185 && Round(129.0) == 129;
    assert Round(245.0) == 245 && Round(158.0) == 158 && Round(11.0) == 11;
    assert Round(239.0) == 239 && Round(68.0) == 68;
  }

  /** A part of a positive whole, divided by it, is a fraction in [0, 1]. */
  lemma RatioBounds(s: real, d: real)
    requires d > 0.0 && 0.0 <= s <= d
    ensures 0.0 <= s / d <= 1.0
  {
    assert s / d * d == s;
  }

  /** A value inside the range gets channels between the anchors of its
      half: red 16..245, green 158..185, blue 11..129 below the midpoint;
      red 239..245, green 68..158, blue 11..68 from the midpoint on. */
  lemma HeatmapChannels(value: real, min: real, max: real)
    requires min < max && min <= value <= max
    ensures var c := HeatmapColor(value, min, max);
            var ratio := (value - min) / (max - min);
            && 0.0 <= ratio <= 1.0
            && (ratio < 0.5 ==> 16 <= c.r <= 245 && 158 <= c.g <= 185 && 11 <= c.b <= 129)
            && (ratio >= 0.5 ==> 239 <= c.r <= 245 && 68 <= c.g <= 158 && 11 <= c.b <= 68)
  {
    var d := max - min;
    var ratio := (value - min) / d;
    RatioBounds(value - min, d);
    if ratio < 0.5 {
      var t := ratio * 2.0;
      LerpBetween(16, 245, t);
      LerpBetween(185, 158, t);
      LerpBetween(129, 11, t);
    } else {
      var t := (ratio - 0.5) * 2.0;
      LerpBetween(245, 239, t);
      LerpBetween(158, 68, t);
      LerpBetween(11, 68, t);
    }
  }

  /** The three colours of the percentage label. */
  datatype Hue = RedHue | GreenHue | MutedHue

  /** `getPercentageColor(p)`: red for an increase, green for a decrease,
      muted otherwise (zero, and NaN, which compares false both ways). */
  function PercentageColor(p: real): (h: Hue)
    ensures h == RedHue <==> p > 0.0
    ensures h == GreenHue <==> p < 0.0
    ensures h == MutedHue <==> p == 0.0
  {
    if p > 0.0 then RedHue else if p < 0.0 then GreenHue else MutedHue
  }

  /** The CSS colour each hue stands for. */
  function HueCss(h: Hue): string {
    match h
    case RedHue => "#ef4444"
    case GreenHue => "#10b981"
    case MutedHue => "#64748b"
  }
}
