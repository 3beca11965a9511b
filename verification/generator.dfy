/** The colour-level part of SmoothGradientGenerator.swift: the choice of
    interpolation space, the precision levels, the interpolation of two
    colours channel by channel, and `generate`. */
module Generator {
  import opened ColorSpace
  import opened Interpolation

  /** SmoothGradientInterpolation: the colour space in which to interpolate. */
  datatype InterpolationSpace = Hcl | Hsl | Hsb

  /** SmoothGradientPrecision: how many intermediate colours to generate. */
  datatype Precision = Low | LowMedium | Medium | MediumHigh | High

  datatype Option<T> = None | Some(value: T)

  /** The raw value of a precision level: the number of intermediate
      colours, an odd count from 1 to 9 growing with the level. */
  function RawValue(p: Precision): (n: int)
    ensures 1 <= n <= 9 && n % 2 == 1
    ensures p == Low <==> n == 1
    ensures p == LowMedium <==> n == 3
    ensures p == Medium <==> n == 5
    ensures p == MediumHigh <==> n == 7
    ensures p == High <==> n == 9
  {
    match p
    case Low => 1
    case LowMedium => 3
    case Medium => 5
    case MediumHigh => 7
    case High => 9
  }

  /** The failable `init?(rawValue:)` a raw-value enum has: the level whose raw
      value is `n`, and none when `n` is not one of them. */
  function PrecisionOf(n: int): (r: Option<Precision>)
    ensures r.Some? ==> RawValue(r.value) == n
    ensures r.Some? <==> 1 <= n <= 9 && n % 2 == 1
  {
    if n == 1 then Some(Low)
    else if n == 3 then Some(LowMedium)
    else if n == 5 then Some(Medium)
    else if n == 7 then Some(MediumHigh)
    else if n == 9 then Some(High)
    else None
  }

  /** Every precision level is recovered from its raw value. */
  lemma PrecisionRoundTrip(p: Precision)
    ensures PrecisionOf(RawValue(p)) == Some(p)
  {
  }

  /** The colour-level `interpolate`: convert both colours to the chosen
      space, interpolate each channel (the hue along the shorter arc), zip
      the channels back together and convert each colour back to RGB. The
      HSL conversion divides by a quantity that is zero for some colours
      outside the unit cube; `HSLDefined` excludes exactly those. */
  function InterpolateColors(m: Maths, from: RGBColor, to: RGBColor, count: int, space: InterpolationSpace): (r: seq<RGBColor>)
    requires space == Hsl ==> HSLDefined(from) && HSLDefined(to)
    ensures |r| == GradientLength(count)
    ensures forall i :: 0 <= i < |r| ==> r[i].alpha == Interpolate(from.alpha, to.alpha, count)[i]
  {
    match space
    case Hcl => HclGradient(m, from, to, count)
    case Hsl => HslGradient(from, to, count)
    case Hsb => HsbGradient(from, to, count)
  }

  /** The `.hcl` case: lightness and chroma linearly, hue along the shorter arc. */
  function HclGradient(m: Maths, from: RGBColor, to: RGBColor, count: int): (r: seq<RGBColor>)
    ensures |r| == GradientLength(count)
    ensures forall i :: 0 <= i < |r| ==> r[i].alpha == Interpolate(from.alpha, to.alpha, count)[i]
  {
    LchSteps(m, RGBToLCH(m, from), RGBToLCH(m, to), count)
  }

  /** Interpolation between two LCH colours, each step converted to RGB. */
  function LchSteps(m: Maths, a: LCHColor, b: LCHColor, count: int): (r: seq<RGBColor>)
    ensures |r| == GradientLength(count)
    ensures forall i :: 0 <= i < |r| ==> r[i].alpha == Interpolate(a.alpha, b.alpha, count)[i]
  {
    var z := Zip4(Interpolate(a.l, b.l, count), Interpolate(a.c, b.c, count),
                  InterpolateCircular(a.h, b.h, count), Interpolate(a.alpha, b.alpha, count));
    seq(|z|, i requires 0 <= i < |z| => LCHToRGB(m, LCHColor(z[i].0, z[i].1, z[i].2, z[i].3)))
  }

  /** The `.hsl` case: hue along the shorter arc, saturation and lightness linearly. */
  function HslGradient(from: RGBColor, to: RGBColor, count: int): (r: seq<RGBColor>)
    requires HSLDefined(from) && HSLDefined(to)
    ensures |r| == GradientLength(count)
    ensures forall i :: 0 <= i < |r| ==> r[i].alpha == Interpolate(from.alpha, to.alpha, count)[i]
  {
    HslSteps(RGBToHSL(from), RGBToHSL(to), count)
  }

  /** Interpolation between two HSL colours, each step converted to RGB. */
  function HslSteps(a: HSLColor, b: HSLColor, count: int): (r: seq<RGBColor>)
    ensures |r| == GradientLength(count)
    ensures forall i :: 0 <= i < |r| ==> r[i].alpha == Interpolate(a.alpha, b.alpha, count)[i]
  {
    var z := Zip4(InterpolateCircular(a.h, b.h, count), Interpolate(a.s, b.s, count),
                  Interpolate(a.l, b.l, count), Interpolate(a.alpha, b.alpha, count));
    seq(|z|, i requires 0 <= i < |z| => HSLToRGB(HSLColor(z[i].0, z[i].1, z[i].2, z[i].3)))
  }

  /** The `.hsb` case: hue along the shorter arc, saturation and brightness linearly. */
  function HsbGradient(from: RGBColor, to: RGBColor, count: int): (r: seq<RGBColor>)
    ensures |r| == GradientLength(count)
    ensures forall i :: 0 <= i < |r| ==> r[i].alpha == Interpolate(from.alpha, to.alpha, count)[i]
  {
    HsbSteps(RGBToHSB(from), RGBToHSB(to), count)
  }

  /** Interpolation between two HSB colours, each step converted to RGB. */
  function HsbSteps(a: HSBColor, b: HSBColor, count: int): (r: seq<RGBColor>)
    ensures |r| == GradientLength(count)
    ensures forall i :: 0 <= i < |r| ==> r[i].alpha == Interpolate(a.alpha, b.alpha, count)[i]
  {
    var z := Zip4(InterpolateCircular(a.h, b.h, count), Interpolate(a.s, b.s, count),
                  Interpolate(a.b, b.b, count), Interpolate(a.alpha, b.alpha, count));
    seq(|z|, i requires 0 <= i < |z| => HSBToRGB(HSBColor(z[i].0, z[i].1, z[i].2, z[i].3)))
  }

  /** `generate`: `RawValue(precision)` intermediate colours between the two
      given ones, each with its interpolated alpha. */
  function Generate(m: Maths, from: RGBColor, to: RGBColor, space: InterpolationSpace, precision: Precision): (r: seq<RGBColor>)
    requires space == Hsl ==> HSLDefined(from) && HSLDefined(to)
    ensures |r| == RawValue(precision) + 2
    ensures forall i :: 0 <= i < |r| ==> r[i].alpha == Interpolate(from.alpha, to.alpha, RawValue(precision))[i]
  {
    InterpolateColors(m, from, to, RawValue(precision), space)
  }
}
