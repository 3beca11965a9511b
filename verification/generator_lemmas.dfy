/** What the HSL and HSB gradients promise about their colours: they start
    and end at exactly the given colours, and they stay displayable when the
    given colours are. */
module GeneratorLemmas {
  import opened ColorSpace
  import opened ColorSpaceLemmas
  import opened Interpolation
  import opened Generator

  /** Colour `i` of an LCH interpolation is built from the `i`-th value of
      every channel, in the order lightness, chroma, hue, alpha. */
  lemma LchStepsAt(m: Maths, a: LCHColor, b: LCHColor, count: int)
    ensures var r := LchSteps(m, a, b, count);
      var l, c, h, al := Interpolate(a.l, b.l, count), Interpolate(a.c, b.c, count),
                         InterpolateCircular(a.h, b.h, count), Interpolate(a.alpha, b.alpha, count);
      forall i :: 0 <= i < |r| ==> r[i] == LCHToRGB(m, LCHColor(l[i], c[i], h[i], al[i]))
  {
  }

  /** Colour `i` of an HSL interpolation is built from the `i`-th value of
      every channel, in the order hue, saturation, lightness, alpha. */
  lemma HslStepsAt(a: HSLColor, b: HSLColor, count: int)
    ensures var r := HslSteps(a, b, count);
      var h, s, l, al := InterpolateCircular(a.h, b.h, count), Interpolate(a.s, b.s, count),
                         Interpolate(a.l, b.l, count), Interpolate(a.alpha, b.alpha, count);
      forall i :: 0 <= i < |r| ==> r[i] == HSLToRGB(HSLColor(h[i], s[i], l[i], al[i]))
  {
  }

  /** Colour `i` of an HSB interpolation is built from the `i`-th value of
      every channel, in the order hue, saturation, brightness, alpha. */
  lemma HsbStepsAt(a: HSBColor, b: HSBColor, count: int)
    ensures var r := HsbSteps(a, b, count);
      var h, s, v, al := InterpolateCircular(a.h, b.h, count), Interpolate(a.s, b.s, count),
                         Interpolate(a.b, b.b, count), Interpolate(a.alpha, b.alpha, count);
      forall i :: 0 <= i < |r| ==> r[i] == HSBToRGB(HSBColor(h[i], s[i], v[i], al[i]))
  {
  }

  /** An HSL gradient starts at `from` and ends at `to`, exactly. */
  lemma {:induction false} HslGradientEndpoints(from: RGBColor, to: RGBColor, count: int)
    requires HSLDefined(from) && HSLDefined(to)
    ensures var r := HslGradient(from, to, count);
      r[0] == from && r[|r| - 1] == to
  {
    var a, b := RGBToHSL(from), RGBToHSL(to);
    assert HslGradient(from, to, count) == HslSteps(a, b, count);
    HslStepsEnds(a, b, count);
    HSLRoundTrip(from);
    HSLRoundTrip(to);
  }

  /** A sequence built channel by channel from HSL values starts and ends
      at the colours whose channels start and end those sequences. */
  lemma HslStepsOfEnds(r: seq<RGBColor>, h: seq<real>, s: seq<real>, l: seq<real>, al: seq<real>, a: HSLColor, b: HSLColor)
    requires |r| >= 1 && |h| == |r| && |s| == |r| && |l| == |r| && |al| == |r|
    requires forall i :: 0 <= i < |r| ==> r[i] == HSLToRGB(HSLColor(h[i], s[i], l[i], al[i]))
    requires h[0] == a.h && s[0] == a.s && l[0] == a.l && al[0] == a.alpha
    requires h[|h| - 1] == b.h && s[|s| - 1] == b.s && l[|l| - 1] == b.l && al[|al| - 1] == b.alpha
    ensures r[0] == HSLToRGB(a) && r[|r| - 1] == HSLToRGB(b)
  {
    assert HSLColor(h[0], s[0], l[0], al[0]) == a;
    assert HSLColor(h[|r| - 1], s[|r| - 1], l[|r| - 1], al[|r| - 1]) == b;
  }

  /** Interpolating between two HSL colours whose hues are on the wheel starts
      and ends at those colours, converted to RGB. */
  lemma {:induction false} HslStepsEnds(a: HSLColor, b: HSLColor, count: int)
    requires 0.0 <= a.h < 360.0 && 0.0 <= b.h < 360.0
    ensures var r := HslSteps(a, b, count);
      r[0] == HSLToRGB(a) && r[|r| - 1] == HSLToRGB(b)
  {
    var h := InterpolateCircular(a.h, b.h, count);
    var s := Interpolate(a.s, b.s, count);
    var l := Interpolate(a.l, b.l, count);
    var al := Interpolate(a.alpha, b.alpha, count);
    CircularEndpoints(a.h, b.h, count);
    InterpolateEndpoints(a.s, b.s, count);
    InterpolateEndpoints(a.l, b.l, count);
    InterpolateEndpoints(a.alpha, b.alpha, count);
    HslStepsAt(a, b, count);
    HslStepsOfEnds(HslSteps(a, b, count), h, s, l, al, a, b);
  }

  /** An HSB gradient starts at `from` and ends at `to`, exactly, for every
      colour the HSB round trip recovers. */
  lemma {:induction false} HsbGradientEndpoints(from: RGBColor, to: RGBColor, count: int)
    requires IsGray(from) || MaxChannel(from) != 0.0
    requires IsGray(to) || MaxChannel(to) != 0.0
    ensures var r := HsbGradient(from, to, count);
      r[0] == from && r[|r| - 1] == to
  {
    var a, b := RGBToHSB(from), RGBToHSB(to);
    assert HsbGradient(from, to, count) == HsbSteps(a, b, count);
    HsbStepsEnds(a, b, count);
    HSBRoundTrip(from);
    HSBRoundTrip(to);
  }

  /** A sequence built channel by channel from HSB values starts and ends
      at the colours whose channels start and end those sequences. */
  lemma HsbStepsOfEnds(r: seq<RGBColor>, h: seq<real>, s: seq<real>, v: seq<real>, al: seq<real>, a: HSBColor, b: HSBColor)
    requires |r| >= 1 && |h| == |r| && |s| == |r| && |v| == |r| && |al| == |r|
    requires forall i :: 0 <= i < |r| ==> r[i] == HSBToRGB(HSBColor(h[i], s[i], v[i], al[i]))
    requires h[0] == a.h && s[0] == a.s && v[0] == a.b && al[0] == a.alpha
    requires h[|h| - 1] == b.h && s[|s| - 1] == b.s && v[|v| - 1] == b.b && al[|al| - 1] == b.alpha
    ensures r[0] == HSBToRGB(a) && r[|r| - 1] == HSBToRGB(b)
  {
    assert HSBColor(h[0], s[0], v[0], al[0]) == a;
    assert HSBColor(h[|r| - 1], s[|r| - 1], v[|r| - 1], al[|r| - 1]) == b;
  }

  /** Interpolating between two HSB colours whose hues are on the wheel starts
      and ends at those colours, converted to RGB. */
  lemma {:induction false} HsbStepsEnds(a: HSBColor, b: HSBColor, count: int)
    requires 0.0 <= a.h < 360.0 && 0.0 <= b.h < 360.0
    ensures var r := HsbSteps(a, b, count);
      r[0] == HSBToRGB(a) && r[|r| - 1] == HSBToRGB(b)
  {
    var h := InterpolateCircular(a.h, b.h, count);
    var s := Interpolate(a.s, b.s, count);
    var v := Interpolate(a.b, b.b, count);
    var al := Interpolate(a.alpha, b.alpha, count);
    CircularEndpoints(a.h, b.h, count);
    InterpolateEndpoints(a.s, b.s, count);
    InterpolateEndpoints(a.b, b.b, count);
    InterpolateEndpoints(a.alpha, b.alpha, count);
    HsbStepsAt(a, b, count);
    HsbStepsOfEnds(HsbSteps(a, b, count), h, s, v, al, a, b);
  }

  /** Between two colours of the unit cube, every colour of an HSL gradient
      is in the unit cube too. */
  lemma {:induction false} HslGradientInUnitCube(from: RGBColor, to: RGBColor, count: int)
    requires InUnitCube(from) && InUnitCube(to)
    ensures HSLDefined(from) && HSLDefined(to)
    ensures var r := HslGradient(from, to, count);
      forall i :: 0 <= i < |r| ==> InUnitCube(r[i])
  {
    UnitCubeIsConvertible(from);
    UnitCubeIsConvertible(to);
    HslStepsInUnitCube(RGBToHSL(from), RGBToHSL(to), count);
  }

  /** Interpolating between two HSL colours whose saturation and lightness
      are in [0, 100] gives colours of the unit cube, whatever the hues. */
  lemma {:induction false} HslStepsInUnitCube(a: HSLColor, b: HSLColor, count: int)
    requires 0.0 <= a.s <= 100.0 && 0.0 <= a.l <= 100.0
    requires 0.0 <= b.s <= 100.0 && 0.0 <= b.l <= 100.0
    ensures var r := HslSteps(a, b, count);
      forall i :: 0 <= i < |r| ==> InUnitCube(r[i])
  {
    var s := Interpolate(a.s, b.s, count);
    var l := Interpolate(a.l, b.l, count);
    InterpolateBetween(a.s, b.s, count);
    InterpolateBetween(a.l, b.l, count);
    var z := Zip4(InterpolateCircular(a.h, b.h, count), s, l, Interpolate(a.alpha, b.alpha, count));
    var r := HslSteps(a, b, count);
    forall i | 0 <= i < |r|
      ensures InUnitCube(r[i])
    {
      var c := HSLColor(z[i].0, z[i].1, z[i].2, z[i].3);
      assert r[i] == HSLToRGB(c);
      assert c.s == s[i] && c.l == l[i];
      HSLToRGBInUnitCube(c);
    }
  }

  /** Between two colours of the unit cube, every colour of an HSB gradient
      is in the unit cube too. */
  lemma {:induction false} HsbGradientInUnitCube(from: RGBColor, to: RGBColor, count: int)
    requires InUnitCube(from) && InUnitCube(to)
    ensures var r := HsbGradient(from, to, count);
      forall i :: 0 <= i < |r| ==> InUnitCube(r[i])
  {
    HsbStepsInUnitCube(RGBToHSB(from), RGBToHSB(to), count);
  }

  /** Interpolating between two HSB colours whose saturation and brightness
      are in [0, 100] gives colours of the unit cube, whatever the hues. */
  lemma {:induction false} HsbStepsInUnitCube(a: HSBColor, b: HSBColor, count: int)
    requires 0.0 <= a.s <= 100.0 && 0.0 <= a.b <= 100.0
    requires 0.0 <= b.s <= 100.0 && 0.0 <= b.b <= 100.0
    ensures var r := HsbSteps(a, b, count);
      forall i :: 0 <= i < |r| ==> InUnitCube(r[i])
  {
    var s := Interpolate(a.s, b.s, count);
    var v := Interpolate(a.b, b.b, count);
    InterpolateBetween(a.s, b.s, count);
    InterpolateBetween(a.b, b.b, count);
    var z := Zip4(InterpolateCircular(a.h, b.h, count), s, v, Interpolate(a.alpha, b.alpha, count));
    var r := HsbSteps(a, b, count);
    forall i | 0 <= i < |r|
      ensures InUnitCube(r[i])
    {
      var c := HSBColor(z[i].0, z[i].1, z[i].2, z[i].3);
      assert r[i] == HSBToRGB(c);
      assert c.s == s[i] && c.b == v[i];
      HSBToRGBInUnitCube(c);
    }
  }
}
