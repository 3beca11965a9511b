/** Properties of the conversions in `ColorSpace`: exact round trips of the
    rational conversions, their ranges, and the structural facts of the CIE
    chain that hold whatever the transcendental functions compute. */
module ColorSpaceLemmas {
  import opened RealMath
  import opened ColorSpace

  // ---------------------------------------------------------------------
  // HSL and HSB

  /** On the piece `[2k, 2k + 2)` of the hue the second component is
      `d * (1 - |hp - 2k - 1|)`. */
  lemma {:induction false} SecondComponentOnPiece(hp: real, d: real, k: nat)
    requires 2.0 * k as real <= hp < 2.0 * k as real + 2.0
    ensures SecondComponent(hp * 60.0, d) == d * (1.0 - Abs(hp - 2.0 * k as real - 1.0))
  {
    assert hp * 60.0 / 60.0 == hp;
    TruncRem2OnPiece(hp, k);
  }

  // One lemma per branch of `HueSextant`, on plain reals: `t` is the ratio
  // `(p - q) / (max - min)` of the branch and `hp` the hue in sextants.

  lemma {:induction false} RedMaxGreenMin(r: real, g: real, b: real, alpha: real, t: real, hp: real)
    requires g < b <= r && t * (r - g) == g - b && -1.0 <= t < 0.0 && hp == t + 6.0
    ensures ChromaToRGB(hp * 60.0, r - g, g, alpha) == RGBColor(r, g, b, alpha)
  {
    assert hp * 60.0 / 60.0 == hp;
    SecondComponentOnPiece(hp, r - g, 2);
    assert 1.0 - Abs(hp - 5.0) == 0.0 - t;
    assert SecondComponent(hp * 60.0, r - g) == b - g;
    assert 5.0 <= hp < 6.0;
    assert SextantChannels(hp, r - g, b - g, g) == (r, g, b);
  }

  lemma {:induction false} RedMaxBlueMin(r: real, g: real, b: real, alpha: real, t: real, hp: real)
    requires b <= g <= r && b < r && t * (r - b) == g - b && 0.0 <= t <= 1.0 && hp == t
    ensures ChromaToRGB(hp * 60.0, r - b, b, alpha) == RGBColor(r, g, b, alpha)
  {
    assert hp * 60.0 / 60.0 == hp;
    SecondComponentOnPiece(hp, r - b, 0);
    assert 1.0 - Abs(hp - 1.0) == t;
    assert SecondComponent(hp * 60.0, r - b) == g - b;
    if hp == 1.0 {
      assert g == r;
    }
    assert SextantChannels(hp, r - b, g - b, b) == (r, g, b);
  }

  lemma {:induction false} GreenMaxBlueMin(r: real, g: real, b: real, alpha: real, t: real, hp: real)
    requires b < r < g && t * (g - b) == b - r && -1.0 <= t < 0.0 && hp == t + 2.0
    ensures ChromaToRGB(hp * 60.0, g - b, b, alpha) == RGBColor(r, g, b, alpha)
  {
    assert hp * 60.0 / 60.0 == hp;
    SecondComponentOnPiece(hp, g - b, 0);
    assert 1.0 - Abs(hp - 1.0) == 0.0 - t;
    assert SecondComponent(hp * 60.0, g - b) == r - b;
    assert 1.0 <= hp < 2.0;
    assert SextantChannels(hp, g - b, r - b, b) == (r, g, b);
  }

  lemma {:induction false} GreenMaxRedMin(r: real, g: real, b: real, alpha: real, t: real, hp: real)
    requires r <= b <= g && r < g && t * (g - r) == b - r && 0.0 <= t <= 1.0 && hp == t + 2.0
    ensures ChromaToRGB(hp * 60.0, g - r, r, alpha) == RGBColor(r, g, b, alpha)
  {
    assert hp * 60.0 / 60.0 == hp;
    SecondComponentOnPiece(hp, g - r, 1);
    assert 1.0 - Abs(hp - 3.0) == t;
    assert SecondComponent(hp * 60.0, g - r) == b - r;
    if hp == 3.0 {
      assert b == g;
    }
    assert SextantChannels(hp, g - r, b - r, r) == (r, g, b);
  }

  lemma {:induction false} BlueMaxRedMin(r: real, g: real, b: real, alpha: real, t: real, hp: real)
    requires r < g < b && t * (b - r) == r - g && -1.0 <= t < 0.0 && hp == t + 4.0
    ensures ChromaToRGB(hp * 60.0, b - r, r, alpha) == RGBColor(r, g, b, alpha)
  {
    assert hp * 60.0 / 60.0 == hp;
    SecondComponentOnPiece(hp, b - r, 1);
    assert 1.0 - Abs(hp - 3.0) == 0.0 - t;
    assert SecondComponent(hp * 60.0, b - r) == g - r;
    assert 3.0 <= hp < 4.0;
    assert SextantChannels(hp, b - r, g - r, r) == (r, g, b);
  }

  lemma {:induction false} BlueMaxGreenMin(r: real, g: real, b: real, alpha: real, t: real, hp: real)
    requires g <= r < b && t * (b - g) == r - g && 0.0 <= t < 1.0 && hp == t + 4.0
    ensures ChromaToRGB(hp * 60.0, b - g, g, alpha) == RGBColor(r, g, b, alpha)
  {
    assert hp * 60.0 / 60.0 == hp;
    SecondComponentOnPiece(hp, b - g, 2);
    assert 1.0 - Abs(hp - 5.0) == t;
    assert SecondComponent(hp * 60.0, b - g) == r - g;
    assert 4.0 <= hp < 5.0;
    assert SextantChannels(hp, b - g, r - g, g) == (r, g, b);
  }

  /** The common core of both inverse conversions: placing chroma
      `max - min`, the second component computed from the hue, and offset
      `min` by the hue's sextant gives back the channels the hue was computed
      from. */
  lemma {:induction false} SextantRecoversChannels(c: RGBColor)
    requires !IsGray(c)
    ensures ChromaToRGB(HueSextant(c) * 60.0, MaxChannel(c) - MinChannel(c), MinChannel(c), c.alpha) == c
  {
    if MaxChannel(c) == c.r {
      RedMaxRecovers(c);
    } else if MaxChannel(c) == c.g {
      GreenMaxRecovers(c);
    } else {
      BlueMaxRecovers(c);
    }
  }

  lemma {:induction false} RedMaxRecovers(c: RGBColor)
    requires !IsGray(c) && MaxChannel(c) == c.r
    ensures ChromaToRGB(HueSextant(c) * 60.0, MaxChannel(c) - MinChannel(c), MinChannel(c), c.alpha) == c
  {
    var r, g, b := c.r, c.g, c.b;
    var d := MaxChannel(c) - MinChannel(c);
    var t := (g - b) / d;
    QuotientBounds(g - b, d);
    if g < b {
      assert MinChannel(c) == g && d == r - g;
      assert HueSextant(c) == t + 6.0;
      RedMaxGreenMin(r, g, b, c.alpha, t, t + 6.0);
    } else {
      assert MinChannel(c) == b && d == r - b;
      assert HueSextant(c) == t;
      RedMaxBlueMin(r, g, b, c.alpha, t, t);
    }
  }

  lemma {:induction false} GreenMaxRecovers(c: RGBColor)
    requires !IsGray(c) && MaxChannel(c) == c.g && MaxChannel(c) != c.r
    ensures ChromaToRGB(HueSextant(c) * 60.0, MaxChannel(c) - MinChannel(c), MinChannel(c), c.alpha) == c
  {
    var r, g, b := c.r, c.g, c.b;
    var d := MaxChannel(c) - MinChannel(c);
    var t := (b - r) / d;
    QuotientBounds(b - r, d);
    assert HueSextant(c) == t + 2.0;
    if b < r {
      assert MinChannel(c) == b && d == g - b;
      GreenMaxBlueMin(r, g, b, c.alpha, t, t + 2.0);
    } else {
      assert MinChannel(c) == r && d == g - r;
      GreenMaxRedMin(r, g, b, c.alpha, t, t + 2.0);
    }
  }

  lemma {:induction false} BlueMaxRecovers(c: RGBColor)
    requires !IsGray(c) && MaxChannel(c) == c.b && MaxChannel(c) != c.r && MaxChannel(c) != c.g
    ensures ChromaToRGB(HueSextant(c) * 60.0, MaxChannel(c) - MinChannel(c), MinChannel(c), c.alpha) == c
  {
    var r, g, b := c.r, c.g, c.b;
    var d := MaxChannel(c) - MinChannel(c);
    var t := (r - g) / d;
    QuotientBounds(r - g, d);
    assert HueSextant(c) == t + 4.0;
    if r < g {
      assert MinChannel(c) == r && d == b - r;
      BlueMaxRedMin(r, g, b, c.alpha, t, t + 4.0);
    } else {
      assert MinChannel(c) == g && d == b - g;
      BlueMaxGreenMin(r, g, b, c.alpha, t, t + 4.0);
    }
  }

  /** For a non-gray colour, the chroma HSL -> RGB rebuilds from the
      lightness and saturation `toHSL` produced is `max - min`. */
  lemma {:induction false} HSLChromaIsSpread(mx: real, mn: real, l: real, s: real)
    requires mn < mx && l == (mx + mn) / 2.0
    requires l > 0.5 ==> 2.0 - mx - mn != 0.0 && s == (mx - mn) / (2.0 - mx - mn)
    requires l <= 0.5 ==> mx + mn != 0.0 && s == (mx - mn) / (mx + mn)
    ensures HSLChroma(l * 100.0, s * 100.0) == mx - mn
  {
    var e := if l > 0.5 then 2.0 - mx - mn else mx + mn;
    assert 1.0 - Abs(2.0 * (l * 100.0 / 100.0) - 1.0) == e;
    assert s * 100.0 / 100.0 == (mx - mn) / e;
    assert e * ((mx - mn) / e) == mx - mn;
  }

  /** RGB -> HSL -> RGB gives back the colour exactly, for every colour on
      which `toHSL` does not divide by zero. */
  lemma {:induction false} HSLRoundTrip(c: RGBColor)
    requires HSLDefined(c)
    ensures HSLToRGB(RGBToHSL(c)) == c
  {
    if IsGray(c) {
      GrayHSLRoundTrip(c);
    } else {
      ChromaticHSLRoundTrip(c);
    }
  }

  /** A gray colour comes back from HSL through the zero-saturation branch. */
  lemma {:induction false} GrayHSLRoundTrip(c: RGBColor)
    requires IsGray(c)
    ensures HSLToRGB(RGBToHSL(c)) == c
  {
    var mx := MaxChannel(c);
    assert c.r == mx && c.g == mx && c.b == mx;
    assert RGBToHSL(c) == HSLColor(0.0, 0.0, mx * 100.0, c.alpha);
  }

  /** A colour with a hue comes back from HSL: the rebuilt chroma is
      `max - min` and the offset `min`. */
  lemma {:induction false} ChromaticHSLRoundTrip(c: RGBColor)
    requires HSLDefined(c) && !IsGray(c)
    ensures HSLToRGB(RGBToHSL(c)) == c
  {
    var hsl := RGBToHSL(c);
    var mx, mn := MaxChannel(c), MinChannel(c);
    var d := mx - mn;
    var l := (mx + mn) / 2.0;
    var s := if l > 0.5 then d / (2.0 - mx - mn) else d / (mx + mn);
    var hp := HueSextant(c);
    assert hsl == HSLColor(hp / 6.0 * 360.0, s * 100.0, l * 100.0, c.alpha);
    HSLChromaIsSpread(mx, mn, l, s);
    HSLToRGBByChroma(hsl, hp, d, mn);
    SextantRecoversChannels(c);
  }

  /** A saturated HSL colour whose chroma is `d` and whose lightness leaves
      offset `mn` is converted by `ChromaToRGB`. */
  lemma HSLToRGBByChroma(hsl: HSLColor, hp: real, d: real, mn: real)
    requires hsl.s != 0.0 && hsl.h == hp / 6.0 * 360.0
    requires HSLChroma(hsl.l, hsl.s) == d && hsl.l / 100.0 - d / 2.0 == mn
    ensures HSLToRGB(hsl) == ChromaToRGB(hp * 60.0, d, mn, hsl.alpha)
  {
  }

  /** RGB -> HSB -> RGB gives back the colour exactly, unless the largest
      channel is zero on a colour that is not gray (possible only with
      negative channels): there `toHSB` sets the saturation to zero. */
  lemma {:induction false} HSBRoundTrip(c: RGBColor)
    requires IsGray(c) || MaxChannel(c) != 0.0
    ensures HSBToRGB(RGBToHSB(c)) == c
  {
    if IsGray(c) {
      GrayHSBRoundTrip(c);
    } else {
      ChromaticHSBRoundTrip(c);
    }
  }

  /** A gray colour comes back from HSB through the zero-chroma path. */
  lemma {:induction false} GrayHSBRoundTrip(c: RGBColor)
    requires IsGray(c)
    ensures HSBToRGB(RGBToHSB(c)) == c
  {
    var mx := MaxChannel(c);
    assert c.r == mx && c.g == mx && c.b == mx;
    assert RGBToHSB(c) == HSBColor(0.0, 0.0, mx * 100.0, c.alpha);
  }

  /** A colour with a hue comes back from HSB: its chroma is `max - min`
      and its offset `min`. */
  lemma {:induction false} ChromaticHSBRoundTrip(c: RGBColor)
    requires !IsGray(c) && MaxChannel(c) != 0.0
    ensures HSBToRGB(RGBToHSB(c)) == c
  {
    var hsb := RGBToHSB(c);
    var mx, mn := MaxChannel(c), MinChannel(c);
    var hp := HueSextant(c);
    assert hsb == HSBColor(hp / 6.0 * 360.0, (mx - mn) / mx * 100.0, mx * 100.0, c.alpha);
    HSBChromaOfSpread(mx, mn);
    assert HSBToRGB(hsb) == ChromaToRGB(hp * 60.0, mx - mn, mn, c.alpha);
    SextantRecoversChannels(c);
  }

  /** The HSB chroma rebuilt from the saturation `(max - min) / max` and
      brightness `max` is `max - min`. */
  lemma HSBChromaOfSpread(mx: real, mn: real)
    requires mx != 0.0
    ensures HSBChroma(mx * 100.0, (mx - mn) / mx * 100.0) == mx - mn
  {
    assert mx * ((mx - mn) / mx) == mx - mn;
  }

  /** Full lightness is white and zero lightness black, whatever the hue
      and saturation: the chroma vanishes at both ends. */
  lemma {:induction false} HSLExtremeLightness(c: HSLColor)
    ensures c.l == 100.0 ==> HSLToRGB(c) == RGBColor(1.0, 1.0, 1.0, c.alpha)
    ensures c.l == 0.0 ==> HSLToRGB(c) == RGBColor(0.0, 0.0, 0.0, c.alpha)
  {
    if c.s != 0.0 && (c.l == 100.0 || c.l == 0.0) {
      var m := c.l / 100.0;
      assert HSLChroma(c.l, c.s) == 0.0;
      assert SecondComponent(c.h, 0.0) == 0.0;
      assert HSLToRGB(c) == ChromaToRGB(c.h, 0.0, m, c.alpha);
      assert SextantChannels(c.h / 60.0, 0.0, 0.0, m) == (m, m, m);
    }
  }

  /** Zero brightness is black whatever the hue and saturation. */
  lemma {:induction false} HSBZeroBrightness(c: HSBColor)
    ensures c.b == 0.0 ==> HSBToRGB(c) == RGBColor(0.0, 0.0, 0.0, c.alpha)
  {
    if c.b == 0.0 {
      assert HSBChroma(c.b, c.s) == 0.0;
      assert SecondComponent(c.h, 0.0) == 0.0;
      assert HSBToRGB(c) == ChromaToRGB(c.h, 0.0, 0.0, c.alpha);
      assert SextantChannels(c.h / 60.0, 0.0, 0.0, 0.0) == (0.0, 0.0, 0.0);
    }
  }

  /** The condition of `HSBRoundTrip` cannot be dropped: black-ish colours
      with negative channels lose their chroma. */
  lemma HSBRoundTripNeedsNonZeroMax()
    ensures HSBToRGB(RGBToHSB(RGBColor(0.0, -1.0, -1.0, 1.0))) == RGBColor(0.0, 0.0, 0.0, 1.0)
  {
    var c := RGBColor(0.0, -1.0, -1.0, 1.0);
    assert MaxChannel(c) == 0.0 && MinChannel(c) == -1.0;
    var hsb := RGBToHSB(c);
    assert hsb.s == 0.0 && hsb.b == 0.0 && hsb.alpha == 1.0;
    var back := HSBToRGB(hsb);
    assert back.r == 0.0 && back.g == 0.0 && back.b == 0.0 && back.alpha == 1.0;
  }

  /** On the documented range `toHSL` never divides by zero and
      `toHSB` keeps its round trip. */
  lemma UnitCubeIsConvertible(c: RGBColor)
    requires InUnitCube(c)
    ensures HSLDefined(c)
    ensures IsGray(c) || MaxChannel(c) != 0.0
  {
  }

  /** The HSL chroma is the room `1 - |2l - 1|` around the lightness, scaled
      by the saturation, so it never exceeds that room. */
  lemma HSLChromaBelowRoom(l: real, s: real)
    requires 0.0 <= s <= 100.0 && 0.0 <= l <= 100.0
    ensures 0.0 <= HSLChroma(l, s) <= LightnessRoom(l)
  {
    ScaleBelow(LightnessRoom(l), s / 100.0, HSLChroma(l, s));
  }

  /** A chroma no wider than the room `w` around the lightness fits on both
      sides of it. */
  lemma HalfChromaFits(nl: real, w: real, ch: real)
    requires 0.0 <= ch <= w && w / 2.0 <= nl && nl + w / 2.0 <= 1.0
    ensures 0.0 <= nl - ch / 2.0 && nl + ch / 2.0 <= 1.0
  {
  }

  /** On the documented ranges the HSL chroma is non-negative and leaves
      room for half of it on both sides of the lightness. */
  lemma HSLChromaBounds(l: real, s: real)
    requires 0.0 <= s <= 100.0 && 0.0 <= l <= 100.0
    ensures var ch := HSLChroma(l, s);
      0.0 <= ch && 0.0 <= l / 100.0 - ch / 2.0 && l / 100.0 + ch / 2.0 <= 1.0
  {
    HSLChromaBelowRoom(l, s);
    HalfChromaFits(l / 100.0, LightnessRoom(l), HSLChroma(l, s));
  }

  /** HSL -> RGB maps the documented HSL ranges into the RGB unit cube,
      whatever the hue. */
  lemma {:induction false} HSLToRGBInUnitCube(c: HSLColor)
    requires 0.0 <= c.s <= 100.0 && 0.0 <= c.l <= 100.0
    ensures InUnitCube(HSLToRGB(c))
  {
    if c.s != 0.0 {
      HSLChromaBounds(c.l, c.s);
      var ch := HSLChroma(c.l, c.s);
      assert HSLToRGB(c) == ChromaToRGB(c.h, ch, c.l / 100.0 - ch / 2.0, c.alpha);
    }
  }

  /** HSB -> RGB maps the documented HSB ranges into the RGB unit cube,
      whatever the hue. */
  lemma {:induction false} HSBToRGBInUnitCube(c: HSBColor)
    requires 0.0 <= c.s <= 100.0 && 0.0 <= c.b <= 100.0
    ensures InUnitCube(HSBToRGB(c))
  {
    HSBChromaBounds(c.b, c.s);
    var ch := HSBChroma(c.b, c.s);
    assert HSBToRGB(c) == ChromaToRGB(c.h, ch, c.b / 100.0 - ch, c.alpha);
  }

  /** On the documented ranges the HSB chroma is non-negative and at most
      the brightness. */
  lemma HSBChromaBounds(b: real, s: real)
    requires 0.0 <= s <= 100.0 && 0.0 <= b <= 100.0
    ensures var ch := HSBChroma(b, s);
      0.0 <= ch && 0.0 <= b / 100.0 - ch && b / 100.0 <= 1.0
  {
    ScaleBelow(b / 100.0, s / 100.0, HSBChroma(b, s));
  }

  // ---------------------------------------------------------------------
  // The CIE chain

  /** Both sRGB companding functions are odd. */
  lemma SRGBCompandingIsOdd(m: Maths, v: real)
    ensures SRGBToLinear(m, -v) == -SRGBToLinear(m, v)
    ensures LinearToSRGB(m, -v) == -LinearToSRGB(m, v)
  {
  }

  /** The linear segments of the two companding functions undo each other:
      encoding then decoding is exact up to the encoding breakpoint 0.0031308,
      decoding then encoding up to 0.0031308 * 12.92 = 0.040449936 (just
      below the decoding breakpoint 0.04045, where the two branches of the
      sRGB curve do not meet exactly). */
  lemma SRGBLinearSegmentsInverse(m: Maths, v: real)
    ensures Abs(v) <= 0.0031308 ==> SRGBToLinear(m, LinearToSRGB(m, v)) == v
    ensures Abs(v) <= 0.040449936 ==> LinearToSRGB(m, SRGBToLinear(m, v)) == v
  {
  }

  /** On its linear segment the CIE lightness function is undone by
      `xyzCompand`: the cube of `f(v)` stays at or below the breakpoint for
      every `v` at or below it. */
  lemma {:induction false} LabSegmentRoundTrip(m: Maths, v: real)
    requires v <= LabE
    ensures XyzCompand(LabCompand(m, v)) == v
  {
    var w := LabCompand(m, v);
    var wE := LabK116 * LabE + Lab16Over116;
    assert w <= wE;
    assert wE * wE * wE <= LabE;
    if w >= 0.0 {
      CubeMono(w, wE);
    } else {
      assert w * w >= 0.0;
      assert w * w * w <= 0.0;
    }
  }

  /** Dark colours, whose normalised XYZ channels all lie on the linear
      segment of `f`, go XYZ -> LAB -> XYZ exactly; no `pow` is involved. */
  lemma {:induction false} DarkXYZRoundTripsThroughLAB(m: Maths, c: XYZColor)
    requires c.x / LabX <= LabE && c.y / LabY <= LabE && c.z / LabZ <= LabE
    ensures LABToXYZ(XYZToLAB(m, c)) == c
  {
    var fx := LabCompand(m, c.x / LabX);
    var fy := LabCompand(m, c.y / LabY);
    var fz := LabCompand(m, c.z / LabZ);
    LabSegmentRoundTrip(m, c.x / LabX);
    LabSegmentRoundTrip(m, c.y / LabY);
    LabSegmentRoundTrip(m, c.z / LabZ);
    var lab := XYZToLAB(m, c);
    assert (lab.l + 16.0) / 116.0 == fy;
    assert fy + lab.a / 500.0 == fx;
    assert fy - lab.b / 200.0 == fz;
  }

  /** Black goes to L*a*b* with a = b = 0 and lightness within the 0.5
      tolerance of 0, and comes back to black exactly. */
  lemma BlackThroughLAB(m: Maths, alpha: real)
    ensures var lab := RGBToLAB(m, RGBColor(0.0, 0.0, 0.0, alpha));
      lab.a == 0.0 && lab.b == 0.0 && -0.5 < lab.l < 0.5
      && LABToRGB(m, lab) == RGBColor(0.0, 0.0, 0.0, alpha)
  {
    var lab := RGBToLAB(m, RGBColor(0.0, 0.0, 0.0, alpha));
    assert RGBToXYZ(m, RGBColor(0.0, 0.0, 0.0, alpha)) == XYZColor(0.0, 0.0, 0.0, alpha);
    DarkXYZRoundTripsThroughLAB(m, XYZColor(0.0, 0.0, 0.0, alpha));
  }
}
