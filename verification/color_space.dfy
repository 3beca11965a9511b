/** The colour representations of SmoothGradient and the conversions between
    them, over exact reals.

    RGB <-> HSL and RGB <-> HSB use only max/min, field operations, `abs` and a
    truncating remainder, and are modelled exactly. The CIE chain
    RGB <-> XYZ <-> LAB <-> LCH also needs `pow`, `sqrt`, `atan2`, `sin`, `cos`
    and pi; those are supplied by the caller as a `Maths` record, so every fact
    proved about the chain holds whatever those functions compute. */
module ColorSpace {
  import opened RealMath

  type Positive = x: real | x > 0.0 witness 1.0

  /** The transcendental functions the CIE conversions call. */
  datatype Maths = Maths(
    pow: (real, real) -> real,
    sqrt: real -> real,
    atan2: (real, real) -> real,
    sin: real -> real,
    cos: real -> real,
    pi: Positive)

  /** sRGB, channels nominally in [0, 1] (not enforced). */
  datatype RGBColor = RGBColor(r: real, g: real, b: real, alpha: real)
  /** CIE 1931 XYZ, D65 reference white. */
  datatype XYZColor = XYZColor(x: real, y: real, z: real, alpha: real)
  /** CIE L*a*b*. */
  datatype LABColor = LABColor(l: real, a: real, b: real, alpha: real)
  /** Polar L*a*b*: lightness, chroma, hue in degrees. */
  datatype LCHColor = LCHColor(l: real, c: real, h: real, alpha: real)
  /** Hue in degrees, saturation and lightness in [0, 100]. */
  datatype HSLColor = HSLColor(h: real, s: real, l: real, alpha: real)
  /** Hue in degrees, saturation and brightness in [0, 100]. */
  datatype HSBColor = HSBColor(h: real, s: real, b: real, alpha: real)

  // CIE L*a*b* constants: the breakpoint, 16/116, the slope of the linear
  // segment, and the D65 reference white.
  const LabE: real := 0.008856
  const Lab16Over116: real := 0.1379310
  const LabK116: real := 7.787036
  const LabX: real := 0.95047
  const LabY: real := 1.0
  const LabZ: real := 1.08883

  /** Every channel in [0, 1]: the documented range of an RGB colour. */
  predicate InUnitCube(c: RGBColor) {
    0.0 <= c.r <= 1.0 && 0.0 <= c.g <= 1.0 && 0.0 <= c.b <= 1.0
  }

  /** The largest colour channel (alpha aside). */
  function MaxChannel(c: RGBColor): (mx: real)
    ensures mx >= c.r && mx >= c.g && mx >= c.b
    ensures mx == c.r || mx == c.g || mx == c.b
  {
    Max3(c.r, c.g, c.b)
  }

  /** The smallest colour channel (alpha aside). */
  function MinChannel(c: RGBColor): (mn: real)
    ensures mn <= c.r && mn <= c.g && mn <= c.b
    ensures mn == c.r || mn == c.g || mn == c.b
  {
    Min3(c.r, c.g, c.b)
  }

  /** All three channels equal: no hue is defined. */
  predicate IsGray(c: RGBColor) { MaxChannel(c) == MinChannel(c) }

  // ---------------------------------------------------------------------
  // RGB -> HSL / HSB

  /** The hue of a non-gray colour in sextants (sixths of the circle), before
      the division by 6 shared by `toHSL` and `toHSB`: the branch is chosen by
      which channel is the maximum, red first, then green, then blue. */
  function HueSextant(c: RGBColor): (h: real)
    requires !IsGray(c)
    ensures 0.0 <= h < 6.0
  {
    var mx := MaxChannel(c);
    var d := mx - MinChannel(c);
    QuotientBounds(c.g - c.b, d);
    QuotientBounds(c.b - c.r, d);
    QuotientBounds(c.r - c.g, d);
    if mx == c.r then (c.g - c.b) / d + (if c.g < c.b then 6.0 else 0.0)
    else if mx == c.g then (c.b - c.r) / d + 2.0
    else if mx == c.b then (c.r - c.g) / d + 4.0
    else 0.0
  }

  /** `toHSL` divides by `2 - max - min` when the lightness exceeds one half
      and by `max + min` otherwise; this holds exactly when that divisor is
      not zero (or the colour is gray and no division happens). */
  predicate HSLDefined(c: RGBColor): (ok: bool)
    ensures ok <==> IsGray(c) || (MaxChannel(c) + MinChannel(c) != 0.0 && MaxChannel(c) + MinChannel(c) != 2.0)
    ensures InUnitCube(c) ==> ok
  {
    var mx := MaxChannel(c);
    var mn := MinChannel(c);
    mx == mn || (if (mx + mn) / 2.0 > 0.5 then 2.0 - mx - mn != 0.0 else mx + mn != 0.0)
  }

  /** The HSL saturation of a non-gray colour is never zero, and lies in
      [0, 1] when the channels do. */
  lemma HSLSaturationBounds(mx: real, mn: real)
    requires mn < mx
    requires (mx + mn) / 2.0 > 0.5 ==> 2.0 - mx - mn != 0.0
    requires (mx + mn) / 2.0 <= 0.5 ==> mx + mn != 0.0
    ensures var s := if (mx + mn) / 2.0 > 0.5 then (mx - mn) / (2.0 - mx - mn) else (mx - mn) / (mx + mn);
      s != 0.0 && (0.0 <= mn && mx <= 1.0 ==> 0.0 <= s <= 1.0)
  {
    var e := if (mx + mn) / 2.0 > 0.5 then 2.0 - mx - mn else mx + mn;
    assert (mx - mn) / e * e == mx - mn;
    if 0.0 <= mn && mx <= 1.0 {
      QuotientBounds(mx - mn, e);
    }
  }

  /** RGBColor.toHSL. */
  function RGBToHSL(c: RGBColor): (r: HSLColor)
    requires HSLDefined(c)
    ensures r.alpha == c.alpha
    ensures 0.0 <= r.h < 360.0
    ensures IsGray(c) ==> r.h == 0.0 && r.s == 0.0 && r.l == 100.0 * c.r
    ensures !IsGray(c) ==> r.s != 0.0
    ensures InUnitCube(c) ==> 0.0 <= r.s <= 100.0 && 0.0 <= r.l <= 100.0
  {
    var mx := MaxChannel(c);
    var mn := MinChannel(c);
    var l := (mx + mn) / 2.0;
    var d := mx - mn;
    if mx == mn then
      HSLColor(0.0, 0.0, l * 100.0, c.alpha)
    else
      var s := if l > 0.5 then d / (2.0 - mx - mn) else d / (mx + mn);
      HSLSaturationBounds(mx, mn);
      var h := HueSextant(c) / 6.0;
      HSLColor(h * 360.0, s * 100.0, l * 100.0, c.alpha)
  }

  /** RGBColor.toHSB. Defined for every colour: the saturation division is
      guarded by `max == 0`. */
  function RGBToHSB(c: RGBColor): (r: HSBColor)
    ensures r.alpha == c.alpha
    ensures 0.0 <= r.h < 360.0
    ensures r.b == 100.0 * MaxChannel(c)
    ensures IsGray(c) ==> r.h == 0.0 && r.s == 0.0
    ensures InUnitCube(c) ==> 0.0 <= r.s <= 100.0 && 0.0 <= r.b <= 100.0
  {
    var mx := MaxChannel(c);
    var mn := MinChannel(c);
    var d := mx - mn;
    if d == 0.0 then
      HSBColor(0.0, 0.0, mx * 100.0, c.alpha)
    else
      var s := if mx == 0.0 then 0.0 else d / mx;
      assert InUnitCube(c) ==> 0.0 <= s <= 1.0 by {
        if InUnitCube(c) && mx != 0.0 {
          QuotientBounds(d, mx);
        }
      }
      var h := HueSextant(c) / 6.0;
      HSBColor(h * 360.0, s * 100.0, mx * 100.0, c.alpha)
  }

  // ---------------------------------------------------------------------
  // HSL / HSB -> RGB

  /** The channel assignment shared by HSL and HSB: chroma `c`, second
      largest component `x` and offset `m` are placed by the 60-degree sextant
      `k <= hp < k + 1` of the hue `hp = h / 60`; outside [0, 6) every channel
      is `m`. */
  function SextantChannels(hp: real, c: real, x: real, m: real): (rgb: (real, real, real))
    ensures (hp < 0.0 || 6.0 <= hp) ==> rgb == (m, m, m)
    ensures 0.0 <= x <= c ==>
      m <= rgb.0 <= c + m && m <= rgb.1 <= c + m && m <= rgb.2 <= c + m
  {
    if 0.0 <= hp < 1.0 then (c + m, x + m, 0.0 + m)
    else if 1.0 <= hp < 2.0 then (x + m, c + m, 0.0 + m)
    else if 2.0 <= hp < 3.0 then (0.0 + m, c + m, x + m)
    else if 3.0 <= hp < 4.0 then (0.0 + m, x + m, c + m)
    else if 4.0 <= hp < 5.0 then (x + m, 0.0 + m, c + m)
    else if 5.0 <= hp < 6.0 then (c + m, 0.0 + m, x + m)
    else (m, m, m)
  }

  /** The second largest component `c * (1 - |(h/60 mod 2) - 1|)`. */
  function SecondComponent(h: real, c: real): (x: real)
    ensures 0.0 <= h && 0.0 <= c ==> 0.0 <= x <= c
  {
    var f := 1.0 - Abs(TruncRem2(h / 60.0) - 1.0);
    assert 0.0 <= h && 0.0 <= c ==> 0.0 <= c * f <= c by {
      if 0.0 <= h && 0.0 <= c {
        ScaleBelow(c, f, c * f);
      }
    }
    c * f
  }

  /** The colour with hue `h` (degrees), chroma `ch` and offset `m`, the
      last step shared by HSL -> RGB and HSB -> RGB. */
  function ChromaToRGB(h: real, ch: real, m: real, alpha: real): (r: RGBColor)
    ensures r.alpha == alpha
    ensures (h < 0.0 || 360.0 <= h) ==> r.r == r.g == r.b == m
    ensures 0.0 <= ch ==>
      m <= r.r <= ch + m && m <= r.g <= ch + m && m <= r.b <= ch + m
  {
    var x := SecondComponent(h, ch);
    var rgb := SextantChannels(h / 60.0, ch, x, m);
    RGBColor(rgb.0, rgb.1, rgb.2, alpha)
  }

  /** The room `1 - |2l - 1|` an HSL lightness leaves for the chroma, on the
      unit scale: largest at half lightness, none at black or white. */
  function LightnessRoom(l: real): (w: real)
    ensures 0.0 <= l <= 100.0 ==> 0.0 <= w <= 1.0 && w / 2.0 <= l / 100.0 && l / 100.0 + w / 2.0 <= 1.0
    ensures w == 0.0 <==> l == 0.0 || l == 100.0
  {
    1.0 - Abs(2.0 * (l / 100.0) - 1.0)
  }

  /** The chroma `(1 - |2l - 1|) * s` of an HSL colour, on the unit scale:
      zero, so that the colour is gray, exactly for zero saturation, black
      and white. */
  function HSLChroma(l: real, s: real): (ch: real)
    ensures ch == 0.0 <==> s == 0.0 || l == 0.0 || l == 100.0
  {
    ZeroProduct(LightnessRoom(l), s / 100.0);
    LightnessRoom(l) * (s / 100.0)
  }

  /** The chroma `b * s` of an HSB colour, on the unit scale: zero exactly
      for zero saturation or zero brightness. */
  function HSBChroma(b: real, s: real): (ch: real)
    ensures ch == 0.0 <==> b == 0.0 || s == 0.0
  {
    ZeroProduct(b / 100.0, s / 100.0);
    (b / 100.0) * (s / 100.0)
  }

  /** HSLColor.toRGB. */
  function HSLToRGB(c: HSLColor): (r: RGBColor)
    ensures r.alpha == c.alpha
    ensures c.s == 0.0 ==> r.r == r.g == r.b == c.l / 100.0
    ensures (c.h < 0.0 || 360.0 <= c.h) ==> r.r == r.g == r.b
  {
    var nl := c.l / 100.0;
    if c.s == 0.0 then
      RGBColor(nl, nl, nl, c.alpha)
    else
      var ch := HSLChroma(c.l, c.s);
      ChromaToRGB(c.h, ch, nl - ch / 2.0, c.alpha)
  }

  /** HSBColor.toRGB. No special case for zero saturation: the chroma is then
      zero and every sextant yields gray. */
  function HSBToRGB(c: HSBColor): (r: RGBColor)
    ensures r.alpha == c.alpha
    ensures c.s == 0.0 ==> r.r == r.g == r.b == c.b / 100.0
    ensures (c.h < 0.0 || 360.0 <= c.h) ==> r.r == r.g == r.b
  {
    var ch := HSBChroma(c.b, c.s);
    ChromaToRGB(c.h, ch, c.b / 100.0 - ch, c.alpha)
  }

  // ---------------------------------------------------------------------
  // The CIE chain

  /** RGBColor.sRGBCompand: sRGB decoding (companded to linear), odd in `v`. */
  function SRGBToLinear(m: Maths, v: real): (r: real)
    ensures Abs(v) <= 0.04045 ==> r == v / 12.92
  {
    var absV := Abs(v);
    var out := if absV > 0.04045 then m.pow((absV + 0.055) / 1.055, 2.4) else absV / 12.92;
    if v > 0.0 then out else -out
  }

  /** XYZColor.sRGBCompand: sRGB encoding (linear to companded), odd in `v`. */
  function LinearToSRGB(m: Maths, v: real): (r: real)
    ensures Abs(v) <= 0.0031308 ==> r == v * 12.92
  {
    var absV := Abs(v);
    var out := if absV > 0.0031308 then 1.055 * m.pow(absV, 1.0 / 2.4) - 0.055 else absV * 12.92;
    if v > 0.0 then out else -out
  }

  /** XYZColor.labCompand: the CIE lightness function `f`. */
  function LabCompand(m: Maths, v: real): (r: real)
    ensures v <= LabE ==> r == LabK116 * v + Lab16Over116
  {
    if v > LabE then m.pow(v, 1.0 / 3.0) else (LabK116 * v) + Lab16Over116
  }

  /** LABColor.xyzCompand: the inverse of `f`; rational, needs no `pow`. */
  function XyzCompand(v: real): (r: real)
    ensures v * v * v <= LabE ==> LabK116 * r + Lab16Over116 == v
  {
    var v3 := v * v * v;
    if v3 > LabE then v3 else (v - Lab16Over116) / LabK116
  }

  /** RGBColor.toXYZ: decode each channel, then the sRGB D65 matrix. */
  function RGBToXYZ(m: Maths, c: RGBColor): (r: XYZColor)
    ensures r.alpha == c.alpha
  {
    var rl := SRGBToLinear(m, c.r);
    var gl := SRGBToLinear(m, c.g);
    var bl := SRGBToLinear(m, c.b);
    XYZColor(
      (rl * 0.4124564) + (gl * 0.3575761) + (bl * 0.1804375),
      (rl * 0.2126729) + (gl * 0.7151522) + (bl * 0.0721750),
      (rl * 0.0193339) + (gl * 0.1191920) + (bl * 0.9503041),
      c.alpha)
  }

  /** XYZColor.toRGB: the inverse matrix, then encode each channel. */
  function XYZToRGB(m: Maths, c: XYZColor): (r: RGBColor)
    ensures r.alpha == c.alpha
  {
    var rl := (c.x * 3.2404542) + (c.y * -1.5371385) + (c.z * -0.4985314);
    var gl := (c.x * -0.9692660) + (c.y * 1.8760108) + (c.z * 0.0415560);
    var bl := (c.x * 0.0556434) + (c.y * -0.2040259) + (c.z * 1.0572252);
    RGBColor(LinearToSRGB(m, rl), LinearToSRGB(m, gl), LinearToSRGB(m, bl), c.alpha)
  }

  /** XYZColor.toLAB. */
  function XYZToLAB(m: Maths, c: XYZColor): (r: LABColor)
    ensures r.alpha == c.alpha
    ensures c.x / LabX == c.y / LabY == c.z / LabZ ==> r.a == 0.0 && r.b == 0.0
  {
    var fx := LabCompand(m, c.x / LabX);
    var fy := LabCompand(m, c.y / LabY);
    var fz := LabCompand(m, c.z / LabZ);
    LABColor(116.0 * fy - 16.0, 500.0 * (fx - fy), 200.0 * (fy - fz), c.alpha)
  }

  /** LABColor.toXYZ. */
  function LABToXYZ(c: LABColor): (r: XYZColor)
    ensures r.alpha == c.alpha
  {
    var y := (c.l + 16.0) / 116.0;
    var x := y + (c.a / 500.0);
    var z := y - (c.b / 200.0);
    XYZColor(XyzCompand(x) * LabX, XyzCompand(y) * LabY, XyzCompand(z) * LabZ, c.alpha)
  }

  /** LABColor.toLCH: chroma is the length of (a, b), hue its angle in
      degrees, moved up by 360 when negative. */
  function LABToLCH(m: Maths, c: LABColor): (r: LCHColor)
    ensures r.alpha == c.alpha
    ensures r.l == c.l
  {
    var ch := m.sqrt(c.a * c.a + c.b * c.b);
    var angle := m.atan2(c.b, c.a) * (180.0 / m.pi);
    var h := if angle < 0.0 then angle + 360.0 else angle;
    LCHColor(c.l, ch, h, c.alpha)
  }

  /** LCHColor.toLAB. */
  function LCHToLAB(m: Maths, c: LCHColor): (r: LABColor)
    ensures r.alpha == c.alpha
    ensures r.l == c.l
  {
    var rad := c.h / (180.0 / m.pi);
    LABColor(c.l, m.cos(rad) * c.c, m.sin(rad) * c.c, c.alpha)
  }

  /** RGBColor.toLAB, via XYZ. */
  function RGBToLAB(m: Maths, c: RGBColor): (r: LABColor)
    ensures r.alpha == c.alpha
  {
    XYZToLAB(m, RGBToXYZ(m, c))
  }

  /** XYZColor.toLCH, via LAB. */
  function XYZToLCH(m: Maths, c: XYZColor): (r: LCHColor)
    ensures r.alpha == c.alpha
  {
    LABToLCH(m, XYZToLAB(m, c))
  }

  /** RGBColor.toLCH, via XYZ. */
  function RGBToLCH(m: Maths, c: RGBColor): (r: LCHColor)
    ensures r.alpha == c.alpha
  {
    XYZToLCH(m, RGBToXYZ(m, c))
  }

  /** LABColor.toRGB, via XYZ. */
  function LABToRGB(m: Maths, c: LABColor): (r: RGBColor)
    ensures r.alpha == c.alpha
  {
    XYZToRGB(m, LABToXYZ(c))
  }

  /** LCHColor.toXYZ, via LAB. */
  function LCHToXYZ(m: Maths, c: LCHColor): (r: XYZColor)
    ensures r.alpha == c.alpha
  {
    LABToXYZ(LCHToLAB(m, c))
  }

  /** LCHColor.toRGB, via LAB and XYZ. */
  function LCHToRGB(m: Maths, c: LCHColor): (r: RGBColor)
    ensures r.alpha == c.alpha
  {
    XYZToRGB(m, LCHToXYZ(m, c))
  }
}
