/** The conversion cases of the package's own checks
    (`testRGBtoHSL`, `testHSLtoRGB`, `testRGBtoHSB`, `testHSBtoRGB`).
    Those checks compare colours with a tolerance: 0.5 for every HSL and HSB
    component, 0.01 for every RGB channel. The primaries, white and black
    hold exactly; the other three colours hold within the tolerance.
    Every case is stated for any alpha, which the conversions carry through
    unchanged. */
module ConversionExamples {
  import opened RealMath
  import opened ColorSpace
  import opened ColorSpaceLemmas

  /** The checks' equality of RGB colours: every channel within 0.01. */
  predicate RGBClose(a: RGBColor, b: RGBColor): (close: bool)
    ensures a == b ==> close
  {
    Abs(a.r - b.r) < 0.01 && Abs(a.g - b.g) < 0.01 && Abs(a.b - b.b) < 0.01
    && Abs(a.alpha - b.alpha) < 0.01
  }

  /** The checks' equality of HSL colours: every component within 0.5. */
  predicate HSLClose(a: HSLColor, b: HSLColor): (close: bool)
    ensures a == b ==> close
  {
    Abs(a.h - b.h) < 0.5 && Abs(a.s - b.s) < 0.5 && Abs(a.l - b.l) < 0.5
    && Abs(a.alpha - b.alpha) < 0.5
  }

  /** The checks' equality of HSB colours: every component within 0.5. */
  predicate HSBClose(a: HSBColor, b: HSBColor): (close: bool)
    ensures a == b ==> close
  {
    Abs(a.h - b.h) < 0.5 && Abs(a.s - b.s) < 0.5 && Abs(a.b - b.b) < 0.5
    && Abs(a.alpha - b.alpha) < 0.5
  }

  // ---------------------------------------------------------------------
  // RGB -> HSL and RGB -> HSB

  /** Red is hue 0 at full saturation, with half lightness and full brightness. */
  lemma RedToHSLAndHSB(alpha: real)
    ensures RGBToHSL(RGBColor(1.0, 0.0, 0.0, alpha)) == HSLColor(0.0, 100.0, 50.0, alpha)
    ensures RGBToHSB(RGBColor(1.0, 0.0, 0.0, alpha)) == HSBColor(0.0, 100.0, 100.0, alpha)
  {
    var c := RGBColor(1.0, 0.0, 0.0, alpha);
    assert MaxChannel(c) == 1.0 && MinChannel(c) == 0.0;
    assert HueSextant(c) == 0.0;
  }

  /** Green is hue 120 at full saturation, with half lightness and full brightness. */
  lemma GreenToHSLAndHSB(alpha: real)
    ensures RGBToHSL(RGBColor(0.0, 1.0, 0.0, alpha)) == HSLColor(120.0, 100.0, 50.0, alpha)
    ensures RGBToHSB(RGBColor(0.0, 1.0, 0.0, alpha)) == HSBColor(120.0, 100.0, 100.0, alpha)
  {
    var c := RGBColor(0.0, 1.0, 0.0, alpha);
    assert MaxChannel(c) == 1.0 && MinChannel(c) == 0.0;
    assert HueSextant(c) == 2.0;
  }

  /** Blue is hue 240 at full saturation, with half lightness and full brightness. */
  lemma BlueToHSLAndHSB(alpha: real)
    ensures RGBToHSL(RGBColor(0.0, 0.0, 1.0, alpha)) == HSLColor(240.0, 100.0, 50.0, alpha)
    ensures RGBToHSB(RGBColor(0.0, 0.0, 1.0, alpha)) == HSBColor(240.0, 100.0, 100.0, alpha)
  {
    var c := RGBColor(0.0, 0.0, 1.0, alpha);
    assert MaxChannel(c) == 1.0 && MinChannel(c) == 0.0;
    assert HueSextant(c) == 4.0;
  }

  /** White and black have hue and saturation 0 and extreme lightness and
      brightness. */
  lemma GraysToHSLAndHSB(alpha: real)
    ensures RGBToHSL(RGBColor(1.0, 1.0, 1.0, alpha)) == HSLColor(0.0, 0.0, 100.0, alpha)
    ensures RGBToHSL(RGBColor(0.0, 0.0, 0.0, alpha)) == HSLColor(0.0, 0.0, 0.0, alpha)
    ensures RGBToHSB(RGBColor(1.0, 1.0, 1.0, alpha)) == HSBColor(0.0, 0.0, 100.0, alpha)
    ensures RGBToHSB(RGBColor(0.0, 0.0, 0.0, alpha)) == HSBColor(0.0, 0.0, 0.0, alpha)
  {
    var white, black := RGBColor(1.0, 1.0, 1.0, alpha), RGBColor(0.0, 0.0, 0.0, alpha);
    assert MaxChannel(white) == 1.0 && MinChannel(white) == 1.0;
    assert MaxChannel(black) == 0.0 && MinChannel(black) == 0.0;
  }

  /** RGB (0, 114, 214) / 255 is HSL (208, 100, 42) and HSB (208, 100, 83.9). */
  lemma AzureToHSLAndHSB(alpha: real)
    ensures HSLDefined(RGBColor(0.0, 114.0 / 255.0, 214.0 / 255.0, alpha))
    ensures HSLClose(RGBToHSL(RGBColor(0.0, 114.0 / 255.0, 214.0 / 255.0, alpha)), HSLColor(208.0, 100.0, 42.0, alpha))
    ensures HSBClose(RGBToHSB(RGBColor(0.0, 114.0 / 255.0, 214.0 / 255.0, alpha)), HSBColor(208.0, 100.0, 83.9, alpha))
  {
    var c := RGBColor(0.0, 114.0 / 255.0, 214.0 / 255.0, alpha);
    assert MaxChannel(c) == 214.0 / 255.0 && MinChannel(c) == 0.0;
    assert HueSextant(c) == 4.0 - 114.0 / 214.0;
  }

  /** RGB (135, 173, 140) / 255 is HSL (128, 19, 60) and HSB (128, 22, 67.8). */
  lemma SageToHSLAndHSB(alpha: real)
    ensures HSLDefined(RGBColor(135.0 / 255.0, 173.0 / 255.0, 140.0 / 255.0, alpha))
    ensures HSLClose(RGBToHSL(RGBColor(135.0 / 255.0, 173.0 / 255.0, 140.0 / 255.0, alpha)), HSLColor(128.0, 19.0, 60.0, alpha))
    ensures HSBClose(RGBToHSB(RGBColor(135.0 / 255.0, 173.0 / 255.0, 140.0 / 255.0, alpha)), HSBColor(128.0, 22.0, 67.8, alpha))
  {
    var c := RGBColor(135.0 / 255.0, 173.0 / 255.0, 140.0 / 255.0, alpha);
    assert MaxChannel(c) == 173.0 / 255.0 && MinChannel(c) == 135.0 / 255.0;
    assert HueSextant(c) == 2.0 + 5.0 / 38.0;
  }

  /** RGB (255, 173, 0) / 255 is HSL (41, 100, 50) and HSB (41, 100, 100). */
  lemma AmberToHSLAndHSB(alpha: real)
    ensures HSLDefined(RGBColor(1.0, 173.0 / 255.0, 0.0, alpha))
    ensures HSLClose(RGBToHSL(RGBColor(1.0, 173.0 / 255.0, 0.0, alpha)), HSLColor(41.0, 100.0, 50.0, alpha))
    ensures HSBClose(RGBToHSB(RGBColor(1.0, 173.0 / 255.0, 0.0, alpha)), HSBColor(41.0, 100.0, 100.0, alpha))
  {
    var c := RGBColor(1.0, 173.0 / 255.0, 0.0, alpha);
    assert MaxChannel(c) == 1.0 && MinChannel(c) == 0.0;
    assert HueSextant(c) == 173.0 / 255.0;
  }

  // ---------------------------------------------------------------------
  // HSL -> RGB and HSB -> RGB

  /** Hue 0 at full saturation is red, in HSL and in HSB. */
  lemma RedFromHSLAndHSB(alpha: real)
    ensures HSLToRGB(HSLColor(0.0, 100.0, 50.0, alpha)) == RGBColor(1.0, 0.0, 0.0, alpha)
    ensures HSBToRGB(HSBColor(0.0, 100.0, 100.0, alpha)) == RGBColor(1.0, 0.0, 0.0, alpha)
  {
    assert HSLChroma(50.0, 100.0) == 1.0 && HSBChroma(100.0, 100.0) == 1.0;
    SecondComponentOnPiece(0.0, 1.0, 0);
    assert SecondComponent(0.0, 1.0) == 0.0;
  }

  /** Hue 120 at full saturation is green, in HSL and in HSB. */
  lemma GreenFromHSLAndHSB(alpha: real)
    ensures HSLToRGB(HSLColor(120.0, 100.0, 50.0, alpha)) == RGBColor(0.0, 1.0, 0.0, alpha)
    ensures HSBToRGB(HSBColor(120.0, 100.0, 100.0, alpha)) == RGBColor(0.0, 1.0, 0.0, alpha)
  {
    assert HSLChroma(50.0, 100.0) == 1.0 && HSBChroma(100.0, 100.0) == 1.0;
    SecondComponentOnPiece(2.0, 1.0, 1);
    assert SecondComponent(120.0, 1.0) == 0.0;
  }

  /** Hue 240 at full saturation is blue, in HSL and in HSB. */
  lemma BlueFromHSLAndHSB(alpha: real)
    ensures HSLToRGB(HSLColor(240.0, 100.0, 50.0, alpha)) == RGBColor(0.0, 0.0, 1.0, alpha)
    ensures HSBToRGB(HSBColor(240.0, 100.0, 100.0, alpha)) == RGBColor(0.0, 0.0, 1.0, alpha)
  {
    assert HSLChroma(50.0, 100.0) == 1.0 && HSBChroma(100.0, 100.0) == 1.0;
    SecondComponentOnPiece(4.0, 1.0, 2);
    assert SecondComponent(240.0, 1.0) == 0.0;
  }

  /** Full lightness or brightness with zero saturation is white, and zero
      lightness or brightness is black. */
  lemma GraysFromHSLAndHSB(alpha: real)
    ensures HSLToRGB(HSLColor(0.0, 100.0, 100.0, alpha)) == RGBColor(1.0, 1.0, 1.0, alpha)
    ensures HSLToRGB(HSLColor(0.0, 0.0, 0.0, alpha)) == RGBColor(0.0, 0.0, 0.0, alpha)
    ensures HSBToRGB(HSBColor(0.0, 0.0, 100.0, alpha)) == RGBColor(1.0, 1.0, 1.0, alpha)
    ensures HSBToRGB(HSBColor(0.0, 0.0, 0.0, alpha)) == RGBColor(0.0, 0.0, 0.0, alpha)
  {
    HSLExtremeLightness(HSLColor(0.0, 100.0, 100.0, alpha));
    HSLExtremeLightness(HSLColor(0.0, 0.0, 0.0, alpha));
  }

  /** HSL (208, 100, 42) and HSB (208, 100, 83.9) are RGB (0, 114, 214) / 255. */
  lemma AzureFromHSLAndHSB(alpha: real)
    ensures RGBClose(HSLToRGB(HSLColor(208.0, 100.0, 42.0, alpha)), RGBColor(0.0, 114.0 / 255.0, 214.0 / 255.0, alpha))
    ensures RGBClose(HSBToRGB(HSBColor(208.0, 100.0, 83.9, alpha)), RGBColor(0.0, 114.0 / 255.0, 214.0 / 255.0, alpha))
  {
    assert HSLChroma(42.0, 100.0) == 0.84 && HSBChroma(83.9, 100.0) == 0.839;
    SecondComponentOnPiece(208.0 / 60.0, 0.84, 1);
    SecondComponentOnPiece(208.0 / 60.0, 0.839, 1);
    assert SecondComponent(208.0, 0.84) == 0.84 * 8.0 / 15.0;
    assert SecondComponent(208.0, 0.839) == 0.839 * 8.0 / 15.0;
  }

  /** HSL (128, 19, 60) and HSB (128, 22, 67.8) are RGB (135, 173, 140) / 255. */
  lemma SageFromHSLAndHSB(alpha: real)
    ensures RGBClose(HSLToRGB(HSLColor(128.0, 19.0, 60.0, alpha)), RGBColor(135.0 / 255.0, 173.0 / 255.0, 140.0 / 255.0, alpha))
    ensures RGBClose(HSBToRGB(HSBColor(128.0, 22.0, 67.8, alpha)), RGBColor(135.0 / 255.0, 173.0 / 255.0, 140.0 / 255.0, alpha))
  {
    assert HSLChroma(60.0, 19.0) == 0.152 && HSBChroma(67.8, 22.0) == 0.14916;
    SecondComponentOnPiece(128.0 / 60.0, 0.152, 1);
    SecondComponentOnPiece(128.0 / 60.0, 0.14916, 1);
    assert SecondComponent(128.0, 0.152) == 0.152 * 2.0 / 15.0;
    assert SecondComponent(128.0, 0.14916) == 0.14916 * 2.0 / 15.0;
  }

  /** HSL (41, 100, 50) and HSB (41, 100, 100) are RGB (255, 173, 0) / 255. */
  lemma AmberFromHSLAndHSB(alpha: real)
    ensures RGBClose(HSLToRGB(HSLColor(41.0, 100.0, 50.0, alpha)), RGBColor(1.0, 173.0 / 255.0, 0.0, alpha))
    ensures RGBClose(HSBToRGB(HSBColor(41.0, 100.0, 100.0, alpha)), RGBColor(1.0, 173.0 / 255.0, 0.0, alpha))
  {
    assert HSLChroma(50.0, 100.0) == 1.0 && HSBChroma(100.0, 100.0) == 1.0;
    SecondComponentOnPiece(41.0 / 60.0, 1.0, 0);
    assert SecondComponent(41.0, 1.0) == 41.0 / 60.0;
  }
}
