# SmoothGradient in Dafny

A model of SmoothGradient's gradient generator and its colour conversions. Given two RGB
colours, a colour space (HCL, HSL or HSB) and a precision, the generator returns the two
colours with `precision` intermediate colours between them. It converts both colours to
the chosen space and interpolates every channel linearly, except the hue. The hue goes
the shorter way round the colour wheel. The generator then zips the channels together
and converts every step back to RGB.

Modules:

- `RealMath` (`real_math.dfy`): absolute value, max/min of three, Swift's truncating
  remainder by 2, and small facts about quotients and products.
- `ColorSpace` (`color_space.dfy`): the six colour types and the conversions between
  them.
  - RGB <-> HSL and RGB <-> HSB are modelled exactly over reals.
  - The CIE chain RGB <-> XYZ <-> LAB <-> LCH keeps the code's structure, constants and
    branches. Its transcendental functions (`pow`, `sqrt`, `atan2`, `sin`, `cos`, pi)
    are a `Maths` parameter, so every fact proved about the chain holds whatever those
    functions return.
- `ColorSpaceLemmas` (`color_space_lemmas.dfy`):
  - exact round trips RGB -> HSL -> RGB and RGB -> HSB -> RGB
  - ranges of the conversions
  - where the round trips stop: `HSBRoundTripNeedsNonZeroMax`, `HSLExtremeLightness`
    and `HSBZeroBrightness`
  - the structural facts of the CIE chain
- `Interpolation` (`interpolation.dfy`):
  - linear interpolation of a channel, on top of `stride(from:through:by:)`
  - circular hue interpolation and its `clamp`
  - the four-way `zip`
- `Generator` (`generator.dfy`): the interpolation spaces, the precision levels, the
  colour-level interpolation and `generate`.
- `GeneratorLemmas` (`generator_lemmas.dfy`): HSL and HSB gradients start and end
  exactly at the given colours, and stay in the RGB unit cube.
- `ConversionExamples` (`conversion_examples.dfy`): the package's own HSL and HSB
  conversion cases, under the tolerances its checks compare with.

Three facts of the code that the model keeps:

- `interpolate` returns `[from, to]` for every `count <= 0`, negative counts included.
- The precision is the five-level enum with raw values 1, 3, 5, 7 and 9.
- Every gradient ends in RGB: `interpolate` converts each step back to `RGBColor`.

## Model

| member | source | states |
|---|---|---|
| RealMath.TruncRem2 | Sources/SmoothGradient/ColorSpace.swift:312 | Swift's `truncatingRemainder(dividingBy: 2)`: the remainder lies in [0, 2) for non-negative input and in (-2, 0] otherwise, and differs from the input by an even whole number |
| RealMath.TruncRem2OnPiece | Sources/SmoothGradient/ColorSpace.swift:312 | on the piece [2k, 2k + 2) the remainder is `a - 2k` |
| RealMath.Abs | Sources/SmoothGradient/ColorSpace.swift:311-312 | Swift's `abs`: non-negative, and the value or its negation |
| RealMath.Max3 | Sources/SmoothGradient/ColorSpace.swift:101 | `Swift.max(r, g, b)`, here and at :131: at least each argument and equal to one of them |
| RealMath.Min3 | Sources/SmoothGradient/ColorSpace.swift:102 | `Swift.min(r, g, b)`, here and at :132: at most each argument and equal to one of them |
| RealMath.Trunc | Sources/SmoothGradient/ColorSpace.swift:312 | the quotient rounded toward zero inside `truncatingRemainder`: within 1 of its argument, on the side of 0 |
| Interpolation.StrideThrough | Sources/SmoothGradient/SmoothGradientGenerator.swift:220 | the stride's values are `start + i * step`, in order |
| Interpolation.StrideStops | Sources/SmoothGradient/SmoothGradientGenerator.swift:220 | no value of the stride passes `end`, and one more step would pass it |
| Interpolation.StrideLength | Sources/SmoothGradient/SmoothGradientGenerator.swift:219-220 | a stride that reaches `end` after exactly `k` steps has `k + 1` values, so it includes `end` |
| Interpolation.Interpolate | Sources/SmoothGradient/SmoothGradientGenerator.swift:216-221 | the linear interpolation has `count + 2` values, or 2 when `count <= 0` |
| Interpolation.EvenSteps | Sources/SmoothGradient/SmoothGradientGenerator.swift:219 | splitting `to - from` into `count + 1` steps gives a non-zero step that reaches `to` exactly |
| Interpolation.InterpolateGuards | Sources/SmoothGradient/SmoothGradientGenerator.swift:217-218 | a `count` of zero or less, negative included, gives exactly `[from, to]`; equal endpoints give nothing but copies of `from` |
| Interpolation.InterpolateClosedForm | Sources/SmoothGradient/SmoothGradientGenerator.swift:216-221 | the `i`-th value is `from + i * (to - from) / (n - 1)` in each of the three branches, so the values are evenly spaced; the first is `from` and the last is `to` |
| Interpolation.InterpolateEndpoints | Sources/SmoothGradient/SmoothGradientGenerator.swift:216-221 | the interpolation starts at `from` and ends at `to`, for every `count` |
| Interpolation.InterpolateMonotone | Sources/SmoothGradient/SmoothGradientGenerator.swift:219-220 | the values rise from `from` to `to` when `from <= to` and fall otherwise |
| Interpolation.InterpolateBetween | Sources/SmoothGradient/SmoothGradientGenerator.swift:219-220 | every value lies between the two endpoints |
| Interpolation.InterpolateExamples | Tests/SmoothGradientTests/SmoothGradientTests.swift:5-35 | the package's six linear-interpolation cases hold exactly, e.g. 0 to 100 with 3 steps gives 0, 25, 50, 75, 100 |
| Interpolation.Wrap360 | Sources/SmoothGradient/SmoothGradientGenerator.swift:225-230 | the wrapped angle is in [0, 360), a whole number of turns from the input, and equal to the input when the input is already in [0, 360) |
| Interpolation.WrapUnique | Sources/SmoothGradient/SmoothGradientGenerator.swift:225-230 | only one angle in [0, 360) is a whole number of turns from a given angle |
| Interpolation.Clamp | Sources/SmoothGradient/SmoothGradientGenerator.swift:225-230 | the two loops of `clamp` terminate with a value in [0, 360) that is a whole number of turns from the input, i.e. `Wrap360` of it |
| Interpolation.WrapAll | Sources/SmoothGradient/SmoothGradientGenerator.swift:237-239 | `.map(clamp)`: same length, every value on the wheel and a whole number of turns from the input value |
| Interpolation.ShortArcTarget | Sources/SmoothGradient/SmoothGradientGenerator.swift:232-242 | the target is `to` or `to` one turn up or down; for hues on the wheel it lies at most 180 degrees from `from`; at exactly 180 degrees apart it is `to` itself |
| Interpolation.InterpolateCircular | Sources/SmoothGradient/SmoothGradientGenerator.swift:224-243 | the circular interpolation has the same length as the linear one |
| Interpolation.CircularTowardShortArc | Sources/SmoothGradient/SmoothGradientGenerator.swift:232-242 | the four-way switch is the linear interpolation toward the short-arc target, wrapped when the target is not `to`; each value is a whole number of turns from that linear interpolation |
| Interpolation.CircularFollowsShortArc | Sources/SmoothGradient/SmoothGradientGenerator.swift:224-243 | for hues on the wheel, the result is the wrapped linear interpolation along the arc of at most 180 degrees; it stays in [0, 360) and starts and ends at the given hues |
| Interpolation.CircularExamples | Tests/SmoothGradientTests/SmoothGradientTests.swift:37-67 | the package's six hue cases hold exactly, including 0 to 270 going down through 315 and 0 to 180 going directly |
| Interpolation.Zip | Sources/SmoothGradient/SmoothGradientGenerator.swift:246 | Swift's two-way `zip`: length is the shorter length and the `i`-th pair holds the `i`-th elements |
| Interpolation.Zip4 | Sources/SmoothGradient/SmoothGradientGenerator.swift:245-249 | the four-way `zip`: no longer than any input, as long as one of them, and the `i`-th quadruple holds the `i`-th elements |
| Generator.RawValue | Sources/SmoothGradient/SmoothGradientGenerator.swift:9-15 | the raw values of the levels: `low` 1, `lowMedium` 3, `medium` 5, `mediumHigh` 7, `high` 9, each level the only one with its value |
| Generator.PrecisionOf | Sources/SmoothGradient/SmoothGradientGenerator.swift:9-15 | `init?(rawValue:)` succeeds exactly on the odd numbers 1 to 9 and returns the level with that raw value |
| Generator.PrecisionRoundTrip | Sources/SmoothGradient/SmoothGradientGenerator.swift:9-15 | every level is recovered from its raw value |
| Generator.InterpolateColors | Sources/SmoothGradient/SmoothGradientGenerator.swift:169-213 | in every space the gradient has `count + 2` colours (2 when `count <= 0`), and colour `i` carries the `i`-th linearly interpolated alpha |
| Generator.HclGradient | Sources/SmoothGradient/SmoothGradientGenerator.swift:176-187 | the `.hcl` case: length and interpolated alpha, since the CIE conversions pass alpha through |
| Generator.LchSteps | Sources/SmoothGradient/SmoothGradientGenerator.swift:179-187 | interpolating two LCH colours gives `count + 2` RGB colours with the interpolated alpha |
| Generator.HslGradient | Sources/SmoothGradient/SmoothGradientGenerator.swift:188-199 | the `.hsl` case: length and interpolated alpha |
| Generator.HslSteps | Sources/SmoothGradient/SmoothGradientGenerator.swift:191-199 | interpolating two HSL colours gives `count + 2` RGB colours with the interpolated alpha |
| Generator.HsbGradient | Sources/SmoothGradient/SmoothGradientGenerator.swift:200-211 | the `.hsb` case: length and interpolated alpha |
| Generator.HsbSteps | Sources/SmoothGradient/SmoothGradientGenerator.swift:203-211 | interpolating two HSB colours gives `count + 2` RGB colours with the interpolated alpha |
| Generator.Generate | Sources/SmoothGradient/SmoothGradientGenerator.swift:22-30 | `generate` returns `rawValue + 2` colours, each with its interpolated alpha |
| GeneratorLemmas.LchStepsAt | Sources/SmoothGradient/SmoothGradientGenerator.swift:179-187 | colour `i` of the `.hcl` case is the RGB of the `i`-th lightness, chroma, hue and alpha |
| GeneratorLemmas.HslStepsAt | Sources/SmoothGradient/SmoothGradientGenerator.swift:191-199 | colour `i` of the `.hsl` case is the RGB of the `i`-th hue, saturation, lightness and alpha |
| GeneratorLemmas.HsbStepsAt | Sources/SmoothGradient/SmoothGradientGenerator.swift:203-211 | colour `i` of the `.hsb` case is the RGB of the `i`-th hue, saturation, brightness and alpha |
| GeneratorLemmas.HslGradientEndpoints | Sources/SmoothGradient/SmoothGradientGenerator.swift:188-199 | an HSL gradient starts at exactly `from` and ends at exactly `to` |
| GeneratorLemmas.HslStepsEnds | Sources/SmoothGradient/SmoothGradientGenerator.swift:191-199 | interpolating between two HSL colours with hues on the wheel starts and ends at those colours converted to RGB |
| GeneratorLemmas.HsbGradientEndpoints | Sources/SmoothGradient/SmoothGradientGenerator.swift:200-211 | an HSB gradient starts at exactly `from` and ends at exactly `to`, for every colour the HSB round trip recovers |
| GeneratorLemmas.HsbStepsEnds | Sources/SmoothGradient/SmoothGradientGenerator.swift:203-211 | interpolating between two HSB colours with hues on the wheel starts and ends at those colours converted to RGB |
| GeneratorLemmas.HslGradientInUnitCube | Sources/SmoothGradient/SmoothGradientGenerator.swift:188-199 | between two colours of the RGB unit cube the HSL gradient is defined, and every colour of it is in the unit cube |
| GeneratorLemmas.HslStepsInUnitCube | Sources/SmoothGradient/SmoothGradientGenerator.swift:191-199 | HSL steps with saturation and lightness in [0, 100] are all in the unit cube, whatever the hues |
| GeneratorLemmas.HsbGradientInUnitCube | Sources/SmoothGradient/SmoothGradientGenerator.swift:200-211 | between two colours of the RGB unit cube every colour of the HSB gradient is in the unit cube |
| GeneratorLemmas.HsbStepsInUnitCube | Sources/SmoothGradient/SmoothGradientGenerator.swift:203-211 | HSB steps with saturation and brightness in [0, 100] are all in the unit cube, whatever the hues |
| ColorSpace.MaxChannel | Sources/SmoothGradient/ColorSpace.swift:101 | the `max` of `toHSL` and of `toHSB` (:131), the largest of the three colour channels: no channel exceeds it and one equals it |
| ColorSpace.MinChannel | Sources/SmoothGradient/ColorSpace.swift:102 | the `min` of `toHSL` and of `toHSB` (:132), the smallest of the three colour channels: no channel is below it and one equals it |
| ColorSpace.HSLDefined | Sources/SmoothGradient/ColorSpace.swift:107-112 | `toHSL` does not divide by zero exactly when the colour is gray or `max + min` is neither 0 nor 2; every colour of the unit cube qualifies |
| ColorSpace.HueSextant | Sources/SmoothGradient/ColorSpace.swift:114-121 | the hue of a non-gray colour, in sixths of a turn, is in [0, 6) |
| ColorSpace.HSLSaturationBounds | Sources/SmoothGradient/ColorSpace.swift:112 | the HSL saturation of a non-gray colour is never zero, and is in [0, 1] when the channels are |
| ColorSpace.RGBToHSL | Sources/SmoothGradient/ColorSpace.swift:100-125 | `toHSL` keeps alpha and gives a hue in [0, 360); a gray colour gets hue and saturation 0 and lightness 100 times its channel; any other colour gets a non-zero saturation; on the unit cube saturation and lightness are in [0, 100] |
| ColorSpace.RGBToHSB | Sources/SmoothGradient/ColorSpace.swift:128-154 | `toHSB` keeps alpha, gives a hue in [0, 360) and brightness 100 times the largest channel; a gray colour gets hue and saturation 0; on the unit cube saturation and brightness are in [0, 100] |
| ColorSpace.SextantChannels | Sources/SmoothGradient/ColorSpace.swift:315-323 | the sextant switch: outside [0, 6) every channel is `m`; inside, every channel lies between `m` and `c + m` |
| ColorSpace.SecondComponent | Sources/SmoothGradient/ColorSpace.swift:312 | for non-negative hue and chroma the second component lies between 0 and the chroma |
| ColorSpace.ChromaToRGB | Sources/SmoothGradient/ColorSpace.swift:350-364 | keeps alpha; a hue outside [0, 360) gives gray `m`; a non-negative chroma keeps every channel between `m` and `c + m` |
| ColorSpace.LightnessRoom | Sources/SmoothGradient/ColorSpace.swift:311 | the factor `1 - abs(2 * nl - 1)`: in [0, 1] with half of it fitting on both sides of the lightness, and zero exactly at lightness 0 and 100 |
| ColorSpace.HSLChroma | Sources/SmoothGradient/ColorSpace.swift:311 | the HSL chroma is zero exactly for zero saturation, black and white |
| ColorSpace.HSBChroma | Sources/SmoothGradient/ColorSpace.swift:350 | the HSB chroma `nb * ns` is zero exactly for zero brightness or zero saturation |
| ColorSpace.HSLToRGB | Sources/SmoothGradient/ColorSpace.swift:300-327 | `HSLColor.toRGB` keeps alpha; zero saturation gives the gray of the lightness; a hue outside [0, 360) gives a gray |
| ColorSpace.HSBToRGB | Sources/SmoothGradient/ColorSpace.swift:346-367 | `HSBColor.toRGB` keeps alpha; zero saturation gives the gray of the brightness; a hue outside [0, 360) gives a gray |
| ColorSpace.SRGBToLinear | Sources/SmoothGradient/ColorSpace.swift:75-79 | sRGB decoding takes its linear branch `v / 12.92` at and below the breakpoint 0.04045 |
| ColorSpace.LinearToSRGB | Sources/SmoothGradient/ColorSpace.swift:172-176 | sRGB encoding takes its linear branch `v * 12.92` at and below the breakpoint 0.0031308 |
| ColorSpace.LabCompand | Sources/SmoothGradient/ColorSpace.swift:188-190 | the CIE lightness function is linear at and below its breakpoint 0.008856 |
| ColorSpace.XyzCompand | Sources/SmoothGradient/ColorSpace.swift:224-227 | on the linear segment, `xyzCompand` inverts the linear branch of `labCompand` |
| ColorSpace.RGBToXYZ | Sources/SmoothGradient/ColorSpace.swift:81-89 | keeps alpha |
| ColorSpace.XYZToRGB | Sources/SmoothGradient/ColorSpace.swift:178-186 | keeps alpha |
| ColorSpace.XYZToLAB | Sources/SmoothGradient/ColorSpace.swift:192-202 | keeps alpha; a colour on the neutral axis (equal normalised X, Y, Z) gets a = b = 0 |
| ColorSpace.LABToXYZ | Sources/SmoothGradient/ColorSpace.swift:229-239 | keeps alpha |
| ColorSpace.LABToLCH | Sources/SmoothGradient/ColorSpace.swift:241-246 | keeps alpha and lightness |
| ColorSpace.LCHToLAB | Sources/SmoothGradient/ColorSpace.swift:268-273 | keeps alpha and lightness |
| ColorSpace.RGBToLAB | Sources/SmoothGradient/ColorSpace.swift:91-93 | keeps alpha |
| ColorSpace.XYZToLCH | Sources/SmoothGradient/ColorSpace.swift:204-206 | keeps alpha |
| ColorSpace.RGBToLCH | Sources/SmoothGradient/ColorSpace.swift:95-97 | keeps alpha |
| ColorSpace.LABToRGB | Sources/SmoothGradient/ColorSpace.swift:248-250 | keeps alpha |
| ColorSpace.LCHToXYZ | Sources/SmoothGradient/ColorSpace.swift:275-277 | keeps alpha |
| ColorSpace.LCHToRGB | Sources/SmoothGradient/ColorSpace.swift:279-281 | keeps alpha |
| ColorSpaceLemmas.SecondComponentOnPiece | Sources/SmoothGradient/ColorSpace.swift:312 | on the hue piece [2k, 2k + 2) the second component is `d * (1 - abs(hp - 2k - 1))` |
| ColorSpaceLemmas.SextantRecoversChannels | Sources/SmoothGradient/ColorSpace.swift:315-323 | placing chroma `max - min` and offset `min` by the hue's sextant gives back the channels of a non-gray colour |
| ColorSpaceLemmas.HSLChromaIsSpread | Sources/SmoothGradient/ColorSpace.swift:311 | the chroma rebuilt from the lightness and saturation that `toHSL` produced is `max - min` |
| ColorSpaceLemmas.HSLRoundTrip | Sources/SmoothGradient/ColorSpace.swift:300-327 | RGB -> HSL -> RGB gives back the colour exactly whenever `toHSL` does not divide by zero |
| ColorSpaceLemmas.HSBRoundTrip | Sources/SmoothGradient/ColorSpace.swift:346-367 | RGB -> HSB -> RGB gives back the colour exactly unless its largest channel is 0 while it is not gray |
| ColorSpaceLemmas.GrayHSLRoundTrip | Sources/SmoothGradient/ColorSpace.swift:107-109 | a gray colour comes back exactly from HSL through the zero-saturation branch of `toRGB` |
| ColorSpaceLemmas.ChromaticHSLRoundTrip | Sources/SmoothGradient/ColorSpace.swift:110-124 | a colour with a hue, on which `toHSL` does not divide by zero, comes back exactly from HSL |
| ColorSpaceLemmas.HSLToRGBByChroma | Sources/SmoothGradient/ColorSpace.swift:310-313 | a saturated HSL colour with chroma `d` and offset `mn` is placed by the shared chroma step |
| ColorSpaceLemmas.GrayHSBRoundTrip | Sources/SmoothGradient/ColorSpace.swift:135-137 | a gray colour comes back exactly from HSB |
| ColorSpaceLemmas.ChromaticHSBRoundTrip | Sources/SmoothGradient/ColorSpace.swift:138-153 | a colour with a hue and a non-zero largest channel comes back exactly from HSB |
| ColorSpaceLemmas.HSBChromaOfSpread | Sources/SmoothGradient/ColorSpace.swift:350 | the HSB chroma rebuilt from `toHSB`'s saturation `(max - min) / max` and brightness `max` is `max - min` |
| ColorSpaceLemmas.HSBRoundTripNeedsNonZeroMax | Sources/SmoothGradient/ColorSpace.swift:139 | the condition of the HSB round trip is needed: (0, -1, -1) comes back as black |
| ColorSpaceLemmas.UnitCubeIsConvertible | Sources/SmoothGradient/ColorSpace.swift:108-112 | on the RGB unit cube `toHSL` never divides by zero and the HSB round trip holds |
| ColorSpaceLemmas.HSLChromaBounds | Sources/SmoothGradient/ColorSpace.swift:311-313 | on the documented ranges the HSL chroma is non-negative and `m` and `m + c` stay in [0, 1] |
| ColorSpaceLemmas.HSLToRGBInUnitCube | Sources/SmoothGradient/ColorSpace.swift:300-327 | HSL saturation and lightness in [0, 100] give a colour of the unit cube, whatever the hue |
| ColorSpaceLemmas.HSBChromaBounds | Sources/SmoothGradient/ColorSpace.swift:350-352 | on the documented ranges the HSB chroma is non-negative and at most the brightness |
| ColorSpaceLemmas.HSBToRGBInUnitCube | Sources/SmoothGradient/ColorSpace.swift:346-367 | HSB saturation and brightness in [0, 100] give a colour of the unit cube, whatever the hue |
| ColorSpaceLemmas.HSLExtremeLightness | Sources/SmoothGradient/ColorSpace.swift:306-323 | lightness 100 is white and lightness 0 is black, whatever the hue and saturation |
| ColorSpaceLemmas.HSBZeroBrightness | Sources/SmoothGradient/ColorSpace.swift:347-363 | brightness 0 is black, whatever the hue and saturation |
| ColorSpaceLemmas.SRGBCompandingIsOdd | Sources/SmoothGradient/ColorSpace.swift:75-79 | sRGB decoding and encoding are odd functions |
| ColorSpaceLemmas.SRGBLinearSegmentsInverse | Sources/SmoothGradient/ColorSpace.swift:172-176 | near zero, encoding and decoding undo each other exactly |
| ColorSpaceLemmas.LabSegmentRoundTrip | Sources/SmoothGradient/ColorSpace.swift:224-227 | at and below the breakpoint, `xyzCompand` undoes `labCompand` |
| ColorSpaceLemmas.DarkXYZRoundTripsThroughLAB | Sources/SmoothGradient/ColorSpace.swift:229-239 | XYZ colours whose normalised channels are all on the linear segment go XYZ -> LAB -> XYZ exactly |
| ColorSpaceLemmas.BlackThroughLAB | Sources/SmoothGradient/ColorSpace.swift:192-202 | black has L*a*b* a = b = 0 and a lightness within 0.5 of 0, and comes back to black exactly |
| ConversionExamples.RGBClose | Tests/SmoothGradientTests/SmoothGradientTests.swift:333-342 | the checks' equality of RGB colours: every channel within 0.01; equal colours are close |
| ConversionExamples.HSLClose | Tests/SmoothGradientTests/SmoothGradientTests.swift:357-366 | the checks' equality of HSL colours: every component within 0.5; equal colours are close |
| ConversionExamples.HSBClose | Tests/SmoothGradientTests/SmoothGradientTests.swift:369-378 | the checks' equality of HSB colours: every component within 0.5; equal colours are close |
| ConversionExamples.RedToHSLAndHSB | Tests/SmoothGradientTests/SmoothGradientTests.swift:169-172 | pure red is HSL (0, 100, 50) and, as at lines 253-256, HSB (0, 100, 100), exactly and for any alpha |
| ConversionExamples.GreenToHSLAndHSB | Tests/SmoothGradientTests/SmoothGradientTests.swift:174-177 | pure green is HSL (120, 100, 50) and, as at lines 258-261, HSB (120, 100, 100), exactly |
| ConversionExamples.BlueToHSLAndHSB | Tests/SmoothGradientTests/SmoothGradientTests.swift:179-182 | pure blue is HSL (240, 100, 50) and, as at lines 263-266, HSB (240, 100, 100), exactly |
| ConversionExamples.GraysToHSLAndHSB | Tests/SmoothGradientTests/SmoothGradientTests.swift:184-192 | white is HSL (0, 0, 100) and black HSL (0, 0, 0); as at lines 268-276, white is HSB (0, 0, 100) and black HSB (0, 0, 0); exactly |
| ConversionExamples.AzureToHSLAndHSB | Tests/SmoothGradientTests/SmoothGradientTests.swift:154-157 | RGB (0, 114, 214) / 255 converts without division by zero to HSL (208, 100, 42) and, as at lines 238-241, to HSB (208, 100, 83.9), within 0.5 |
| ConversionExamples.SageToHSLAndHSB | Tests/SmoothGradientTests/SmoothGradientTests.swift:159-162 | RGB (135, 173, 140) / 255 converts to HSL (128, 19, 60) and, as at lines 243-246, to HSB (128, 22, 67.8), within 0.5 |
| ConversionExamples.AmberToHSLAndHSB | Tests/SmoothGradientTests/SmoothGradientTests.swift:164-167 | RGB (255, 173, 0) / 255 converts to HSL (41, 100, 50) and, as at lines 248-251, to HSB (41, 100, 100), within 0.5 |
| ConversionExamples.RedFromHSLAndHSB | Tests/SmoothGradientTests/SmoothGradientTests.swift:211-214 | HSL (0, 100, 50) and, as at lines 295-298, HSB (0, 100, 100) are pure red, exactly |
| ConversionExamples.GreenFromHSLAndHSB | Tests/SmoothGradientTests/SmoothGradientTests.swift:216-219 | HSL (120, 100, 50) and, as at lines 300-303, HSB (120, 100, 100) are pure green, exactly |
| ConversionExamples.BlueFromHSLAndHSB | Tests/SmoothGradientTests/SmoothGradientTests.swift:221-224 | HSL (240, 100, 50) and, as at lines 305-308, HSB (240, 100, 100) are pure blue, exactly |
| ConversionExamples.GraysFromHSLAndHSB | Tests/SmoothGradientTests/SmoothGradientTests.swift:226-234 | HSL (0, 100, 100) is white and HSL (0, 0, 0) black; as at lines 310-318, HSB (0, 0, 100) is white and HSB (0, 0, 0) black; exactly |
| ConversionExamples.AzureFromHSLAndHSB | Tests/SmoothGradientTests/SmoothGradientTests.swift:196-199 | HSL (208, 100, 42) and, as at lines 280-283, HSB (208, 100, 83.9) are RGB (0, 114, 214) / 255 within 0.01 per channel |
| ConversionExamples.SageFromHSLAndHSB | Tests/SmoothGradientTests/SmoothGradientTests.swift:201-204 | HSL (128, 19, 60) and, as at lines 285-288, HSB (128, 22, 67.8) are RGB (135, 173, 140) / 255 within 0.01 per channel |
| ConversionExamples.AmberFromHSLAndHSB | Tests/SmoothGradientTests/SmoothGradientTests.swift:206-209 | HSL (41, 100, 50) and, as at lines 290-293, HSB (41, 100, 100) are RGB (255, 173, 0) / 255 within 0.01 per channel |

## Left out

- The UIKit, AppKit and SwiftUI overloads of `generate` and the platform colour adapters
  (`toRGB` extensions, `subscript(safely:)`): they only move channels in and out of
  platform colour types.
- The example playground pages and `Package.swift`: neither is part of the generator.
- Floating point: the model computes over exact reals. A `Double` stride may stop one
  value short or end a rounding error away from `to`. `interpolateCircular` may then
  produce a hue that `clamp` rounds to 0 instead of 360. Neither effect exists in the
  model.
- `pow`, `sqrt`, `atan2`, `sin`, `cos` and pi come from the `Maths` parameter. The
  numerical accuracy of the CIE chain is therefore not modelled: the model does not show
  that the LCH hue is in [0, 360), that the HCL examples of the package hold, or that an
  HCL gradient ends exactly at `to`.
- The default arguments `.hcl` and `.medium` of `generate`: the model passes both
  explicitly.
- ColorSpace.RGBToHSL: requires `HSLDefined`. For colours outside the unit cube with
  `max + min == 0` or `max + min == 2`, Swift divides by zero and yields infinity or NaN,
  which reals cannot represent.
- Generator.InterpolateColors: requires `HSLDefined` of both colours in the `.hsl` case,
  for the same reason as ColorSpace.RGBToHSL.
- Generator.HslGradient: requires `HSLDefined` of both colours, for the same reason as
  ColorSpace.RGBToHSL.
- Generator.Generate: requires `HSLDefined` of both colours in the `.hsl` case, for the
  same reason as ColorSpace.RGBToHSL.
- Generator.HclGradient: states only length and alpha, because the colour values depend
  on the transcendental functions.
- Generator.LchSteps: states only length and alpha, for the same reason.
- ColorSpace.RGBToXYZ: states only alpha pass-through; the channels depend on `pow`.
- ColorSpace.XYZToRGB: states only alpha pass-through; the channels depend on `pow`.
- ColorSpace.LABToXYZ: states only alpha pass-through; the channels are cubes or linear
  maps of the input, and `DarkXYZRoundTripsThroughLAB` covers the linear segment.
- ColorSpace.RGBToLAB: states only alpha pass-through; `BlackThroughLAB` gives the one
  exact case.
- ColorSpace.XYZToLCH: states only alpha pass-through; chroma and hue need `sqrt` and
  `atan2`.
- ColorSpace.RGBToLCH: states only alpha pass-through, for the same reason.
- ColorSpace.LABToRGB: states only alpha pass-through; the channels depend on `pow`.
- ColorSpace.LCHToXYZ: states only alpha pass-through; the channels depend on `sin` and
  `cos`.
- ColorSpace.LCHToRGB: states only alpha pass-through, for the same reason.
- ColorSpaceLemmas.HSBRoundTrip: requires the colour to be gray or to have a non-zero
  largest channel. `toHSB` sets the saturation to 0 when the largest channel is 0, so
  such a colour with negative channels is not recovered
  (`HSBRoundTripNeedsNonZeroMax`).
