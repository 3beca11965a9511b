/** The scalar interpolations of SmoothGradientGenerator.swift: linear
    interpolation of a channel, interpolation of a hue along the shorter arc
    of the colour wheel, and the four-way `zip` that reassembles channels. */
module Interpolation {
  import opened RealMath

  /** `stride(from: start, through: end, by: step)` over exact reals: the
      values `start + i * step` for `i = 0, 1, ...` (`StrideStops` shows it
      ends at the last one that does not pass `end`). */
  function StrideThrough(start: real, end: real, step: real): (r: seq<real>)
    requires step != 0.0
    ensures forall i :: 0 <= i < |r| ==> r[i] == start + i as real * step
  {
    var q := (end - start) / step;
    if q < 0.0 then [] else seq(q.Floor + 1, i => start + i as real * step)
  }

  /** A stride never passes `end`, and one more step would. */
  lemma StrideStops(start: real, end: real, step: real)
    requires step != 0.0
    ensures var r := StrideThrough(start, end, step);
      forall i :: 0 <= i < |r| ==> if step > 0.0 then r[i] <= end else end <= r[i]
    ensures var r := StrideThrough(start, end, step);
      var next := start + |r| as real * step;
      if step > 0.0 then end < next else next < end
  {
    var r := StrideThrough(start, end, step);
    var q := (end - start) / step;
    StepsToEnd(start, end, step);
    if q < 0.0 {
      assert |r| == 0;
    } else {
      var n := q.Floor + 1;
      assert |r| == n;
      StrideStaysBehind(start, end, step, q, r);
      StepBeyond(q, step, n as real);
    }
  }

  /** A stride that reaches `end` after exactly `k` steps has `k + 1` values. */
  lemma StrideLength(start: real, end: real, step: real, k: nat)
    requires step != 0.0 && start + k as real * step == end
    ensures |StrideThrough(start, end, step)| == k + 1
  {
    assert (end - start) / step == k as real;
  }

  /** `end` lies `(end - start) / step` steps from `start`; a negative number
      of steps means `end` lies behind `start`. */
  lemma StepsToEnd(start: real, end: real, step: real)
    requires step != 0.0
    ensures ((end - start) / step) * step == end - start
    ensures (end - start) / step < 0.0 ==> if step > 0.0 then end < start else start < end
  {
    var q := (end - start) / step;
    assert q * step == end - start;
    ProductSign(q, if step > 0.0 then step else -step);
  }

  /** No value of a stride of at most `q` steps passes `start + q * step`. */
  lemma StrideStaysBehind(start: real, end: real, step: real, q: real, r: seq<real>)
    requires step != 0.0 && q * step == end - start && (|r| - 1) as real <= q
    requires forall i :: 0 <= i < |r| ==> r[i] == start + i as real * step
    ensures forall i :: 0 <= i < |r| ==> if step > 0.0 then r[i] <= end else end <= r[i]
  {
    forall i | 0 <= i < |r|
      ensures if step > 0.0 then r[i] <= end else end <= r[i]
    {
      StepWithin(q, step, i as real);
    }
  }

  /** A multiple of the step no larger than `q` does not go past `q * step`. */
  lemma StepWithin(q: real, step: real, i: real)
    requires step != 0.0 && i <= q
    ensures step > 0.0 ==> i * step <= q * step
    ensures step < 0.0 ==> q * step <= i * step
  {
    if step > 0.0 {
      MulLeMono(i, q, step);
    } else {
      MulLeMono(i, q, -step);
    }
  }

  /** A multiple of the step larger than `q` goes past `q * step`. */
  lemma StepBeyond(q: real, step: real, n: real)
    requires step != 0.0 && q < n
    ensures step > 0.0 ==> q * step < n * step
    ensures step < 0.0 ==> n * step < q * step
  {
    var a := if step > 0.0 then step else -step;
    ProductSign(q - n, a);
  }

  /** The length of every interpolation with this `count`: the two
      endpoints and `count` values between them, none when `count <= 0`. */
  function GradientLength(count: int): nat
  {
    if count <= 0 then 2 else count + 2
  }

  /** The `Double` interpolation: `count` intermediate values between `from`
      and `to`, both included; a `count` of zero or less yields just the two
      endpoints. `InterpolateClosedForm` gives every value. */
  function Interpolate(from: real, to: real, count: int): (r: seq<real>)
    ensures |r| == GradientLength(count)
  {
    if count <= 0 then
      [from, to]
    else if to == from then
      seq(count + 2, _ => from)
    else
      var step := (to - from) / (count + 1) as real;
      EvenSteps(from, to, count + 1);
      StrideLength(from, to, step, count + 1);
      StrideThrough(from, to, step)
  }

  /** Splitting `to - from` into `n` equal steps reaches `to` after `n` of them. */
  lemma EvenSteps(from: real, to: real, n: nat)
    requires n > 0 && from != to
    ensures (to - from) / n as real != 0.0
    ensures from + n as real * ((to - from) / n as real) == to
  {
  }

  /** The `i`-th interpolated value is `from + i * (to - from) / (|r| - 1)`:
      the values are evenly spaced, from `from` up to and including `to`. */
  lemma {:induction false} InterpolateClosedForm(from: real, to: real, count: int)
    ensures var r := Interpolate(from, to, count);
      forall i :: 0 <= i < |r| ==> r[i] == from + i as real * (to - from) / (|r| - 1) as real
    ensures var r := Interpolate(from, to, count);
      r[0] == from && r[|r| - 1] == to
  {
    var r := Interpolate(from, to, count);
    if count > 0 && to != from {
      EvenSteps(from, to, count + 1);
      StepsToClosedForm(r, from, to, (to - from) / (count + 1) as real);
    }
  }

  /** Values `from + i * step`, with the step splitting `to - from` into
      `|r| - 1` equal parts, are `from + i * (to - from) / (|r| - 1)`. */
  lemma StepsToClosedForm(r: seq<real>, from: real, to: real, step: real)
    requires |r| >= 2 && step == (to - from) / (|r| - 1) as real
    requires from + (|r| - 1) as real * step == to
    requires forall i :: 0 <= i < |r| ==> r[i] == from + i as real * step
    ensures forall i :: 0 <= i < |r| ==> r[i] == from + i as real * (to - from) / (|r| - 1) as real
    ensures r[0] == from && r[|r| - 1] == to
  {
    var n := (|r| - 1) as real;
    forall i | 0 <= i < |r|
      ensures r[i] == from + i as real * (to - from) / n
    {
      StepValue(r[i], from, i as real, step, to - from, n);
    }
  }

  /** The value `i` steps of `d / n` from `from`. */
  lemma StepValue(v: real, from: real, i: real, step: real, d: real, n: real)
    requires n != 0.0 && step == d / n && v == from + i * step
    ensures v == from + i * d / n
  {
    MulDivAssoc(i, d, n);
  }

  /** The two guards: a `count` of zero or less gives exactly the endpoints,
      and equal endpoints give nothing but copies of them. */
  lemma InterpolateGuards(from: real, to: real, count: int)
    ensures count <= 0 ==> Interpolate(from, to, count) == [from, to]
    ensures from == to ==> forall x :: x in Interpolate(from, to, count) ==> x == from
  {
    InterpolateClosedForm(from, to, count);
  }

  /** The interpolation starts at `from` and ends at `to`. */
  lemma InterpolateEndpoints(from: real, to: real, count: int)
    ensures var r := Interpolate(from, to, count);
      r[0] == from && r[|r| - 1] == to
  {
    InterpolateClosedForm(from, to, count);
  }

  /** Two points of an evenly spaced sequence are ordered as their indices
      when it rises, and the other way when it falls. */
  lemma EvenlySpacedMono(from: real, to: real, m: int, i: int, j: int, a: real, b: real)
    requires 0 <= i <= j && m > 0
    requires a == from + i as real * (to - from) / m as real
    requires b == from + j as real * (to - from) / m as real
    ensures if from <= to then a <= b else b <= a
  {
    FractionMono(i as real, j as real, to - from, m as real);
  }

  /** A sequence of evenly spaced values from `from` to `to` is monotone. */
  lemma EvenlySpacedSeqMono(r: seq<real>, from: real, to: real)
    requires |r| >= 2
    requires forall i :: 0 <= i < |r| ==> r[i] == from + i as real * (to - from) / (|r| - 1) as real
    ensures forall i, j :: 0 <= i <= j < |r| ==> if from <= to then r[i] <= r[j] else r[j] <= r[i]
  {
    var m := |r| - 1;
    forall i, j | 0 <= i <= j < |r|
      ensures if from <= to then r[i] <= r[j] else r[j] <= r[i]
    {
      var a, b := r[i], r[j];
      assert a == from + i as real * (to - from) / m as real;
      assert b == from + j as real * (to - from) / m as real;
      EvenlySpacedMono(from, to, m, i, j, a, b);
    }
  }

  /** Between the endpoints the interpolation is monotone: it rises when
      `from <= to` and falls when `to <= from`. */
  lemma {:induction false} InterpolateMonotone(from: real, to: real, count: int)
    ensures var r := Interpolate(from, to, count);
      forall i, j :: 0 <= i <= j < |r| ==> if from <= to then r[i] <= r[j] else r[j] <= r[i]
  {
    InterpolateClosedForm(from, to, count);
    EvenlySpacedSeqMono(Interpolate(from, to, count), from, to);
  }

  /** Every interpolated value lies between the two endpoints. */
  lemma {:induction false} InterpolateBetween(from: real, to: real, count: int)
    ensures var r := Interpolate(from, to, count);
      forall i :: 0 <= i < |r| ==>
        (if from <= to then from <= r[i] <= to else to <= r[i] <= from)
  {
    var r := Interpolate(from, to, count);
    InterpolateMonotone(from, to, count);
    InterpolateClosedForm(from, to, count);
    forall i | 0 <= i < |r|
      ensures if from <= to then from <= r[i] <= to else to <= r[i] <= from
    {
      assert r[0] <= r[i] <= r[|r| - 1] || r[|r| - 1] <= r[i] <= r[0];
    }
  }

  /** The values the package's own linear-interpolation cases expect. */
  lemma InterpolateExamples()
    ensures Interpolate(0.0, 100.0, 0) == [0.0, 100.0]
    ensures Interpolate(0.0, 100.0, 1) == [0.0, 50.0, 100.0]
    ensures Interpolate(0.0, 100.0, 3) == [0.0, 25.0, 50.0, 75.0, 100.0]
    ensures Interpolate(100.0, 0.0, 0) == [100.0, 0.0]
    ensures Interpolate(100.0, 0.0, 1) == [100.0, 50.0, 0.0]
    ensures Interpolate(100.0, 0.0, 3) == [100.0, 75.0, 50.0, 25.0, 0.0]
  {
    var a := Interpolate(0.0, 100.0, 1);
    assert a[1] == 50.0;
    var b := Interpolate(0.0, 100.0, 3);
    assert b[1] == 25.0 && b[2] == 50.0 && b[3] == 75.0;
    var c := Interpolate(100.0, 0.0, 1);
    assert c[1] == 50.0;
    var d := Interpolate(100.0, 0.0, 3);
    assert d[1] == 75.0 && d[2] == 50.0 && d[3] == 25.0;
  }

  /** `x` is a whole number of turns of 360 degrees. */
  predicate IsWholeTurns(x: real)
  {
    (x / 360.0).Floor as real == x / 360.0
  }

  /** The angle in [0, 360) that is a whole number of turns away from `v`. */
  function Wrap360(v: real): (r: real)
    ensures 0.0 <= r < 360.0
    ensures IsWholeTurns(v - r)
    ensures 0.0 <= v < 360.0 ==> r == v
  {
    var k := (v / 360.0).Floor;
    assert (v - (v - 360.0 * k as real)) / 360.0 == k as real;
    v - 360.0 * k as real
  }

  /** Only one angle in [0, 360) is a given whole number of turns away from `v`. */
  lemma WrapUnique(v: real, w: real, k: int)
    requires 0.0 <= w < 360.0 && w == v + 360.0 * k as real
    ensures w == Wrap360(v)
  {
    assert w / 360.0 == v / 360.0 + k as real;
    assert (v / 360.0).Floor == -k;
  }

  /** The `clamp` local to `interpolateCircular`: add 360 while negative,
      then subtract 360 while 360 or more. */
  method Clamp(value: real) returns (v: real)
    ensures 0.0 <= v < 360.0
    ensures IsWholeTurns(value - v)
    ensures v == Wrap360(value)
  {
    v := value;
    ghost var k: int := 0;
    while v < 0.0
      invariant v == value + 360.0 * k as real
      invariant 0 <= k && (k == 0 || v < 360.0)
      decreases (-v).Floor
    {
      v := v + 360.0;
      k := k + 1;
    }
    while v >= 360.0
      invariant v == value + 360.0 * k as real
      invariant 0.0 <= v
      decreases v.Floor
    {
      v := v - 360.0;
      k := k - 1;
    }
    WrapUnique(value, v, k);
  }

  /** `Wrap360` applied to every value. */
  function WrapAll(s: seq<real>): (r: seq<real>)
    ensures |r| == |s|
    ensures forall i :: 0 <= i < |r| ==> 0.0 <= r[i] < 360.0 && IsWholeTurns(s[i] - r[i])
  {
    seq(|s|, i requires 0 <= i < |s| => Wrap360(s[i]))
  }

  /** The hue to head for from `from` so as to reach `to` along the shorter
      arc: `to` itself, or `to` one turn up or down. */
  function ShortArcTarget(from: real, to: real): (t: real)
    ensures t == to || t == to - 360.0 || t == to + 360.0
    ensures -540.0 <= to - from <= 540.0 ==> -180.0 <= t - from <= 180.0
    ensures to - from == 180.0 || from - to == 180.0 ==> t == to
  {
    if to - from > 180.0 then to - 360.0
    else if from - to > 180.0 then to + 360.0
    else to
  }

  /** `interpolateCircular`: the source's clockwise flag and four-way switch
      on `(to > from, clockwise)`. */
  function InterpolateCircular(from: real, to: real, count: int): (r: seq<real>)
    ensures |r| == GradientLength(count)
  {
    var clockwise := (to > from && to - from <= 180.0) || (to < from && from - to > 180.0);
    if to > from && clockwise then
      Interpolate(from, to, count)
    else if !(to > from) && clockwise then
      WrapAll(Interpolate(from, to + 360.0, count))
    else if to > from && !clockwise then
      WrapAll(Interpolate(from, to - 360.0, count))
    else
      Interpolate(from, to, count)
  }

  /** Whatever the hues, the circular interpolation heads for the short-arc
      target: directly when that is `to` itself, and otherwise through `clamp`;
      so each value is a whole number of turns from the linear interpolation
      toward that target. */
  lemma {:induction false} CircularTowardShortArc(from: real, to: real, count: int)
    ensures var t := ShortArcTarget(from, to);
      InterpolateCircular(from, to, count)
        == if t == to then Interpolate(from, to, count) else WrapAll(Interpolate(from, t, count))
    ensures var r := InterpolateCircular(from, to, count);
      var lin := Interpolate(from, ShortArcTarget(from, to), count);
      forall i :: 0 <= i < |r| ==> IsWholeTurns(r[i] - lin[i])
  {
    var r := InterpolateCircular(from, to, count);
    var t := ShortArcTarget(from, to);
    var lin := Interpolate(from, t, count);
    if t == to {
      assert r == lin;
      forall i | 0 <= i < |r|
        ensures IsWholeTurns(r[i] - lin[i])
      {
        assert r[i] - lin[i] == 0.0;
      }
    } else {
      assert r == WrapAll(lin);
      forall i | 0 <= i < |r|
        ensures IsWholeTurns(r[i] - lin[i])
      {
        WholeTurnsNegate(lin[i] - r[i]);
      }
    }
  }

  /** Whole turns in one direction are whole turns in the other. */
  lemma WholeTurnsNegate(x: real)
    requires IsWholeTurns(x)
    ensures IsWholeTurns(-x)
  {
    var k := (x / 360.0).Floor;
    assert x / 360.0 == k as real;
    assert -x / 360.0 == -(x / 360.0);
    assert ((-k) as real).Floor == -k;
  }

  /** For hues on the wheel, the circular interpolation is the linear
      interpolation toward the short-arc target, wrapped back onto the wheel;
      so it stays on the wheel and starts and ends at the given hues. */
  lemma {:induction false} CircularFollowsShortArc(from: real, to: real, count: int)
    requires 0.0 <= from < 360.0 && 0.0 <= to < 360.0
    ensures InterpolateCircular(from, to, count) == WrapAll(Interpolate(from, ShortArcTarget(from, to), count))
    ensures var r := InterpolateCircular(from, to, count);
      r[0] == from && r[|r| - 1] == to && forall i :: 0 <= i < |r| ==> 0.0 <= r[i] < 360.0
  {
    var lin := Interpolate(from, to, count);
    var t := ShortArcTarget(from, to);
    CircularTowardShortArc(from, to, count);
    if t == to {
      InterpolateBetween(from, to, count);
      assert WrapAll(lin) == lin;
    }
    InterpolateClosedForm(from, t, count);
    var w := WrapAll(Interpolate(from, t, count));
    assert w[|w| - 1] == Wrap360(t);
    WrapUnique(t, to, if t == to then 0 else if t < to then 1 else -1);
  }

  /** A circular interpolation between hues on the wheel starts and ends at
      exactly the two given hues. */
  lemma CircularEndpoints(from: real, to: real, count: int)
    requires 0.0 <= from < 360.0 && 0.0 <= to < 360.0
    ensures var r := InterpolateCircular(from, to, count);
      r[0] == from && r[|r| - 1] == to
  {
    CircularFollowsShortArc(from, to, count);
  }

  /** The values the package's own hue-interpolation cases expect: the
      shorter way round, and the direct way at exactly half a turn. */
  lemma CircularExamples()
    ensures InterpolateCircular(0.0, 90.0, 0) == [0.0, 90.0]
    ensures InterpolateCircular(0.0, 90.0, 1) == [0.0, 45.0, 90.0]
    ensures InterpolateCircular(0.0, 270.0, 1) == [0.0, 315.0, 270.0]
    ensures InterpolateCircular(0.0, 180.0, 1) == [0.0, 90.0, 180.0]
    ensures InterpolateCircular(90.0, 0.0, 1) == [90.0, 45.0, 0.0]
    ensures InterpolateCircular(270.0, 0.0, 1) == [270.0, 315.0, 0.0]
  {
    var a := Interpolate(0.0, 90.0, 1);
    assert a[1] == 45.0;
    var b := Interpolate(0.0, -90.0, 1);
    assert b == [0.0, -45.0, -90.0];
    WrapUnique(-45.0, 315.0, 1);
    WrapUnique(-90.0, 270.0, 1);
    var c := Interpolate(0.0, 180.0, 1);
    assert c[1] == 90.0;
    var d := Interpolate(90.0, 0.0, 1);
    assert d[1] == 45.0;
    var e := Interpolate(270.0, 360.0, 1);
    assert e == [270.0, 315.0, 360.0];
    WrapUnique(360.0, 0.0, -1);
  }

  /** Swift's two-way `zip`: pairs up elements until either sequence ends. */
  function Zip<A, B>(a: seq<A>, b: seq<B>): (r: seq<(A, B)>)
    ensures |r| == if |a| <= |b| then |a| else |b|
    ensures forall i :: 0 <= i < |r| ==> r[i] == (a[i], b[i])
    decreases |a|
  {
    if |a| == 0 || |b| == 0 then [] else [(a[0], b[0])] + Zip(a[1..], b[1..])
  }

  /** The four-way `zip`, built from pairs of pairs as in the source and
      flattened to quadruples. */
  function Zip4<A, B, C, D>(a: seq<A>, b: seq<B>, c: seq<C>, d: seq<D>): (r: seq<(A, B, C, D)>)
    ensures |r| <= |a| && |r| <= |b| && |r| <= |c| && |r| <= |d|
    ensures |r| == |a| || |r| == |b| || |r| == |c| || |r| == |d|
    ensures forall i :: 0 <= i < |r| ==> r[i] == (a[i], b[i], c[i], d[i])
  {
    var p := Zip(Zip(a, b), Zip(c, d));
    seq(|p|, i requires 0 <= i < |p| => (p[i].0.0, p[i].0.1, p[i].1.0, p[i].1.1))
  }
}
