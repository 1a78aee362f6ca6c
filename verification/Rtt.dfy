/** The fixed-point round-trip estimator: srtt scaled by 32, rttvar scaled by 16, both moved by
    floor shifts, as section 2 of RFC 6298 smooths them. */
module Rtt {
  const MAX_RTT: int := 60000

  datatype Estimate = Estimate(srtt: int, rttvar: int)

  /** Sub-millisecond samples count as one, wild ones as four maximum segment lifetimes. */
  function Clamped(rtt: nat): (r: int)
    ensures 1 <= r <= MAX_RTT
    ensures (r == rtt <==> 1 <= rtt <= MAX_RTT) && (r < rtt ==> r == MAX_RTT) && (r > rtt ==> r == 1)
  {
    if rtt == 0 then 1 else if rtt > MAX_RTT then MAX_RTT else rtt
  }

  function AtLeastOne(x: int): int {
    if x <= 0 then 1 else x
  }

  function Abs(x: int): int {
    if x < 0 then -x else x
  }

  function Delta(srtt: int, rtt: int): int {
    rtt * 4 - srtt / 8
  }

  function First(rtt: int): Estimate {
    Estimate(rtt * 32, rtt * 8)
  }

  /** The estimate after a clamped sample. */
  function Smoothed(e: Estimate, rtt: int): Estimate {
    if e.srtt == 0 then First(rtt)
    else
      var delta := Delta(e.srtt, rtt);
      Estimate(AtLeastOne(e.srtt + delta), AtLeastOne(e.rttvar + (Abs(delta) - e.rttvar / 4)))
  }

  function SmoothAll(e: Estimate, rtts: seq<nat>): Estimate
    decreases |rtts|
  {
    if rtts == [] then e else SmoothAll(Smoothed(e, Clamped(rtts[0])), rtts[1..])
  }

  function VarBound(first: int, lo: int, hi: int): int {
    if 8 * first > 16 * (hi - lo) then 8 * first else 16 * (hi - lo)
  }

  /** The hull: srtt between the scaled extremes, rttvar positive and bounded. */
  ghost predicate InHull(e: Estimate, lo: int, hi: int, v: int) {
    32 * lo <= e.srtt <= 32 * hi && 1 <= e.rttvar <= v
  }

  /** One sample inside the extremes keeps the hull, in spite of the floor shifts, and the
      clamps to one never fire. */
  lemma SmoothedInHull(e: Estimate, rtt: int, lo: int, hi: int, v: int)
    requires 1 <= lo <= rtt <= hi && InHull(e, lo, hi, v) && 16 * (hi - lo) <= v && 8 <= v
    ensures InHull(Smoothed(e, rtt), lo, hi, v)
    ensures e.srtt + Delta(e.srtt, rtt) > 0 && e.rttvar + (Abs(Delta(e.srtt, rtt)) - e.rttvar / 4) > 0
  {
    var q := e.srtt / 8;
    assert 8 * q <= e.srtt < 8 * q + 8;
    var delta := Delta(e.srtt, rtt);
    assert 4 * lo <= q <= 4 * hi;
    assert Abs(delta) <= 4 * (hi - lo);
    var w := e.rttvar / 4;
    assert 4 * w <= e.rttvar < 4 * w + 4;
  }

  ghost predicate Between(rtts: seq<nat>, lo: int, hi: int) {
    forall i :: 0 <= i < |rtts| ==> lo <= Clamped(rtts[i]) <= hi
  }

  lemma {:induction false} RunInHull(e: Estimate, rtts: seq<nat>, lo: int, hi: int, v: int)
    requires 1 <= lo <= hi && InHull(e, lo, hi, v) && 16 * (hi - lo) <= v && 8 <= v && Between(rtts, lo, hi)
    ensures InHull(SmoothAll(e, rtts), lo, hi, v)
    decreases |rtts|
  {
    if rtts != [] {
      SmoothedInHull(e, Clamped(rtts[0]), lo, hi, v);
      RunInHull(Smoothed(e, Clamped(rtts[0])), rtts[1..], lo, hi, v);
    }
  }

  /** From the first sample on, over any samples between lo and hi, the scaled estimate stays
      in the hull of the samples. */
  lemma {:induction false} EstimatorHull(rtts: seq<nat>, lo: int, hi: int)
    requires rtts != [] && 1 <= lo <= hi && Between(rtts, lo, hi)
    ensures var e := SmoothAll(Estimate(0, 0), rtts); InHull(e, lo, hi, VarBound(Clamped(rtts[0]), lo, hi))
  {
    var first := Clamped(rtts[0]);
    RunInHull(First(first), rtts[1..], lo, hi, VarBound(first, lo, hi));
  }

  /** A constant round trip is reproduced exactly, whatever is in between. */
  lemma {:induction false} ConstantIsExact(rtts: seq<nat>, r: int)
    requires rtts != [] && 1 <= r && Between(rtts, r, r)
    ensures SmoothAll(Estimate(0, 0), rtts).srtt == 32 * r
  {
    EstimatorHull(rtts, r, r);
  }

  /** The samples are all r. */
  ghost predicate Steady(rtts: seq<nat>, r: int) {
    forall i :: 0 <= i < |rtts| ==> Clamped(rtts[i]) == r
  }

  /** How far srtt is from the band the floor shift cannot tell from r. */
  function OffBand(srtt: int, r: int): nat {
    if srtt < 32 * r then 32 * r - srtt else if srtt > 32 * r + 7 then srtt - (32 * r + 7) else 0
  }

  lemma StepTowardsBand(e: Estimate, r: int)
    requires e.srtt > 0 && 1 <= r
    ensures Smoothed(e, r).srtt > 0
    ensures OffBand(e.srtt, r) == 0 ==> Smoothed(e, r).srtt == e.srtt
    ensures OffBand(e.srtt, r) > 0 ==> OffBand(Smoothed(e, r).srtt, r) < OffBand(e.srtt, r)
  {
    var q := e.srtt / 8;
    assert 8 * q <= e.srtt < 8 * q + 8;
  }

  /** A steady round trip is found from any earlier estimate: srtt enters the 7/32 ms band above
      it and then no longer moves, so the floor shift biases the estimate by at most that. */
  lemma {:induction false} Settles(e: Estimate, rtts: seq<nat>, r: int)
    requires e.srtt > 0 && 1 <= r && Steady(rtts, r) && |rtts| >= OffBand(e.srtt, r)
    ensures 32 * r <= SmoothAll(e, rtts).srtt <= 32 * r + 7
    decreases |rtts|
  {
    if rtts != [] {
      StepTowardsBand(e, r);
      Settles(Smoothed(e, r), rtts[1..], r);
    }
  }

  // ------------------------------------------------------------------- the variance

  /** The first sample is taken as it is, between 1 ms and a minute, and its variance as half of it. */
  lemma FirstSample(rtt: nat)
    ensures SmoothAll(Estimate(0, 0), [rtt]) ==
            if rtt == 0 then Estimate(32, 8) else if rtt > 60000 then Estimate(1920000, 480000) else Estimate(32 * rtt, 8 * rtt)
  {
    assert [rtt][1..] == [];
  }

  /** One step in numbers. With deviation d = (32 rtt - srtt) / 8 rounded up, srtt moves by d, so
      it is 7/8 srtt + 1/8 (32 rtt) up to less than one unit; and rttvar becomes 3/4 rttvar + |d| up
      to less than one unit. */
  lemma StepInNumbers(e: Estimate, rtt: int, d: int)
    requires e.srtt > 0 && 1 <= rtt && 1 <= e.rttvar && 32 * rtt - e.srtt <= 8 * d < 32 * rtt - e.srtt + 8
    ensures Smoothed(e, rtt).srtt == e.srtt + d
    ensures 0 <= 8 * Smoothed(e, rtt).srtt - (7 * e.srtt + 32 * rtt) < 8
    ensures 0 <= 4 * Smoothed(e, rtt).rttvar - (3 * e.rttvar + 4 * Abs(d)) < 4
  {
    var q, w := e.srtt / 8, e.rttvar / 4;
    assert 8 * q <= e.srtt < 8 * q + 8 && 4 * w <= e.rttvar < 4 * w + 4;
    assert d == 4 * rtt - q;
  }

  /** The variance rises exactly when the deviation exceeds a quarter of it, and falls exactly
      when it is below. */
  lemma VarianceFollows(e: Estimate, rtt: int, d: int)
    requires e.srtt > 0 && 1 <= rtt && 1 <= e.rttvar && 32 * rtt - e.srtt <= 8 * d < 32 * rtt - e.srtt + 8
    ensures Smoothed(e, rtt).rttvar > e.rttvar <==> Abs(d) > e.rttvar / 4
    ensures Smoothed(e, rtt).rttvar < e.rttvar <==> Abs(d) < e.rttvar / 4
  {
    var q, w := e.srtt / 8, e.rttvar / 4;
    assert 8 * q <= e.srtt < 8 * q + 8 && 4 * w <= e.rttvar < 4 * w + 4;
    assert d == 4 * rtt - q;
  }

  /** Once srtt is in the band, steady samples shrink the variance by at least one a step until
      it is at most 3, below which a floor shift moves nothing. */
  lemma {:induction false} VarianceDecays(e: Estimate, rtts: seq<nat>, r: int)
    requires e.srtt > 0 && 1 <= r && OffBand(e.srtt, r) == 0 && 1 <= e.rttvar && Steady(rtts, r) && |rtts| >= e.rttvar
    ensures 1 <= SmoothAll(e, rtts).rttvar <= 3
    decreases |rtts|
  {
    var y := Smoothed(e, r);
    StepTowardsBand(e, r);
    assert e.srtt / 8 == 4 * r;
    assert y.rttvar == e.rttvar - e.rttvar / 4;
    if e.rttvar >= 4 {
      VarianceDecays(y, rtts[1..], r);
    } else {
      VarianceRests(e, rtts, r);
    }
  }

  lemma {:induction false} VarianceRests(e: Estimate, rtts: seq<nat>, r: int)
    requires e.srtt > 0 && 1 <= r && OffBand(e.srtt, r) == 0 && 1 <= e.rttvar <= 3 && Steady(rtts, r)
    ensures SmoothAll(e, rtts) == e
    decreases |rtts|
  {
    if rtts != [] {
      assert e.srtt / 8 == 4 * r;
      VarianceRests(e, rtts[1..], r);
    }
  }

  /** What the variance can rise to while srtt is that far off. */
  function VarianceCap(rttvar: int, off: nat): (v: int)
    ensures v >= rttvar && v >= 4 * (off / 8 + 1)
  {
    if rttvar > 4 * (off / 8 + 1) then rttvar else 4 * (off / 8 + 1)
  }

  lemma StepUnderCap(e: Estimate, r: int, v: int)
    requires e.srtt > 0 && 1 <= r && 1 <= e.rttvar <= v && 4 * (OffBand(e.srtt, r) / 8 + 1) <= v
    ensures 1 <= Smoothed(e, r).rttvar <= v
  {
    var q, w, o := e.srtt / 8, e.rttvar / 4, OffBand(e.srtt, r) / 8;
    assert 8 * q <= e.srtt < 8 * q + 8 && 4 * w <= e.rttvar < 4 * w + 4;
    assert Abs(4 * r - q) <= o + 1;
  }

  /** The counterpart of settling: from any estimate, steady samples bring srtt into the band and
      rttvar down to at most 3, within as many samples as srtt is off plus the variance's cap. */
  lemma {:induction false} VarianceSettles(e: Estimate, rtts: seq<nat>, r: int, v: int)
    requires e.srtt > 0 && 1 <= r && 1 <= e.rttvar <= v && 4 * (OffBand(e.srtt, r) / 8 + 1) <= v
    requires Steady(rtts, r) && |rtts| >= OffBand(e.srtt, r) + v
    ensures 32 * r <= SmoothAll(e, rtts).srtt <= 32 * r + 7 && 1 <= SmoothAll(e, rtts).rttvar <= 3
    decreases |rtts|
  {
    Settles(e, rtts, r);
    if OffBand(e.srtt, r) == 0 {
      VarianceDecays(e, rtts, r);
    } else {
      StepTowardsBand(e, r);
      StepUnderCap(e, r, v);
      VarianceSettles(Smoothed(e, r), rtts[1..], r, v);
    }
  }

  lemma {:induction false} SteadyIsFound(e: Estimate, rtts: seq<nat>, r: int)
    requires e.srtt > 0 && 1 <= r && 1 <= e.rttvar && Steady(rtts, r)
    requires |rtts| >= OffBand(e.srtt, r) + VarianceCap(e.rttvar, OffBand(e.srtt, r))
    ensures 32 * r <= SmoothAll(e, rtts).srtt <= 32 * r + 7 && 1 <= SmoothAll(e, rtts).rttvar <= 3
  {
    VarianceSettles(e, rtts, r, VarianceCap(e.rttvar, OffBand(e.srtt, r)));
  }

  /** So the 32-bit fields never overflow: any run of samples stays below 2^21. */
  lemma {:induction false} EstimatorFits(rtts: seq<nat>)
    requires rtts != []
    ensures var e := SmoothAll(Estimate(0, 0), rtts); 32 <= e.srtt < 0x20_0000 && 1 <= e.rttvar < 0x20_0000
  {
    EstimatorHull(rtts, 1, MAX_RTT);
  }

  class Tcpcb {
    var srtt: int
    var rttvar: int

    constructor ()
      ensures State() == Estimate(0, 0)
    {
      srtt, rttvar := 0, 0;
    }

    function State(): Estimate
      reads this
    {
      Estimate(srtt, rttvar)
    }

    method XmitTimer(rtt: nat)
      modifies this
      ensures State() == Smoothed(old(State()), Clamped(rtt))
    {
      var r: int := rtt;
      if r == 0 {
        r := 1;
      }
      if r > MAX_RTT {
        r := MAX_RTT;
      }
      if srtt != 0 {
        var delta := r * 4 - srtt / 8;
        srtt := srtt + delta;
        if srtt <= 0 {
          srtt := 1;
        }
        if delta < 0 {
          delta := -delta;
        }
        delta := delta - rttvar / 4;
        rttvar := rttvar + delta;
        if rttvar <= 0 {
          rttvar := 1;
        }
      } else {
        srtt, rttvar := r * 32, r * 8;
      }
    }
  }
}
