/** The challenge-ACK limiter of section 7 of RFC 5961 as the kernel keeps it per connection,
    and its simulated twin inside a system under learning. */
module Limiter {
  import opened SeqSpace
  import opened Machines

  // ---------------------------------------------------------------- the simulated twin

  /** cnt grants since anchor; a negative anchor means none yet. */
  datatype Sim = Sim(cnt: int, anchor: real)

  predicate SimOpens(s: Sim, now: real) {
    s.anchor < 0.0 || now - s.anchor >= 1000.0
  }

  predicate SimGrants(s: Sim, limit: int, now: real) {
    SimOpens(s, now) || s.cnt < limit
  }

  function SimStep(s: Sim, limit: int, now: real): Sim {
    if SimOpens(s, now) then Sim(1, now)
    else if s.cnt < limit then s.(cnt := s.cnt + 1)
    else s
  }

  function SimRun(s: Sim, limit: int, times: seq<real>): (a: seq<bool>)
    ensures |a| == |times|
    decreases |times|
  {
    if times == [] then [] else [SimGrants(s, limit, times[0])] + SimRun(SimStep(s, limit, times[0]), limit, times[1..])
  }

  function SimAfter(s: Sim, limit: int, times: seq<real>): Sim
    decreases |times|
  {
    if times == [] then s else SimAfter(SimStep(s, limit, times[0]), limit, times[1..])
  }

  function Grants(a: seq<bool>): nat {
    if a == [] then 0 else (if a[0] then 1 else 0) + Grants(a[1..])
  }

  /** What one window can grant. */
  function Quota(limit: int): (q: int)
    ensures q >= 1 && q >= limit
  {
    if limit < 1 then 1 else limit
  }

  ghost predicate Before(times: seq<real>, bound: real) {
    forall i :: 0 <= i < |times| ==> times[i] < bound
  }

  ghost predicate NotBefore(times: seq<real>, bound: real) {
    forall i :: 0 <= i < |times| ==> bound <= times[i]
  }

  ghost predicate NonDecreasing(times: seq<real>) {
    forall i, j :: 0 <= i < j < |times| ==> times[i] <= times[j]
  }

  function Min(a: int, b: int): int {
    if a < b then a else b
  }

  /** Inside an open window, the remaining quota is granted and no more. */
  lemma {:induction false} RestOfWindow(s: Sim, limit: int, times: seq<real>)
    requires 1 <= s.cnt <= Quota(limit) && s.anchor >= 0.0 && Before(times, s.anchor + 1000.0)
    ensures Grants(SimRun(s, limit, times)) == Min(|times|, Quota(limit) - s.cnt)
    decreases |times|
  {
    if times != [] {
      var a := SimRun(s, limit, times);
      assert a[1..] == SimRun(SimStep(s, limit, times[0]), limit, times[1..]);
      RestOfWindow(SimStep(s, limit, times[0]), limit, times[1..]);
    }
  }

  /** A window grants exactly the smaller of its calls and its quota: from the call that opens
      it, over every call within 1000 ms of that one. */
  lemma {:induction false} TwinWindowGrants(s: Sim, limit: int, times: seq<real>)
    requires times != [] && times[0] >= 0.0 && SimOpens(s, times[0]) && Before(times, times[0] + 1000.0)
    ensures Grants(SimRun(s, limit, times)) == Min(|times|, Quota(limit))
  {
    var a := SimRun(s, limit, times);
    assert a[1..] == SimRun(Sim(1, times[0]), limit, times[1..]);
    RestOfWindow(Sim(1, times[0]), limit, times[1..]);
  }

  /** States a run from reset goes through. */
  ghost predicate Counting(s: Sim, limit: int) {
    s.anchor < 0.0 || 1 <= s.cnt <= Quota(limit)
  }

  lemma {:induction false} CountingKept(s: Sim, limit: int, times: seq<real>)
    requires Counting(s, limit) && NotBefore(times, 0.0)
    ensures Counting(SimAfter(s, limit, times), limit)
    decreases |times|
  {
    if times != [] {
      CountingKept(SimStep(s, limit, times[0]), limit, times[1..]);
    }
  }

  /** What the state still owes the interval: the rest of a window opened before it. */
  function Carried(s: Sim, limit: int): int {
    if s.anchor < 0.0 then 0 else Quota(limit) - s.cnt
  }

  /** From any reachable state, the calls of any 1000 ms interval are granted at most what the
      open window has left plus one whole quota: less than twice the quota. */
  lemma {:induction false} IntervalGrants(s: Sim, limit: int, times: seq<real>, x: real)
    requires Counting(s, limit) && NotBefore(times, 0.0)
    requires NotBefore(times, x) && Before(times, x + 1000.0) && NonDecreasing(times)
    ensures Grants(SimRun(s, limit, times)) <= Carried(s, limit) + Quota(limit)
    decreases |times|
  {
    if times != [] {
      var t, rest := times[0], times[1..];
      var a := SimRun(s, limit, times);
      assert a[1..] == SimRun(SimStep(s, limit, t), limit, rest);
      if SimOpens(s, t) {
        assert Before(rest, t + 1000.0);
        RestOfWindow(Sim(1, t), limit, rest);
      } else {
        IntervalGrants(SimStep(s, limit, t), limit, rest, x);
      }
    }
  }

  /** Over whole runs from reset: whatever was called before, any 1000 ms interval sees at most
      2 * max(1, limit) - 1 grants. */
  lemma {:induction false} TwinIntervalBound(limit: int, before: seq<real>, times: seq<real>, x: real)
    requires NotBefore(before, 0.0) && NotBefore(times, 0.0)
    requires NotBefore(times, x) && Before(times, x + 1000.0) && NonDecreasing(times)
    ensures Grants(SimRun(SimAfter(Sim(0, -1.0), limit, before), limit, times)) <= 2 * Quota(limit) - 1
  {
    var s := SimAfter(Sim(0, -1.0), limit, before);
    CountingKept(Sim(0, -1.0), limit, before);
    IntervalGrants(s, limit, times, x);
  }

  function Repeat<T>(t: T, n: nat): (r: seq<T>)
    ensures |r| == n && forall i :: 0 <= i < n ==> r[i] == t
  {
    if n == 0 then [] else [t] + Repeat(t, n - 1)
  }

  /** The bound is attained, for every limit: one call at 0 ms, then the rest of the quota at
      999 ms and a whole quota at 1000 ms. */
  lemma {:induction false} TwinBoundAttained(limit: int)
    ensures var times := Repeat(999.0, Quota(limit) - 1) + Repeat(1000.0, Quota(limit));
            && NotBefore(times, 999.0) && Before(times, 1999.0) && NonDecreasing(times)
            && Grants(SimRun(SimAfter(Sim(0, -1.0), limit, [0.0]), limit, times)) == 2 * Quota(limit) - 1
  {
    var q := Quota(limit);
    var early, late := Repeat(999.0, q - 1), Repeat(1000.0, q);
    var s := Sim(1, 0.0);
    assert SimAfter(Sim(0, -1.0), limit, [0.0]) == s;
    SimRunConcat(s, limit, early, late);
    GrantsConcat(SimRun(s, limit, early), SimRun(SimAfter(s, limit, early), limit, late));
    RestOfWindow(s, limit, early);
    AnchorStays(s, limit, early);
    TwinWindowGrants(SimAfter(s, limit, early), limit, late);
  }

  lemma {:induction false} SimRunConcat(s: Sim, limit: int, u: seq<real>, v: seq<real>)
    ensures SimRun(s, limit, u + v) == SimRun(s, limit, u) + SimRun(SimAfter(s, limit, u), limit, v)
    decreases |u|
  {
    if u == [] {
      assert u + v == v;
    } else {
      assert (u + v)[1..] == u[1..] + v;
      SimRunConcat(SimStep(s, limit, u[0]), limit, u[1..], v);
    }
  }

  lemma {:induction false} GrantsConcat(a: seq<bool>, b: seq<bool>)
    ensures Grants(a + b) == Grants(a) + Grants(b)
    decreases |a|
  {
    if a == [] {
      assert a + b == b;
    } else {
      assert (a + b)[1..] == a[1..] + b;
      GrantsConcat(a[1..], b);
    }
  }

  lemma {:induction false} AnchorStays(s: Sim, limit: int, times: seq<real>)
    requires s.anchor >= 0.0 && Before(times, s.anchor + 1000.0)
    ensures SimAfter(s, limit, times).anchor == s.anchor
    decreases |times|
  {
    if times != [] {
      AnchorStays(SimStep(s, limit, times[0]), limit, times[1..]);
    }
  }

  // ------------------------------------------------------------------------ the kernel

  /** Per-connection fields; last == 0 stands for "never". */
  datatype Fields = Fields(last: u32, count: u32)

  predicate KernelOpens(f: Fields, now: u32) {
    f.last == 0 || Diff(now, f.last) >= 1000
  }

  predicate KernelGrants(f: Fields, limit: u32, now: u32) {
    KernelOpens(f, now) || f.count < limit
  }

  function KernelStep(f: Fields, limit: u32, now: u32): Fields {
    if KernelOpens(f, now) then Fields(now, 1)
    else if f.count < limit then f.(count := f.count + 1)
    else f
  }

  function KernelRun(f: Fields, limit: u32, times: seq<int>): (a: seq<bool>)
    ensures |a| == |times|
    decreases |times|
  {
    if times == [] then []
    else
      var now := Wrap(times[0]);
      [KernelGrants(f, limit, now)] + KernelRun(KernelStep(f, limit, now), limit, times[1..])
  }

  function Reals(times: seq<int>): (r: seq<real>)
    ensures |r| == |times| && forall i :: 0 <= i < |times| ==> r[i] == times[i] as real
  {
    if times == [] then [] else [times[0] as real] + Reals(times[1..])
  }

  /** Kernel and twin in step; a negative anchor on both sides is "never". */
  ghost predicate InStep(f: Fields, s: Sim, anchor: int) {
    if anchor < 0 then f.last == 0 && s.anchor < 0.0
    else f.last == Wrap(anchor) != 0 && s.anchor == anchor as real && f.count == s.cnt
  }

  /** Call times, never zero on the 32-bit clock, each less than 2^31 ms after the anchor of its
      time. */
  ghost predicate Near(anchor: int, times: seq<int>)
    decreases |times|
  {
    times == [] || (
      var t := times[0];
      && 0 <= t && anchor <= t && Wrap(t) != 0 && (anchor >= 0 ==> t - anchor < HALF)
      && Near(if anchor < 0 || t - anchor >= 1000 then t else anchor, times[1..]))
  }

  lemma StepsAlike(f: Fields, s: Sim, anchor: int, limit: u32, t: int)
    requires InStep(f, s, anchor) && 0 <= t && anchor <= t && Wrap(t) != 0 && (anchor >= 0 ==> t - anchor < HALF)
    ensures KernelGrants(f, limit, Wrap(t)) == SimGrants(s, limit, t as real)
    ensures InStep(KernelStep(f, limit, Wrap(t)), SimStep(s, limit, t as real),
                   if anchor < 0 || t - anchor >= 1000 then t else anchor)
  {
    if anchor >= 0 {
      DiffInWindow(t, anchor);
      assert t as real - anchor as real == (t - anchor) as real;
    }
  }

  /** The twin answers every call as the kernel does, however often the 32-bit clock wraps. */
  lemma {:induction false} TwinAnswersAlike(f: Fields, s: Sim, anchor: int, limit: u32, times: seq<int>)
    requires InStep(f, s, anchor) && Near(anchor, times)
    ensures KernelRun(f, limit, times) == SimRun(s, limit, Reals(times))
    decreases |times|
  {
    if times != [] {
      var t := times[0];
      StepsAlike(f, s, anchor, limit, t);
      TwinAnswersAlike(KernelStep(f, limit, Wrap(t)), SimStep(s, limit, t as real),
                       if anchor < 0 || t - anchor >= 1000 then t else anchor, limit, times[1..]);
      assert Reals(times)[1..] == Reals(times[1..]);
    }
  }

  function KernelAfter(f: Fields, limit: u32, times: seq<int>): Fields
    decreases |times|
  {
    if times == [] then f else KernelAfter(KernelStep(f, limit, Wrap(times[0])), limit, times[1..])
  }

  /** Where the window open after the calls began. */
  function AnchorAfter(anchor: int, times: seq<int>): int
    decreases |times|
  {
    if times == [] then anchor
    else AnchorAfter(if anchor < 0 || times[0] - anchor >= 1000 then times[0] else anchor, times[1..])
  }

  lemma {:induction false} InStepAfter(f: Fields, s: Sim, anchor: int, limit: u32, times: seq<int>)
    requires InStep(f, s, anchor) && Near(anchor, times)
    ensures InStep(KernelAfter(f, limit, times), SimAfter(s, limit, Reals(times)), AnchorAfter(anchor, times))
    decreases |times|
  {
    if times != [] {
      var t := times[0];
      StepsAlike(f, s, anchor, limit, t);
      assert Reals(times)[1..] == Reals(times[1..]);
      InStepAfter(KernelStep(f, limit, Wrap(t)), SimStep(s, limit, t as real),
                  if anchor < 0 || t - anchor >= 1000 then t else anchor, limit, times[1..]);
    }
  }

  lemma {:induction false} NearConcat(anchor: int, u: seq<int>, v: seq<int>)
    requires Near(anchor, u + v)
    ensures Near(anchor, u) && Near(AnchorAfter(anchor, u), v)
    decreases |u|
  {
    if u == [] {
      assert u + v == v;
    } else {
      assert (u + v)[1..] == u[1..] + v;
      NearConcat(if anchor < 0 || u[0] - anchor >= 1000 then u[0] else anchor, u[1..], v);
    }
  }

  lemma {:induction false} NearIsNonNegative(anchor: int, times: seq<int>)
    requires Near(anchor, times)
    ensures forall i :: 0 <= i < |times| ==> 0 <= times[i]
    decreases |times|
  {
    if times != [] {
      NearIsNonNegative(if anchor < 0 || times[0] - anchor >= 1000 then times[0] else anchor, times[1..]);
      assert forall i :: 0 < i < |times| ==> times[i] == times[1..][i - 1];
    }
  }

  /** The kernel's fields on a new connection after some calls. */
  function FromReset(limit: u32, before: seq<int>): Fields {
    KernelAfter(Fields(0, 0), limit, before)
  }

  /** From a new connection, the kernel's answers after any calls are the twin's. */
  lemma {:induction false} KernelIsTwin(limit: u32, before: seq<int>, times: seq<int>)
    requires Near(-1, before + times)
    ensures KernelRun(FromReset(limit, before), limit, times) ==
            SimRun(SimAfter(Sim(0, -1.0), limit, Reals(before)), limit, Reals(times))
    ensures InStep(FromReset(limit, before), SimAfter(Sim(0, -1.0), limit, Reals(before)), AnchorAfter(-1, before))
    ensures NotBefore(Reals(before), 0.0) && NotBefore(Reals(times), 0.0)
    ensures Near(AnchorAfter(-1, before), times)
  {
    NearConcat(-1, before, times);
    NearIsNonNegative(-1, before);
    NearIsNonNegative(AnchorAfter(-1, before), times);
    InStepAfter(Fields(0, 0), Sim(0, -1.0), -1, limit, before);
    TwinAnswersAlike(FromReset(limit, before), SimAfter(Sim(0, -1.0), limit, Reals(before)), AnchorAfter(-1, before), limit, times);
  }

  ghost predicate Within(times: seq<int>, lo: int, hi: int) {
    forall i :: 0 <= i < |times| ==> lo <= times[i] < hi
  }

  ghost predicate Ascending(times: seq<int>) {
    forall i, j :: 0 <= i < j < |times| ==> times[i] <= times[j]
  }

  /** Limiter exactness of the kernel: after any calls, the window that a call opens grants
      exactly the smaller of the calls within 1000 ms of it and max(1, limit). */
  lemma {:induction false} KernelWindowGrantsExactly(limit: u32, before: seq<int>, times: seq<int>)
    requires Near(-1, before + times) && times != []
    requires KernelOpens(FromReset(limit, before), Wrap(times[0])) && Within(times, times[0], times[0] + 1000)
    ensures Grants(KernelRun(FromReset(limit, before), limit, times)) == Min(|times|, Quota(limit))
  {
    KernelIsTwin(limit, before, times);
    var f, s, anchor := FromReset(limit, before), SimAfter(Sim(0, -1.0), limit, Reals(before)), AnchorAfter(-1, before);
    OpensAlike(f, s, anchor, times[0]);
    TwinWindowGrants(s, limit, Reals(times));
  }

  lemma OpensAlike(f: Fields, s: Sim, anchor: int, t: int)
    requires InStep(f, s, anchor) && 0 <= t && anchor <= t && (anchor >= 0 ==> t - anchor < HALF)
    ensures KernelOpens(f, Wrap(t)) <==> SimOpens(s, t as real)
  {
    if anchor >= 0 {
      DiffInWindow(t, anchor);
      assert t as real - anchor as real == (t - anchor) as real;
    }
  }

  /** Over whole runs of the kernel from a new connection: whatever was called before, any
      1000 ms interval sees at most 2 * max(1, limit) - 1 grants. */
  lemma {:induction false} KernelIntervalBound(limit: u32, before: seq<int>, times: seq<int>, x: int)
    requires Near(-1, before + times) && Within(times, x, x + 1000) && Ascending(times)
    ensures Grants(KernelRun(FromReset(limit, before), limit, times)) <= 2 * Quota(limit) - 1
  {
    KernelIsTwin(limit, before, times);
    TwinIntervalBound(limit, Reals(before), Reals(times), x as real);
  }

  lemma {:induction false} CallsNear(anchor: int, t: int, n: nat, rest: seq<int>)
    requires 0 <= anchor <= t < anchor + 1000 && Wrap(t) != 0 && Near(anchor, rest)
    ensures Near(anchor, Repeat(t, n) + rest)
    decreases n
  {
    var all := Repeat(t, n) + rest;
    if n == 0 {
      assert all == rest;
    } else {
      assert all[1..] == Repeat(t, n - 1) + rest;
      CallsNear(anchor, t, n - 1, rest);
    }
  }

  /** Calls that attain the bound: one at 1 ms, the rest of the quota at 1000 ms and a whole
      quota at 1001 ms. */
  function Crowded(limit: int): seq<int> {
    Repeat(1000, Quota(limit) - 1) + Repeat(1001, Quota(limit))
  }

  lemma CrowdedNear(limit: int)
    ensures Near(-1, [1] + Crowded(limit))
  {
    var late := Repeat(1001, Quota(limit));
    SmallWrap(1);
    SmallWrap(1000);
    SmallWrap(1001);
    assert late[1..] == Repeat(1001, Quota(limit) - 1);
    CallsNear(1001, 1001, Quota(limit) - 1, []);
    assert late[1..] + [] == late[1..];
    assert Near(1, late);
    CallsNear(1, 1000, Quota(limit) - 1, late);
    assert ([1] + Crowded(limit))[1..] == Crowded(limit);
  }

  /** The bound is attained by the kernel, for every limit. */
  lemma {:induction false} KernelBoundAttained(limit: u32)
    ensures Near(-1, [1] + Crowded(limit)) && Within(Crowded(limit), 1000, 2000) && Ascending(Crowded(limit))
    ensures Grants(KernelRun(FromReset(limit, [1]), limit, Crowded(limit))) == 2 * Quota(limit) - 1
  {
    CrowdedNear(limit);
    KernelIsTwin(limit, [1], Crowded(limit));
    CrowdedGrants(limit);
    assert Reals([1]) == [1.0];
    assert [1.0][1..] == [];
    assert SimAfter(Sim(0, -1.0), limit, [1.0]) == Sim(1, 1.0);
  }

  lemma {:induction false} CrowdedGrants(limit: int)
    ensures Grants(SimRun(Sim(1, 1.0), limit, Reals(Crowded(limit)))) == 2 * Quota(limit) - 1
  {
    var s, q := Sim(1, 1.0), Quota(limit);
    var early, late := Reals(Repeat(1000, q - 1)), Reals(Repeat(1001, q));
    assert Reals(Crowded(limit)) == early + late;
    SimRunConcat(s, limit, early, late);
    GrantsConcat(SimRun(s, limit, early), SimRun(SimAfter(s, limit, early), limit, late));
    RestOfWindow(s, limit, early);
    AnchorStays(s, limit, early);
    TwinWindowGrants(SimAfter(s, limit, early), limit, late);
  }

  /** Where the window of agreement ends: less than a full turn after the anchor, the two agree
      on opening a new window exactly when fewer than 2^31 ms have passed. */
  lemma OpensAlikeExactly(f: Fields, s: Sim, anchor: int, t: int)
    requires anchor >= 0 && InStep(f, s, anchor) && anchor <= t < anchor + M
    ensures (KernelOpens(f, Wrap(t)) <==> SimOpens(s, t as real)) <==> t - anchor < HALF
  {
    WrapOfDifference(t, anchor);
    SmallWrap(t - anchor);
    assert t as real - anchor as real == (t - anchor) as real;
  }

  // -------------------------------------------------------------------- the zero reading

  ghost predicate AllZero(times: seq<int>) {
    forall i :: 0 <= i < |times| ==> Wrap(times[i]) == 0
  }

  function Spare(f: Fields, limit: u32): nat {
    if f.count < limit then limit - f.count else 0
  }

  /** While the 32-bit clock reads zero the kernel limits nothing if the first of the calls opens
      a window, because the anchor it then stores says "never"; a window opened before still
      limits to what it has left. */
  lemma {:induction false} ZeroClockGrants(f: Fields, limit: u32, times: seq<int>)
    requires AllZero(times)
    ensures Grants(KernelRun(f, limit, times)) == if KernelOpens(f, 0) then |times| else Min(|times|, Spare(f, limit))
    decreases |times|
  {
    if times != [] {
      var a := KernelRun(f, limit, times);
      assert Wrap(times[0]) == 0;
      assert a[1..] == KernelRun(KernelStep(f, limit, 0), limit, times[1..]);
      ZeroClockGrants(KernelStep(f, limit, 0), limit, times[1..]);
    }
  }

  /** So at reading zero every call is granted if and only if a window opens there or the open
      one has room for all. */
  lemma {:induction false} ZeroClockLimitsExactly(f: Fields, limit: u32, times: seq<int>)
    requires AllZero(times)
    ensures Grants(KernelRun(f, limit, times)) == |times| <==> KernelOpens(f, 0) || |times| <= Spare(f, limit)
  {
    ZeroClockGrants(f, limit, times);
  }

  /** In step, whatever the anchor. */
  ghost predicate Together(f: Fields, s: Sim) {
    exists anchor :: InStep(f, s, anchor)
  }

  /** A call that opens a window leaves kernel and twin in step if and only if the 32-bit clock
      does not read zero. */
  lemma OpeningKeepsStepExactly(f: Fields, s: Sim, limit: u32, t: int)
    requires KernelOpens(f, Wrap(t)) && SimOpens(s, t as real) && 0 <= t
    ensures Together(KernelStep(f, limit, Wrap(t)), SimStep(s, limit, t as real)) <==> Wrap(t) != 0
  {
    if Wrap(t) != 0 {
      assert InStep(KernelStep(f, limit, Wrap(t)), SimStep(s, limit, t as real), t);
    }
  }

  /** Out of step they answer differently: after a window opened at reading zero, n more calls
      at that time are all granted by the kernel and only up to the quota by the twin, so the
      answers agree exactly while the quota lasts. */
  lemma {:induction false} ZeroOpeningParts(f: Fields, s: Sim, limit: u32, t: int, n: nat)
    requires KernelOpens(f, Wrap(t)) && SimOpens(s, t as real) && 0 <= t && Wrap(t) == 0
    ensures Grants(KernelRun(KernelStep(f, limit, 0), limit, Repeat(t, n))) == n
    ensures Grants(SimRun(SimStep(s, limit, t as real), limit, Reals(Repeat(t, n)))) == Min(n, Quota(limit) - 1)
  {
    ZeroClockGrants(KernelStep(f, limit, 0), limit, Repeat(t, n));
    RestOfWindow(Sim(1, t as real), limit, Reals(Repeat(t, n)));
  }

  class Tcpcb {
    var challengeAckLast: u32
    var challengeAckCount: u32

    constructor ()
      ensures State() == Fields(0, 0)
    {
      challengeAckLast, challengeAckCount := 0, 0;
    }

    function State(): Fields
      reads this
    {
      Fields(challengeAckLast, challengeAckCount)
    }

    /** True if the ACK must not be sent. The overflow guard of the counter never holds it
        back. */
    method IsAckRateLimited(now: u32, limit: u32) returns (limited: bool)
      modifies this
      ensures limited == !KernelGrants(old(State()), limit, now)
      ensures State() == KernelStep(old(State()), limit, now)
    {
      limited := true;
      var diff := Diff(now, challengeAckLast);
      if challengeAckLast == 0 || diff >= 1000 {
        challengeAckLast, challengeAckCount := now, 0;
        limited := false;
      } else if challengeAckCount < limit {
        limited := false;
      }
      if !limited && Wrap(challengeAckCount + 1) > 0 {
        challengeAckCount := Wrap(challengeAckCount + 1);
      }
    }
  }

  // --------------------------------------------------- the twin as a system under learning

  const SILENT: int := 0

  /** The base machine and which of its transitions are challenges. */
  datatype Base = Base(m: Mealy, chal: seq<seq<bool>>)

  ghost predicate Marked(b: Base) {
    |b.chal| == b.m.n && forall q :: 0 <= q < b.m.n ==> |b.chal[q]| == b.m.k
  }

  datatype System = System(cur: nat, sim: Sim, clock: real)

  function Tick(y: System): real {
    y.clock + 0.2
  }

  function SystemOut(b: Base, limit: int, y: System, a: nat): int
    requires Marked(b) && y.cur < b.m.n && a < b.m.k
  {
    if b.chal[y.cur][a] && !SimGrants(y.sim, limit, Tick(y)) then SILENT else b.m.o[y.cur][a]
  }

  function SystemStep(b: Base, limit: int, y: System, a: nat): (z: System)
    requires Marked(b) && y.cur < b.m.n && a < b.m.k
    ensures z.cur < b.m.n
  {
    System(b.m.d[y.cur][a], if b.chal[y.cur][a] then SimStep(y.sim, limit, Tick(y)) else y.sim, Tick(y))
  }

  function SystemRun(b: Base, limit: int, y: System, w: Word): seq<int>
    requires Marked(b) && y.cur < b.m.n && Over(b.m.k, w)
    decreases |w|
  {
    if w == [] then []
    else [SystemOut(b, limit, y, w[0])] + SystemRun(b, limit, SystemStep(b, limit, y, w[0]), w[1..])
  }

  /** The clock-free machine: the base state and the number of challenges granted. */
  function PlainRun(b: Base, limit: int, cur: nat, cnt: nat, w: Word): seq<int>
    requires Marked(b) && cur < b.m.n && Over(b.m.k, w)
    decreases |w|
  {
    if w == [] then []
    else
      var a := w[0];
      var granted := cnt < Quota(limit);
      [if b.chal[cur][a] && !granted then SILENT else b.m.o[cur][a]]
      + PlainRun(b, limit, b.m.d[cur][a], if b.chal[cur][a] && granted then cnt + 1 else cnt, w[1..])
  }

  /** The timed state agrees with the clock-free one and n more steps stay inside the window. */
  ghost predicate Agrees(y: System, limit: int, cnt: nat, n: nat) {
    && y.clock >= 0.0
    && (if cnt == 0 then y.sim.anchor < 0.0 else
        y.sim.cnt == cnt <= Quota(limit) && 0.0 <= y.sim.anchor && y.clock + 0.2 * n as real - y.sim.anchor < 1000.0)
  }

  lemma {:induction false} SystemIsPlain(b: Base, limit: int, y: System, cnt: nat, w: Word)
    requires Marked(b) && y.cur < b.m.n && Over(b.m.k, w) && |w| <= 5000
    requires Agrees(y, limit, cnt, |w|)
    ensures SystemRun(b, limit, y, w) == PlainRun(b, limit, y.cur, cnt, w)
    decreases |w|
  {
    if w != [] {
      var a := w[0];
      var z := SystemStep(b, limit, y, a);
      var cnt' := if b.chal[y.cur][a] && cnt < Quota(limit) then cnt + 1 else cnt;
      assert 0.2 * |w| as real == 0.2 + 0.2 * |w[1..]| as real;
      assert Agrees(z, limit, cnt', |w[1..]|);
      SystemIsPlain(b, limit, z, cnt', w[1..]);
    }
  }

  /** Within the window the limited system is the clock-free machine: after a reset a query of
      at most 5000 steps is answered by base state and grant count alone. */
  lemma {:induction false} ShortQueriesAreClockFree(b: Base, limit: int, clock: real, w: Word)
    requires Marked(b) && Over(b.m.k, w) && |w| <= 5000 && clock >= 0.0
    ensures SystemRun(b, limit, System(0, Sim(0, -1.0), clock), w) == PlainRun(b, limit, 0, 0, w)
  {
    SystemIsPlain(b, limit, System(0, Sim(0, -1.0), clock), 0, w);
  }

  /** The two systems differ only by how far their clocks, and the anchors with them, are. */
  ghost predicate Shifted(y: System, z: System, shift: real) {
    && y.cur == z.cur && y.clock >= 0.0 && z.clock == y.clock + shift && z.clock >= 0.0
    && (if y.sim.anchor < 0.0 then z.sim.anchor < 0.0
        else y.sim.cnt == z.sim.cnt && z.sim.anchor >= 0.0 && z.sim.anchor == y.sim.anchor + shift)
  }

  lemma {:induction false} ShiftedRunsAlike(b: Base, limit: int, y: System, z: System, shift: real, w: Word)
    requires Marked(b) && y.cur < b.m.n && Over(b.m.k, w) && Shifted(y, z, shift)
    ensures SystemRun(b, limit, y, w) == SystemRun(b, limit, z, w)
    decreases |w|
  {
    if w != [] {
      ShiftedRunsAlike(b, limit, SystemStep(b, limit, y, w[0]), SystemStep(b, limit, z, w[0]), shift, w[1..]);
    }
  }

  /** Determinism: after a reset the answers to a query of any length depend on the word alone,
      not on the clock reading or on what was asked before. */
  lemma {:induction false} PerConnectionIsDeterministic(b: Base, limit: int, clock1: real, clock2: real, w: Word)
    requires Marked(b) && Over(b.m.k, w) && clock1 >= 0.0 && clock2 >= 0.0
    ensures SystemRun(b, limit, System(0, Sim(0, -1.0), clock1), w) == SystemRun(b, limit, System(0, Sim(0, -1.0), clock2), w)
  {
    ShiftedRunsAlike(b, limit, System(0, Sim(0, -1.0), clock1), System(0, Sim(0, -1.0), clock2), clock2 - clock1, w);
  }

  class PerConnCounter {
    const b: Base
    var limit: int
    var cur: nat
    var cnt: int
    var anchor: real
    var clockMs: real
    var granted: nat
    var suppressed: nat

    constructor (b: Base, limit: int)
      requires Marked(b)
      ensures this.b == b && this.limit == limit && State() == System(0, Sim(0, -1.0), 0.0)
      ensures granted == 0 && suppressed == 0
    {
      this.b, this.limit := b, limit;
      cur, cnt, anchor, clockMs, granted, suppressed := 0, 0, -1.0, 0.0, 0, 0;
    }

    function State(): System
      reads this
    {
      System(cur, Sim(cnt, anchor), clockMs)
    }

    /** A new connection: machine and counter start over, the clock runs on. */
    method Reset()
      modifies this
      ensures State() == System(0, Sim(0, -1.0), old(clockMs)) && limit == old(limit)
      ensures granted == old(granted) && suppressed == old(suppressed)
    {
      cur, cnt, anchor := 0, 0, -1.0;
    }

    method Step(a: nat) returns (out: int)
      requires Marked(b) && cur < b.m.n && a < b.m.k
      modifies this
      ensures out == SystemOut(b, limit, old(State()), a)
      ensures State() == SystemStep(b, limit, old(State()), a) && limit == old(limit)
      ensures granted + suppressed == old(granted) + old(suppressed) + if b.chal[old(cur)][a] then 1 else 0
      ensures suppressed > old(suppressed) <==> b.chal[old(cur)][a] && !SimGrants(old(State()).sim, limit, clockMs)
    {
      clockMs := clockMs + 0.2;
      out := b.m.o[cur][a];
      if b.chal[cur][a] {
        if anchor < 0.0 || clockMs - anchor >= 1000.0 {
          anchor, cnt, granted := clockMs, 1, granted + 1;
        } else if cnt < limit {
          cnt, granted := cnt + 1, granted + 1;
        } else {
          out, suppressed := SILENT, suppressed + 1;
        }
      }
      cur := b.m.d[cur][a];
    }
  }
}
