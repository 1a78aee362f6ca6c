/** What holds over whole runs of the peer: acknowledgements are safe, loss cannot stop
    progress, the head-of-line delay is the time it claims to be, and the books balance. */
module PeerRuns {
  import opened SeqSpace
  import opened ByteStream
  import opened Wire
  import opened Reassembling
  import opened LossPolicies
  import opened PeerModel
  import Options
  import Packets
  import Checksum

  function After(c: Config, net: nat -> bool, evs: seq<Event>): Run {
    DoAll(c, net, Start(c), evs)
  }

  lemma AfterInv(c: Config, net: nat -> bool, evs: seq<Event>)
    requires AllShort(evs)
    ensures Inv(c, After(c, net, evs))
  {
    StartInv(c);
    RunKeeps(c, net, Start(c), evs);
  }

  // --------------------------------------------------------------------- ACK safety

  /** The receiver state the k-th ACK on the wire was queued from. */
  function Source(h: Past, k: nat): Queued
    requires k < |h.left| && h.left[k] < |h.queued|
  {
    h.queued[h.left[k]]
  }

  /** ACKs leave in non-decreasing order of the true offsets they acknowledge, and each carries
      the first byte missing, and the highest runs held, when it was queued. */
  lemma AcksInOrder(c: Config, net: nat -> bool, evs: seq<Event>, k: nat, l: nat)
    requires AllShort(evs) && k <= l < |After(c, net, evs).p.wire|
    ensures var r := After(c, net, evs);
            && |r.h.left| == |r.p.wire| && r.h.left[k] < |r.h.queued| && r.h.left[l] < |r.h.queued|
            && Source(r.h, k).stream.nxt <= Source(r.h, l).stream.nxt
            && r.p.wire[k] == AckOf(c, Source(r.h, k).stream)
            && Known(c.dataIsn, r.h.accepted, Source(r.h, k))
  {
    AfterInv(c, net, evs);
    InOrder(c, After(c, net, evs), k, l);
  }

  lemma InOrder(c: Config, r: Run, k: nat, l: nat)
    requires QueueOk(c, r.p, r.h) && k <= l < |r.p.wire|
    ensures |r.h.left| == |r.p.wire| && r.h.left[k] < |r.h.queued| && r.h.left[l] < |r.h.queued|
    ensures Source(r.h, k).stream.nxt <= Source(r.h, l).stream.nxt
    ensures r.p.wire[k] == AckOf(c, Source(r.h, k).stream)
    ensures Known(c.dataIsn, r.h.accepted, Source(r.h, k))
  {
    LeftAt(c, r.p.wire, r.h.left, r.p.attempts, r.h.queued, k, l);
    OrderedAt(r.h.queued, r.h.stream.nxt, r.h.left[k], r.h.left[l]);
    assert Known(c.dataIsn, r.h.accepted, r.h.queued[r.h.left[k]]);
  }

  lemma LeftAt(c: Config, wire: seq<Seg>, left: seq<nat>, attempts: nat, queued: seq<Queued>, k: nat, l: nat)
    requires WireOk(c, wire, left, attempts, queued) && k <= l < |wire|
    ensures |left| == |wire| && left[k] <= left[l] < |queued| && wire[k] == AckOf(c, queued[left[k]].stream)
  {
    assert k < l ==> left[k] < left[l];
  }

  lemma OrderedAt(queued: seq<Queued>, top: int, i: nat, j: nat)
    requires Ordered(queued, top) && i <= j < |queued|
    ensures queued[i].stream.nxt <= queued[j].stream.nxt
  {
  }

  lemma {:induction false} CoveredPrefix(a: seq<Segment>, n: nat, x: int)
    requires n <= |a| && x in Covered(a[..n])
    ensures x in Covered(a)
  {
    assert a == a[..n] + a[n..];
    CoveredConcat(a[..n], a[n..]);
  }

  /** Event i delivers the segment e to the receiver: it is ours, carries data and the policy
      lets it pass. */
  ghost predicate Delivers(c: Config, r: Run, ev: Event, e: Segment) {
    && ev.Arrive? && CarriesData(c, ev.a.seg) && !Lost(c, r.p, ev.a.seg.sq, Length(ev.a.seg))
    && Wrap(e.pos) == ev.a.seg.sq && e.len == Length(ev.a.seg)
  }

  lemma {:induction false} FlushKeepsPast(c: Config, net: nat -> bool, r: Run, now: real, force: bool)
    ensures var f := Flushed(c, net, r, now, force);
            && f.h.stream == r.h.stream && f.h.accepted == r.h.accepted && f.h.frontiers == r.h.frontiers
            && f.h.holeAt == r.h.holeAt && f.p.rx == r.p.rx && f.p.hole == r.p.hole && f.p.policy == r.p.policy
            && f.p.sum.holeCreated == r.p.sum.holeCreated && f.p.sum.holeFilled == r.p.sum.holeFilled
            && f.p.sum.holDelay == r.p.sum.holDelay && f.p.sum.dropped == r.p.sum.dropped
    decreases |r.p.pending|
  {
    if Due(r.p, now, force) {
      FlushKeepsPast(c, net, Sent(c, r, net(r.p.attempts)), now, force);
    }
  }

  /** One event adds at most one accepted segment, the one it delivers. */
  lemma AcceptedStep(c: Config, net: nat -> bool, r: Run, ev: Event)
    ensures var old', new' := r.h.accepted, Do(c, net, r, ev).h.accepted;
            new' == old' || (|new'| == |old'| + 1 && new'[..|old'|] == old' && Delivers(c, r, ev, new'[|old'|]))
  {
    if ev.Flush? {
      FlushKeepsPast(c, net, r, ev.now, ev.force);
    }
  }

  /** Every accepted segment came in an event that delivered it. */
  lemma {:induction false} AcceptedArrived(c: Config, net: nat -> bool, r: Run, evs: seq<Event>, j: nat) returns (i: nat)
    requires |r.h.accepted| <= j < |DoAll(c, net, r, evs).h.accepted|
    ensures i < |evs| && Delivers(c, DoAll(c, net, r, evs[..i]), evs[i], DoAll(c, net, r, evs).h.accepted[j])
    decreases |evs|
  {
    var r1 := Do(c, net, r, evs[0]);
    AcceptedStep(c, net, r, evs[0]);
    if j < |r1.h.accepted| {
      i := 0;
      AcceptedStays(c, net, r1, evs[1..], j);
    } else {
      var i0 := AcceptedArrived(c, net, r1, evs[1..], j);
      i := i0 + 1;
      assert evs[..i][1..] == evs[1..][..i0];
    }
  }

  lemma {:induction false} AcceptedStays(c: Config, net: nat -> bool, r: Run, evs: seq<Event>, j: nat)
    requires j < |r.h.accepted|
    ensures j < |DoAll(c, net, r, evs).h.accepted| && DoAll(c, net, r, evs).h.accepted[j] == r.h.accepted[j]
    decreases |evs|
  {
    if evs != [] {
      AcceptedStep(c, net, r, evs[0]);
      AcceptedStays(c, net, Do(c, net, r, evs[0]), evs[1..], j);
    }
  }

  /** Every ACK the peer can queue fits the builder's 1500-byte frame and parses back, for any
      addresses and identification. */
  lemma AcksRoundTrip(c: Config, s: Stream, src: Packets.Addr, dst: Packets.Addr, id: Checksum.u16)
    ensures Packets.Fits(AckOf(c, s), 1504)
    ensures Packets.Parse(Packets.Frame(AckOf(c, s), src, dst, id)) == Options.Some(AckOf(c, s))
  {
    var a := AckOf(c, s);
    assert |a.opt.blocks| <= 4;
    assert WireLen(a.opt) <= 36;
    Packets.RoundTripExactly(a, src, dst, id);
  }

  // ---------------------------------------------------------------- progress under loss

  /** A data segment that starts at or below the frontier and ends above it. */
  ghost predicate Useful(c: Config, r: Run, ev: Event) {
    && ev.Arrive? && CarriesData(c, ev.a.seg)
    && var pos := Unwrap(r.h.stream.nxt, ev.a.seg.sq); pos <= r.h.stream.nxt < pos + Length(ev.a.seg)
  }

  /** The drops still to come and the bytes still missing below the goal. */
  function Remaining(r: Run, goal: int): nat {
    Budget(r.p.policy.rules) + if r.h.stream.nxt < goal then goal - r.h.stream.nxt else 0
  }

  lemma UsefulAdvances(c: Config, r: Run, sq: u32, len: u32)
    requires RxOk(c, r.p.rx, r.h) && len < HALF
    requires var pos := Unwrap(r.h.stream.nxt, sq); pos <= r.h.stream.nxt < pos + len
    ensures r.h.stream.nxt < Next(r.h.stream, sq, len).nxt
  {
    var f, pos := r.h.stream.nxt, Unwrap(r.h.stream.nxt, sq);
    var b := Brought(r.h.stream, sq, len);
    AcceptAny(c.dataIsn, AcceptedBytes(r.h), r.h.stream, sq, len);
    OneBrought(r.h.stream, pos, len);
    assert b == [Segment(pos, len)];
    assert f in Covered(b);
  }

  lemma TookFrontier(c: Config, r: Run, sq: u32, len: u32)
    requires RxOk(c, r.p.rx, r.h) && len < HALF
    ensures r.h.stream.nxt <= Next(r.h.stream, sq, len).nxt
  {
    AcceptAny(c.dataIsn, AcceptedBytes(r.h), r.h.stream, sq, len);
  }

  /** A data segment costs a drop or leaves the policy alone and cannot move the frontier
      back. */
  lemma DataRemaining(c: Config, r: Run, a: Arrival, goal: int)
    requires Inv(c, r) && |a.seg.payload| < HALF && CarriesData(c, a.seg)
    ensures var r' := Run(Step(c, r.p, a), Remember(c, r.p, r.h, a));
            && Remaining(r', goal) <= Remaining(r, goal)
            && (Useful(c, r, Arrive(a)) && r.h.stream.nxt < goal ==> Remaining(r', goal) < Remaining(r, goal))
  {
    var sq, len := a.seg.sq, Length(a.seg);
    SmallWrap(|a.seg.payload|);
    if Lost(c, r.p, sq, len) {
      DropsCostBudget(r.p.policy, Rel(c, sq), len);
    } else {
      TookFrontier(c, r, sq, len);
      if Useful(c, r, Arrive(a)) {
        UsefulAdvances(c, r, sq, len);
      }
    }
  }

  lemma DoRemaining(c: Config, net: nat -> bool, r: Run, ev: Event, goal: int)
    requires Inv(c, r) && Short(ev) && !ev.Begin?
    ensures Remaining(Do(c, net, r, ev), goal) <= Remaining(r, goal)
    ensures Useful(c, r, ev) && r.h.stream.nxt < goal ==> Remaining(Do(c, net, r, ev), goal) < Remaining(r, goal)
  {
    match ev
    case Begin(target, policy) =>
    case Arrive(a) =>
      if CarriesData(c, a.seg) {
        DataRemaining(c, r, a, goal);
      }
    case Flush(now, force) =>
      FlushKeepsPast(c, net, r, now, force);
    case End(g) =>
  }

  ghost predicate OneCall(evs: seq<Event>) {
    forall i :: 0 <= i < |evs| ==> !evs[i].Begin?
  }

  /** How many useful segments arrive while the frontier is below the goal. */
  ghost function UsefulBelow(c: Config, net: nat -> bool, r: Run, evs: seq<Event>, goal: int): nat
    decreases |evs|
  {
    if evs == [] then 0
    else (if Useful(c, r, evs[0]) && r.h.stream.nxt < goal then 1 else 0)
         + UsefulBelow(c, net, Do(c, net, r, evs[0]), evs[1..], goal)
  }

  /** Progress: below the goal at most as many useful segments can arrive as the policy has
      drops left and the goal has bytes missing; once that many have, the goal is reached. */
  lemma {:induction false} ProgressUnderLoss(c: Config, net: nat -> bool, r: Run, evs: seq<Event>, goal: int)
    requires Inv(c, r) && AllShort(evs) && OneCall(evs)
    ensures UsefulBelow(c, net, r, evs, goal) + Remaining(DoAll(c, net, r, evs), goal) <= Remaining(r, goal)
    ensures UsefulBelow(c, net, r, evs, goal) == Remaining(r, goal) ==> DoAll(c, net, r, evs).h.stream.nxt >= goal
    decreases |evs|
  {
    if evs != [] {
      assert Short(evs[0]) && !evs[0].Begin?;
      DoRemaining(c, net, r, evs[0], goal);
      DoKeeps(c, net, r, evs[0]);
      ProgressUnderLoss(c, net, Do(c, net, r, evs[0]), evs[1..], goal);
    }
  }

  /** The delivered count the loop tests is the frontier's distance from the first byte, modulo
      2^32; so it is that distance exactly while fewer than 2^32 bytes have been delivered. */
  lemma DeliveredIsDistance(c: Config, r: Run)
    requires RxOk(c, r.p.rx, r.h)
    ensures Delivered(c, r.p) == Wrap(r.h.stream.nxt - c.dataIsn)
    ensures Delivered(c, r.p) == r.h.stream.nxt - c.dataIsn <==> r.h.stream.nxt - c.dataIsn < M
  {
    WrapOfDifference(r.h.stream.nxt, c.dataIsn);
    SmallWrap(c.dataIsn);
    if r.h.stream.nxt - c.dataIsn < M {
      SmallWrap(r.h.stream.nxt - c.dataIsn);
    }
  }

  // ------------------------------------------------------------------ head-of-line delay

  /** The open hole ends above the frontier, by less than 2^31. */
  ghost predicate Tracked(r: Run) {
    && r.p.hole.open && r.p.hole.end == Wrap(r.h.holeAt)
    && r.h.stream.nxt < r.h.holeAt < r.h.stream.nxt + HALF
  }

  /** Every byte of the stream below b has been accepted. */
  ghost predicate AllBelow(c: Config, h: Past, b: int) {
    forall x :: c.dataIsn <= x < b ==> x in AcceptedBytes(h)
  }

  lemma FrontierPassed(c: Config, r: Run, b: int)
    requires RxOk(c, r.p.rx, r.h) && c.dataIsn <= b
    ensures b <= r.h.stream.nxt <==> AllBelow(c, r.h, b)
  {
    assert Stands(c.dataIsn, AcceptedBytes(r.h), r.h.stream);
    assert r.h.stream.nxt !in AcceptedBytes(r.h);
  }

  /** The drop that opens a hole. */
  ghost predicate Opens(c: Config, r: Run, a: Arrival) {
    && !r.p.hole.open && CarriesData(c, a.seg) && Lost(c, r.p, a.seg.sq, Length(a.seg))
    && r.h.stream.nxt < EndOf(r.h, a) < r.h.stream.nxt + HALF
  }

  /** Where the dropped segment would have ended. */
  function EndOf(h: Past, a: Arrival): int {
    Unwrap(h.stream.nxt, a.seg.sq) + Length(a.seg)
  }

  lemma HoleOpens(c: Config, r: Run, a: Arrival)
    requires Opens(c, r, a)
    ensures var r' := Run(Step(c, r.p, a), Remember(c, r.p, r.h, a));
            && Tracked(r') && r'.p.sum.holeCreated == a.t - c.t0
            && r'.h.holeAt == EndOf(r.h, a) && r'.h.stream == r.h.stream
  {
    var sq, len := a.seg.sq, Length(a.seg);
    WrapOfSum(Unwrap(r.h.stream.nxt, sq), len);
    assert Remember(c, r.p, r.h, a) == r.h.(holeAt := EndOf(r.h, a));
    assert Step(c, r.p, a) == DropSegment(c, Note(c, r.p, sq, len, a.t), sq, len, a.t);
  }

  lemma ClosesExactly(c: Config, r: Run, sq: u32, len: u32, t: real)
    requires RxOk(c, r.p.rx, r.h) && 0 < len < HALF && Tracked(r)
    ensures Closes(r.p.hole, Received(r.p.rx, sq, len, t)) <==> r.h.holeAt <= Next(r.h.stream, sq, len).nxt
  {
    TookRx(c, r.p.rx, r.h, sq, len, t, t);
    DiffInWindow(Next(r.h.stream, sq, len).nxt, r.h.holeAt);
  }

  /** A hole whose dropped segment ended at or below the frontier, by at most 2^31, measures
      nothing: the next segment taken, whatever it carries, closes it if and only if it does not
      take the frontier 2^31 or more beyond the hole's end. */
  lemma StaleHoleClosesExactly(c: Config, r: Run, sq: u32, len: u32, t: real)
    requires RxOk(c, r.p.rx, r.h) && 0 < len < HALF && r.p.hole.open && r.p.hole.end == Wrap(r.h.holeAt)
    requires r.h.stream.nxt - HALF <= r.h.holeAt <= r.h.stream.nxt
    ensures Closes(r.p.hole, Received(r.p.rx, sq, len, t)) <==> Next(r.h.stream, sq, len).nxt < r.h.holeAt + HALF
  {
    TookRx(c, r.p.rx, r.h, sq, len, t, t);
    GeqWithinTurn(Next(r.h.stream, sq, len).nxt, r.h.holeAt);
  }

  /** The last logged advance, at t, is the first that truly reached holeAt; and the log answers
      with it if and only if its first frontier is at most 2^31 below the hole's end. */
  ghost predicate Timely(r: Run, end: u32, holeAt: int, t: real) {
    var advances, frontiers := r.p.rx.advances, r.h.frontiers;
    && |advances| == |frontiers| > 0 && advances[|advances| - 1].t == t
    && FirstReaching(frontiers, holeAt) == |frontiers| - 1
    && (IndexReached(advances, end) == |frontiers| - 1 <==> frontiers[0] >= holeAt - HALF)
  }

  lemma {:induction false} ClimbsBelowLast(frontiers: seq<int>, i: nat)
    requires Climbs(frontiers) && i < |frontiers|
    ensures frontiers[i] <= frontiers[|frontiers| - 1]
    decreases |frontiers| - i
  {
    if i + 1 < |frontiers| {
      assert frontiers[i + 1 - 1] < frontiers[i + 1];
      ClimbsBelowLast(frontiers, i + 1);
    }
  }

  lemma {:induction false} FirstIsLast(frontiers: seq<int>, base: int, top: int, next: int, q: int)
    requires LogClimbs(frontiers, base, top) && top < q <= next
    ensures FirstReaching(frontiers + [next], q) == |frontiers|
  {
    var f, k := frontiers + [next], FirstReaching(frontiers + [next], q);
    assert f[|frontiers|] == next;
    if k < |frontiers| {
      ClimbsBelowLast(frontiers, k);
    }
  }

  lemma {:induction false} ReachedNow(c: Config, rx: Receiver, h: Past, sq: u32, len: u32, t: real, now: real, holeAt: int, r': Run)
    requires RxOk(c, rx, h) && 0 < len < HALF
    requires h.stream.nxt < holeAt <= Next(h.stream, sq, len).nxt
    requires r'.p.rx == Received(rx, sq, len, t) && r'.h == Took(h, sq, len, now)
    ensures Timely(r', Wrap(holeAt), holeAt, t)
  {
    TookRx(c, rx, h, sq, len, t, now);
    MovedLogs(rx, sq, len, t);
    var next := r'.h.stream.nxt;
    assert r'.h.frontiers == h.frontiers + [next];
    TimelyFrom(r', h.frontiers, c.dataIsn, h.stream.nxt, next, holeAt, t);
  }

  lemma MovedLogs(rx: Receiver, sq: u32, len: u32, t: real)
    ensures var rx' := Received(rx, sq, len, t);
            rx'.core.rcvNxt != rx.core.rcvNxt ==> |rx'.advances| > 0 && rx'.advances[|rx'.advances| - 1].t == t
  {
  }

  lemma {:induction false} TimelyFrom(r: Run, frontiers: seq<int>, base: int, top: int, next: int, q: int, t: real)
    requires LogClimbs(frontiers, base, top) && top < q <= next < top + HALF && r.h.frontiers == frontiers + [next]
    requires LogClimbs(r.h.frontiers, base, next) && LogOf(r.p.rx.advances, r.h.frontiers)
    requires |r.p.rx.advances| > 0 && r.p.rx.advances[|r.p.rx.advances| - 1].t == t
    ensures Timely(r, Wrap(q), q, t)
  {
    LogAnswers(frontiers, base, top, next, q, r.h.frontiers, r.p.rx.advances);
  }

  lemma {:induction false} LogAnswers(frontiers: seq<int>, base: int, top: int, next: int, q: int, grown: seq<int>, advances: seq<Advance>)
    requires LogClimbs(frontiers, base, top) && top < q <= next < top + HALF
    requires grown == frontiers + [next] && LogClimbs(grown, base, next) && LogOf(advances, grown)
    ensures FirstReaching(grown, q) == |frontiers|
    ensures IndexReached(advances, Wrap(q)) == |frontiers| <==> grown[0] >= q - HALF
  {
    FirstIsLast(frontiers, base, top, next, q);
    ClimbsBelowLast(grown, 0);
    IndexReachedExactly(advances, grown, q);
  }

  /** What the closing of a hole records. */
  ghost predicate ClosedBy(c: Config, r': Run, a: Arrival, end: u32, holeAt: int, created: real) {
    && !r'.p.hole.open && AllBelow(c, r'.h, holeAt)
    && r'.p.sum.holeFilled == a.t - c.t0 && r'.p.sum.holDelay == a.t - c.t0 - created
    && Timely(r', end, holeAt, a.t)
  }

  /** One taken segment leaves a tracked hole open, or closes it with all its marks. */
  lemma TakenAndHole(c: Config, r: Run, a: Arrival)
    requires Inv(c, r) && |a.seg.payload| < HALF && Tracked(r)
    requires CarriesData(c, a.seg) && !Lost(c, r.p, a.seg.sq, Length(a.seg))
    ensures var r' := Run(Step(c, r.p, a), Remember(c, r.p, r.h, a));
            if r'.h.stream.nxt < r.h.holeAt then
              Tracked(r') && r'.h.holeAt == r.h.holeAt && r'.p.sum.holeCreated == r.p.sum.holeCreated
            else ClosedBy(c, r', a, r.p.hole.end, r.h.holeAt, r.p.sum.holeCreated)
  {
    var sq, len := a.seg.sq, Length(a.seg);
    SmallWrap(|a.seg.payload|);
    TookRx(c, r.p.rx, r.h, sq, len, a.t, a.now);
    ClosesExactly(c, r, sq, len, a.t);
    var r' := Run(Step(c, r.p, a), Remember(c, r.p, r.h, a));
    assert r'.h == Took(r.h, sq, len, a.now) && r'.p.rx == Received(r.p.rx, sq, len, a.t);
    if r.h.holeAt <= r'.h.stream.nxt {
      assert c.dataIsn <= r.h.stream.nxt;
      FrontierPassed(c, r', r.h.holeAt);
      ReachedNow(c, r.p.rx, r.h, sq, len, a.t, a.now, r.h.holeAt, r');
    }
  }

  /** Any event of the call leaves a tracked hole open, with the frontier still below its end,
      or is the arrival that closes it. */
  lemma HoleStep(c: Config, net: nat -> bool, r: Run, ev: Event)
    requires Inv(c, r) && Short(ev) && !ev.Begin? && Tracked(r)
    ensures var r' := Do(c, net, r, ev);
            if r'.h.stream.nxt < r.h.holeAt then
              Tracked(r') && r'.h.holeAt == r.h.holeAt && r'.p.sum.holeCreated == r.p.sum.holeCreated
            else ev.Arrive? && ClosedBy(c, r', ev.a, r.p.hole.end, r.h.holeAt, r.p.sum.holeCreated)
  {
    match ev
    case Begin(target, policy) =>
    case Arrive(a) =>
      if CarriesData(c, a.seg) && !Lost(c, r.p, a.seg.sq, Length(a.seg)) {
        TakenAndHole(c, r, a);
      }
    case Flush(now, force) =>
      FlushKeepsPast(c, net, r, now, force);
    case End(g) =>
  }

  /** Event k closes the hole tracked in r: before it the hole is open and a byte below its end is
      missing, after it the hole is closed with all its marks. */
  ghost predicate ClosesAt(c: Config, net: nat -> bool, r: Run, evs: seq<Event>, k: nat, holeAt: int, created: real) {
    && k < |evs| && evs[k].Arrive?
    && Tracked(DoAll(c, net, r, evs[..k])) && !AllBelow(c, DoAll(c, net, r, evs[..k]).h, holeAt)
    && ClosedBy(c, DoAll(c, net, r, evs[..k + 1]), evs[k].a, Wrap(holeAt), holeAt, created)
  }

  /** While the frontier stays below the hole's end the hole stays open; once the run has passed
      it, there is exactly one event that closed it, and it is the first after which every byte
      below the hole's end had been accepted. */
  lemma {:induction false} HoleCloses(c: Config, net: nat -> bool, r: Run, evs: seq<Event>) returns (k: nat)
    requires Inv(c, r) && AllShort(evs) && OneCall(evs) && Tracked(r)
    requires r.h.holeAt <= DoAll(c, net, r, evs).h.stream.nxt
    ensures ClosesAt(c, net, r, evs, k, r.h.holeAt, r.p.sum.holeCreated)
    decreases |evs|
  {
    assert Short(evs[0]) && !evs[0].Begin?;
    var r1 := Do(c, net, r, evs[0]);
    HoleStep(c, net, r, evs[0]);
    DoKeeps(c, net, r, evs[0]);
    if r1.h.stream.nxt < r.h.holeAt {
      var k0 := HoleCloses(c, net, r1, evs[1..]);
      k := k0 + 1;
      ClosesLater(c, net, r, evs, k0, k, r.h.holeAt, r.p.sum.holeCreated);
    } else {
      k := 0;
      ClosesFirst(c, net, r, evs);
    }
  }

  lemma {:induction false} ClosesLater(c: Config, net: nat -> bool, r: Run, evs: seq<Event>, k0: nat, k: nat, holeAt: int, created: real)
    requires evs != [] && k == k0 + 1 && ClosesAt(c, net, Do(c, net, r, evs[0]), evs[1..], k0, holeAt, created)
    ensures ClosesAt(c, net, r, evs, k, holeAt, created)
  {
    PrefixRuns(c, net, r, evs, k0);
    PrefixRuns(c, net, r, evs, k);
  }

  lemma {:induction false} ClosesFirst(c: Config, net: nat -> bool, r: Run, evs: seq<Event>)
    requires evs != [] && RxOk(c, r.p.rx, r.h) && Tracked(r) && evs[0].Arrive?
    requires ClosedBy(c, Do(c, net, r, evs[0]), evs[0].a, Wrap(r.h.holeAt), r.h.holeAt, r.p.sum.holeCreated)
    ensures ClosesAt(c, net, r, evs, 0, r.h.holeAt, r.p.sum.holeCreated)
  {
    PrefixRuns(c, net, r, evs, 0);
    FrontierPassed(c, r, r.h.holeAt);
    assert DoAll(c, net, r, evs[..0]) == r;
  }

  lemma {:induction false} PrefixRuns(c: Config, net: nat -> bool, r: Run, evs: seq<Event>, n: nat)
    requires n + 1 <= |evs|
    ensures DoAll(c, net, r, evs[..n + 1]) == DoAll(c, net, Do(c, net, r, evs[0]), evs[1..][..n])
  {
    assert evs[..n + 1][1..] == evs[1..][..n];
  }

  /** A connection whose policy drops the first byte once. */
  function LosesFirstByte(c: Config): Run {
    Start(c).(p := Start(c).p.(policy := Policy([DropRule(0, 1, 1, 0)], 0)))
  }

  /** The scenario is real: under any configuration, the first data segment then opens a hole. */
  lemma FirstSegmentOpens(c: Config, a: Arrival)
    requires CarriesData(c, a.seg) && a.seg.sq == c.dataIsn && |a.seg.payload| < HALF
    ensures Inv(c, LosesFirstByte(c)) && Opens(c, LosesFirstByte(c), a)
  {
    var r, len := LosesFirstByte(c), Length(a.seg);
    StartInv(c);
    SmallWrap(|a.seg.payload|);
    SmallWrap(0);
    SmallWrap(len);
    SmallWrap(c.dataIsn);
    UnwrapIsTrue(c.dataIsn, c.dataIsn);
    assert Rel(c, a.seg.sq) == 0;
    assert Matches(r.p.policy.rules[0], 0, len);
    assert Lost(c, r.p, a.seg.sq, len);
  }

  /** Head-of-line delay: when a drop opens a hole above the frontier and the call goes on to
      deliver past it, the hole closes at the first arrival after which every byte below its end
      has been accepted, and the delay recorded is that arrival's time minus the drop's. Unless
      another hole closes later in the call, that is the delay the call returns. */
  lemma HeadOfLineDelay(c: Config, net: nat -> bool, r: Run, a: Arrival, r1: Run, evs: seq<Event>) returns (k: nat)
    requires Inv(c, r) && |a.seg.payload| < HALF && Opens(c, r, a) && r1 == Do(c, net, r, Arrive(a))
    requires AllShort(evs) && OneCall(evs) && EndOf(r.h, a) <= DoAll(c, net, r1, evs).h.stream.nxt
    ensures k < |evs| && evs[k].Arrive?
    ensures DoAll(c, net, r1, evs[..k]).p.hole.open && !AllBelow(c, DoAll(c, net, r1, evs[..k]).h, EndOf(r.h, a))
    ensures DelayIs(c, DoAll(c, net, r1, evs[..k + 1]), EndOf(r.h, a), a.t, evs[k].a.t)
    ensures NoneCloses(c, net, DoAll(c, net, r1, evs[..k + 1]), evs[k + 1..]) ==>
              DoAll(c, net, r1, evs).p.sum.holDelay == evs[k].a.t - a.t
  {
    HoleOpens(c, r, a);
    DoKeeps(c, net, r, Arrive(a));
    k := HoleCloses(c, net, r1, evs);
    var after := DoAll(c, net, r1, evs[..k + 1]);
    DelayOf(c, after, evs[k].a, EndOf(r.h, a), a.t);
    DelayReturned(c, net, r1, evs, k + 1);
  }

  lemma {:induction false} DelayReturned(c: Config, net: nat -> bool, r: Run, evs: seq<Event>, n: nat)
    requires n <= |evs|
    ensures NoneCloses(c, net, DoAll(c, net, r, evs[..n]), evs[n..]) ==>
              DoAll(c, net, r, evs).p.sum.holDelay == DoAll(c, net, r, evs[..n]).p.sum.holDelay
  {
    assert evs == evs[..n] + evs[n..];
    DoAllConcat(c, net, r, evs[..n], evs[n..]);
    if NoneCloses(c, net, DoAll(c, net, r, evs[..n]), evs[n..]) {
      DelayStays(c, net, DoAll(c, net, r, evs[..n]), evs[n..], NoMarks());
    }
  }

  /** The hole is closed, everything below its end is accepted, the delay is the time between the
      drop and the first advance to the hole's end, and asking the log for that time gives the
      same delay if and only if the log answers rightly: its first frontier is at most 2^31 below
      the hole's end. */
  ghost predicate DelayIs(c: Config, r: Run, end: int, dropped: real, reached: real) {
    && !r.p.hole.open && AllBelow(c, r.h, end) && r.p.sum.holDelay == reached - dropped
    && Timely(r, Wrap(end), end, reached)
    && (r.h.frontiers[0] >= end - HALF ==> r.p.sum.holDelay == TimeReached(r.p.rx.advances, Wrap(end)) - dropped)
  }

  lemma DelayOf(c: Config, r: Run, b: Arrival, end: int, dropped: real)
    requires ClosedBy(c, r, b, Wrap(end), end, dropped - c.t0)
    ensures DelayIs(c, r, end, dropped, b.t)
  {
  }

  // ------------------------------------------------------------------ the books of a call

  /** Against the state at its beginning, a call's counters tell what happened. */
  ghost predicate Books(p: PeerState, p0: PeerState) {
    && p.sum.acks + p.sum.failures == p.attempts - p0.attempts
    && p.sum.acks == |p.wire| - |p0.wire| && p.sum.dupAcks <= p.sum.acks
    && p.sum.dropped == p.policy.dropped - p0.policy.dropped
    && p.sum.wanted == p0.sum.wanted
  }

  lemma {:induction false} FlushBooks(c: Config, net: nat -> bool, r: Run, now: real, force: bool, p0: PeerState)
    requires Books(r.p, p0)
    ensures Books(Flushed(c, net, r, now, force).p, p0)
    ensures force ==> Flushed(c, net, r, now, force).p.pending == []
    decreases |r.p.pending|
  {
    if Due(r.p, now, force) {
      FlushBooks(c, net, Sent(c, r, net(r.p.attempts)), now, force, p0);
    }
  }

  lemma DataBooks(c: Config, p: PeerState, sq: u32, len: u32, t: real, now: real, p0: PeerState)
    requires Books(p, p0)
    ensures Books(Data(c, p, sq, len, t, now), p0)
  {
    var q := Note(c, p, sq, len, t);
    assert Books(q, p0);
    if Lost(c, p, sq, len) {
      assert Books(DropSegment(c, q, sq, len, t), p0);
    } else {
      assert Books(TakeSegment(c, q, sq, len, t, now, SeqLt(sq, p.maxEnd)), p0);
    }
  }

  lemma DoBooks(c: Config, net: nat -> bool, r: Run, ev: Event, p0: PeerState)
    requires Books(r.p, p0) && !ev.Begin?
    ensures Books(Do(c, net, r, ev).p, p0)
  {
    match ev
    case Begin(target, policy) =>
    case Arrive(a) =>
      DataBooks(c, r.p, a.seg.sq, Length(a.seg), a.t, a.now, p0);
    case Flush(now, force) =>
      FlushBooks(c, net, r, now, force, p0);
    case End(g) =>
  }

  lemma {:induction false} CallBooks(c: Config, net: nat -> bool, r: Run, evs: seq<Event>, p0: PeerState)
    requires Books(r.p, p0) && OneCall(evs)
    ensures Books(DoAll(c, net, r, evs).p, p0)
    decreases |evs|
  {
    if evs != [] {
      assert !evs[0].Begin?;
      DoBooks(c, net, r, evs[0], p0);
      CallBooks(c, net, Do(c, net, r, evs[0]), evs[1..], p0);
    }
  }

  // ------------------------------------------------------------- the holes of a whole call

  /** What happened to holes, in order: the times of all drops, of the drops that found no hole
      open, and of the closings. Closing number i closes the hole that opening number i opened. */
  datatype Marks = Marks(drops: seq<real>, openings: seq<real>, closings: seq<real>)

  function NoMarks(): Marks {
    Marks([], [], [])
  }

  function Marked(c: Config, r: Run, ev: Event, m: Marks): Marks {
    if !ev.Arrive? || !CarriesData(c, ev.a.seg) then m
    else
      var sq, len, t := ev.a.seg.sq, Length(ev.a.seg), ev.a.t - c.t0;
      if Lost(c, r.p, sq, len) then Marks(m.drops + [t], if r.p.hole.open then m.openings else m.openings + [t], m.closings)
      else if Closes(r.p.hole, Received(r.p.rx, sq, len, ev.a.t)) then m.(closings := m.closings + [t])
      else m
  }

  function MarksAfter(c: Config, net: nat -> bool, r: Run, evs: seq<Event>, m: Marks): Marks
    decreases |evs|
  {
    if evs == [] then m else MarksAfter(c, net, Do(c, net, r, evs[0]), evs[1..], Marked(c, r, evs[0], m))
  }

  ghost predicate NoneCloses(c: Config, net: nat -> bool, r: Run, evs: seq<Event>) {
    OneCall(evs) && MarksAfter(c, net, r, evs, NoMarks()).closings == []
  }

  function Last(s: seq<real>): real {
    if s == [] then -1.0 else s[|s| - 1]
  }

  /** The delay of the last hole closed. */
  function LastDelay(m: Marks): real {
    if m.closings == [] || |m.closings| > |m.openings| then -1.0 else Last(m.closings) - m.openings[|m.closings| - 1]
  }

  /** The summary tells of the marks: the creation time is the last opening's, fill time and
      delay are the last closed hole's, and the first drop of the call opened its first hole. */
  ghost predicate SummaryTells(p: PeerState, m: Marks) {
    && |m.openings| == |m.closings| + (if p.hole.open then 1 else 0)
    && p.sum.dropped == |m.drops|
    && (m.drops == [] <==> m.openings == []) && (m.drops != [] ==> m.drops[0] == m.openings[0])
    && p.sum.holeCreated == Last(m.openings) && p.sum.holeFilled == Last(m.closings) && p.sum.holDelay == LastDelay(m)
  }

  lemma DropTells(c: Config, p: PeerState, sq: u32, len: u32, t: real, m: Marks)
    requires SummaryTells(p, m) && Rel(c, sq) >= 0
    ensures SummaryTells(DropSegment(c, p, sq, len, t),
                         Marks(m.drops + [t - c.t0], if p.hole.open then m.openings else m.openings + [t - c.t0], m.closings))
  {
  }

  lemma TakeTells(c: Config, p: PeerState, sq: u32, len: u32, t: real, now: real, rexmt: bool, m: Marks)
    requires SummaryTells(p, m)
    ensures SummaryTells(TakeSegment(c, p, sq, len, t, now, rexmt),
                         if Closes(p.hole, Received(p.rx, sq, len, t)) then m.(closings := m.closings + [t - c.t0]) else m)
  {
  }

  lemma DataTells(c: Config, r: Run, a: Arrival, m: Marks)
    requires SummaryTells(r.p, m) && CarriesData(c, a.seg)
    ensures SummaryTells(Step(c, r.p, a), Marked(c, r, Arrive(a), m))
  {
    var sq, len := a.seg.sq, Length(a.seg);
    var q := Note(c, r.p, sq, len, a.t);
    assert SummaryTells(q, m);
    if Lost(c, r.p, sq, len) {
      DropTells(c, q, sq, len, a.t, m);
    } else {
      TakeTells(c, q, sq, len, a.t, a.now, SeqLt(sq, r.p.maxEnd), m);
    }
  }

  lemma DoTells(c: Config, net: nat -> bool, r: Run, ev: Event, m: Marks)
    requires SummaryTells(r.p, m) && !ev.Begin?
    ensures SummaryTells(Do(c, net, r, ev).p, Marked(c, r, ev, m))
  {
    match ev
    case Begin(target, policy) =>
    case Arrive(a) =>
      if CarriesData(c, a.seg) {
        DataTells(c, r, a, m);
      }
    case Flush(now, force) =>
      FlushKeepsPast(c, net, r, now, force);
    case End(g) =>
  }

  /** Over a call: whatever arrives, the summary tells of the call's marks. */
  lemma {:induction false} CallTells(c: Config, net: nat -> bool, r: Run, evs: seq<Event>, m: Marks)
    requires SummaryTells(r.p, m) && OneCall(evs)
    ensures SummaryTells(DoAll(c, net, r, evs).p, MarksAfter(c, net, r, evs, m))
    decreases |evs|
  {
    if evs != [] {
      assert !evs[0].Begin?;
      DoTells(c, net, r, evs[0], m);
      CallTells(c, net, Do(c, net, r, evs[0]), evs[1..], Marked(c, r, evs[0], m));
    }
  }

  lemma BegunTells(p: PeerState, target: u32, policy: Policy)
    ensures SummaryTells(Begun(p, target, policy), NoMarks())
  {
  }

  /** Arrival times do not decrease, and none is before lo. */
  ghost predicate InTime(c: Config, evs: seq<Event>, lo: real)
    decreases |evs|
  {
    evs == [] || (if evs[0].Arrive? then lo <= evs[0].a.t - c.t0 && InTime(c, evs[1..], evs[0].a.t - c.t0)
                  else InTime(c, evs[1..], lo))
  }

  ghost predicate Rising(s: seq<real>, top: real) {
    && (forall i, j :: 0 <= i < j < |s| ==> s[i] <= s[j])
    && (forall i :: 0 <= i < |s| ==> s[i] <= top)
  }

  lemma {:induction false} OpenedRises(c: Config, net: nat -> bool, r: Run, evs: seq<Event>, m: Marks, lo: real) returns (top: real)
    requires Rising(m.openings, lo) && InTime(c, evs, lo)
    ensures Rising(MarksAfter(c, net, r, evs, m).openings, top)
    decreases |evs|
  {
    if evs == [] {
      top := lo;
    } else {
      var lo' := if evs[0].Arrive? then evs[0].a.t - c.t0 else lo;
      assert Rising(Marked(c, r, evs[0], m).openings, lo');
      top := OpenedRises(c, net, Do(c, net, r, evs[0]), evs[1..], Marked(c, r, evs[0], m), lo');
    }
  }

  /** The creation time a call returns is its first drop's, as documented, if and only if no later
      drop of the call finds the hole closed at another time. */
  lemma {:induction false} CreatedIsFirstDropExactly(c: Config, net: nat -> bool, r: Run, target: u32, policy: Policy, evs: seq<Event>, lo: real)
    requires OneCall(evs) && InTime(c, evs, lo)
    ensures var begun := r.(p := Begun(r.p, target, policy));
            var m, sum := MarksAfter(c, net, begun, evs, NoMarks()), DoAll(c, net, begun, evs).p.sum;
            && (m.drops == [] ==> sum.holeCreated == -1.0)
            && (m.drops != [] ==>
                  (sum.holeCreated == m.drops[0] <==> forall i :: 0 <= i < |m.openings| ==> m.openings[i] == m.drops[0]))
  {
    var begun := r.(p := Begun(r.p, target, policy));
    BegunTells(r.p, target, policy);
    CallTells(c, net, begun, evs, NoMarks());
    var top := OpenedRises(c, net, begun, evs, NoMarks(), lo);
    var m := MarksAfter(c, net, begun, evs, NoMarks());
    if m.drops != [] && Last(m.openings) == m.drops[0] {
      forall i | 0 <= i < |m.openings|
        ensures m.openings[i] == m.drops[0]
      {
        assert i > 0 ==> m.openings[0] <= m.openings[i];
        assert i < |m.openings| - 1 ==> m.openings[i] <= m.openings[|m.openings| - 1];
      }
    }
  }

  /** The delay a call returns is the last closed hole's. It is the difference of the returned
      fill and creation times, as documented, if and only if the last hole opened was opened when
      that one was: always when no hole is left open, and otherwise only at equal times. */
  lemma {:induction false} DelayFitsExactly(c: Config, net: nat -> bool, r: Run, target: u32, policy: Policy, evs: seq<Event>)
    requires OneCall(evs)
    ensures var begun := r.(p := Begun(r.p, target, policy));
            var m, p := MarksAfter(c, net, begun, evs, NoMarks()), DoAll(c, net, begun, evs).p;
            && p.sum.holDelay == LastDelay(m)
            && (m.closings == [] ==> p.sum.holDelay == -1.0)
            && (m.closings != [] ==> |m.closings| <= |m.openings|)
            && (m.closings != [] ==>
                  (p.sum.holDelay == p.sum.holeFilled - p.sum.holeCreated <==>
                   !p.hole.open || m.openings[|m.openings| - 1] == m.openings[|m.closings| - 1]))
  {
    var begun := r.(p := Begun(r.p, target, policy));
    BegunTells(r.p, target, policy);
    CallTells(c, net, begun, evs, NoMarks());
  }

  lemma {:induction false} ClosedGrows(c: Config, net: nat -> bool, r: Run, evs: seq<Event>, m: Marks)
    ensures |m.closings| <= |MarksAfter(c, net, r, evs, m).closings|
    decreases |evs|
  {
    if evs != [] {
      ClosedGrows(c, net, Do(c, net, r, evs[0]), evs[1..], Marked(c, r, evs[0], m));
    }
  }

  lemma DelayStep(c: Config, net: nat -> bool, r: Run, ev: Event, m: Marks)
    requires !ev.Begin? && Marked(c, r, ev, m).closings == m.closings
    ensures Do(c, net, r, ev).p.sum.holDelay == r.p.sum.holDelay
  {
    if ev.Flush? {
      FlushKeepsPast(c, net, r, ev.now, ev.force);
    }
  }

  /** While no hole closes the delay stays. */
  lemma {:induction false} DelayStays(c: Config, net: nat -> bool, r: Run, evs: seq<Event>, m: Marks)
    requires OneCall(evs)
    ensures |MarksAfter(c, net, r, evs, m).closings| == |m.closings| ==>
              DoAll(c, net, r, evs).p.sum.holDelay == r.p.sum.holDelay
    decreases |evs|
  {
    if evs != [] && |MarksAfter(c, net, r, evs, m).closings| == |m.closings| {
      assert !evs[0].Begin?;
      var r1, m1 := Do(c, net, r, evs[0]), Marked(c, r, evs[0], m);
      ClosedGrows(c, net, r1, evs[1..], m1);
      DelayStep(c, net, r, evs[0], m);
      DelayStays(c, net, r1, evs[1..], m1);
    }
  }
}
