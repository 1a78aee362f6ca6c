/** Which segments the peer takes for originals: it keeps the highest end it has seen and calls a
    segment that starts below it a retransmission. */
module Originals {
  import opened SeqSpace
  import opened ByteStream
  import opened Reassembling
  import opened PeerModel
  import opened PeerRuns

  /** What has been sighted, taken or dropped: the highest end, in true offsets, and the
      segments. */
  datatype Sight = Sight(top: int, seen: seq<Segment>)

  function PosOf(h: Past, a: Arrival): int {
    Unwrap(h.stream.nxt, a.seg.sq)
  }

  function Sees(c: Config, r: Run, ev: Event, v: Sight): Sight {
    if !ev.Arrive? || !CarriesData(c, ev.a.seg) then v
    else Sight(if EndOf(r.h, ev.a) > v.top then EndOf(r.h, ev.a) else v.top,
               v.seen + [Segment(PosOf(r.h, ev.a), Length(ev.a.seg))])
  }

  /** A data segment starts and ends within 2^31 of the highest end seen. */
  ghost predicate InReach(c: Config, r: Run, ev: Event, top: int) {
    ev.Arrive? && CarriesData(c, ev.a.seg) ==>
      -HALF <= PosOf(r.h, ev.a) - top < HALF && -HALF <= EndOf(r.h, ev.a) - top < HALF
  }

  lemma {:induction false} FlushKeepsMax(c: Config, net: nat -> bool, r: Run, now: real, force: bool)
    ensures var f := Flushed(c, net, r, now, force);
            && f.p.maxEnd == r.p.maxEnd && f.p.sum.lastOriginal == r.p.sum.lastOriginal
            && f.p.sum.retransmits == r.p.sum.retransmits
    decreases |r.p.pending|
  {
    if Due(r.p, now, force) {
      FlushKeepsMax(c, net, Sent(c, r, net(r.p.attempts)), now, force);
    }
  }

  /** The 32-bit mark: a segment is a retransmission exactly if it starts below the top, and the
      mark follows the top. */
  lemma MarkIsTop(maxEnd: u32, top: int, pos: int, len: u32)
    requires maxEnd == Wrap(top) && -HALF <= pos - top < HALF && -HALF <= pos + len - top < HALF
    ensures SeqLt(Wrap(pos), maxEnd) <==> pos < top
    ensures (if SeqGt(Wrap(Wrap(pos) + len), maxEnd) then Wrap(Wrap(pos) + len) else maxEnd) ==
            Wrap(if pos + len > top then pos + len else top)
  {
    DiffInWindow(pos, top);
    WrapOfSum(pos, len);
    DiffInWindow(pos + len, top);
  }

  lemma SightStep(c: Config, net: nat -> bool, r: Run, ev: Event, v: Sight)
    requires r.p.maxEnd == Wrap(v.top) && InReach(c, r, ev, v.top)
    ensures Do(c, net, r, ev).p.maxEnd == Wrap(Sees(c, r, ev, v).top)
    ensures ev.Arrive? && CarriesData(c, ev.a.seg) ==> (SeqLt(ev.a.seg.sq, r.p.maxEnd) <==> PosOf(r.h, ev.a) < v.top)
  {
    if ev.Flush? {
      FlushKeepsMax(c, net, r, ev.now, ev.force);
    } else if ev.Arrive? && CarriesData(c, ev.a.seg) {
      MarkIsTop(r.p.maxEnd, v.top, PosOf(r.h, ev.a), Length(ev.a.seg));
    }
  }

  // ------------------------------------------------------------------ what the mark means

  /** The segment carries a byte never seen before. */
  ghost predicate CarriesNew(v: Sight, pos: int, len: int) {
    exists x :: pos <= x < pos + len && x !in Covered(v.seen)
  }

  /** Nothing has been seen at or above the top, and from base up to it everything has. */
  ghost predicate Gapless(base: int, v: Sight) {
    forall x :: base <= x ==> (x in Covered(v.seen) <==> x < v.top)
  }

  /** A sender that never skips ahead leaves no gap. */
  lemma GaplessKept(base: int, v: Sight, pos: int, len: u32)
    requires Gapless(base, v) && base <= pos <= v.top
    ensures Gapless(base, Sight(if pos + len > v.top then pos + len else v.top, v.seen + [Segment(pos, len)]))
  {
    CoveredConcat(v.seen, [Segment(pos, len)]);
    OneBrought(Fresh(base), pos, len);
  }

  /** What is marked original carries new bytes, whatever the sender does. */
  lemma OriginalIsNew(v: Sight, pos: int, len: u32)
    requires (forall x :: x in Covered(v.seen) ==> x < v.top) && 0 < len && v.top <= pos
    ensures CarriesNew(v, pos, len)
  {
    assert pos !in Covered(v.seen);
  }

  /** With a sender that leaves no gap, the mark says "carries bytes never seen before", as
      documented, if and only if the segment does not straddle the top: one that starts below it
      and ends above carries new bytes and is taken for a retransmission. */
  lemma OriginalExactly(base: int, v: Sight, pos: int, len: u32)
    requires Gapless(base, v) && base <= pos && 0 < len
    ensures (v.top <= pos <==> CarriesNew(v, pos, len)) <==> !(pos < v.top < pos + len)
  {
    if v.top < pos + len {
      var x := if pos < v.top then v.top else pos;
      assert x !in Covered(v.seen);
    }
  }

  // ---------------------------------------------------------------------- over a call

  ghost predicate AllInReach(c: Config, net: nat -> bool, r: Run, evs: seq<Event>, v: Sight)
    decreases |evs|
  {
    evs == [] || (InReach(c, r, evs[0], v.top) && AllInReach(c, net, Do(c, net, r, evs[0]), evs[1..], Sees(c, r, evs[0], v)))
  }

  /** A data segment that is taken and starts at or above everything seen before. */
  ghost predicate TakenOriginal(c: Config, r: Run, ev: Event, v: Sight) {
    && ev.Arrive? && CarriesData(c, ev.a.seg) && !Lost(c, r.p, ev.a.seg.sq, Length(ev.a.seg))
    && v.top <= PosOf(r.h, ev.a)
  }

  /** The time of the last of them, or else t. */
  ghost function LastTaken(c: Config, net: nat -> bool, r: Run, evs: seq<Event>, v: Sight, t: real): real
    decreases |evs|
  {
    if evs == [] then t
    else LastTaken(c, net, Do(c, net, r, evs[0]), evs[1..], Sees(c, r, evs[0], v),
                   if TakenOriginal(c, r, evs[0], v) then evs[0].a.t - c.t0 else t)
  }

  lemma OriginalStep(c: Config, net: nat -> bool, r: Run, ev: Event, v: Sight)
    requires r.p.maxEnd == Wrap(v.top) && InReach(c, r, ev, v.top) && !ev.Begin?
    ensures Do(c, net, r, ev).p.sum.lastOriginal ==
            if TakenOriginal(c, r, ev, v) then ev.a.t - c.t0 else r.p.sum.lastOriginal
  {
    SightStep(c, net, r, ev, v);
    if ev.Flush? {
      FlushKeepsMax(c, net, r, ev.now, ev.force);
    }
  }

  /** The time a call returns for its last original is that of the last segment it took that
      starts at or above everything seen before, dropped segments included. */
  lemma {:induction false} LastOriginalIs(c: Config, net: nat -> bool, r: Run, evs: seq<Event>, v: Sight)
    requires r.p.maxEnd == Wrap(v.top) && OneCall(evs) && AllInReach(c, net, r, evs, v)
    ensures DoAll(c, net, r, evs).p.sum.lastOriginal == LastTaken(c, net, r, evs, v, r.p.sum.lastOriginal)
    decreases |evs|
  {
    if evs != [] {
      assert !evs[0].Begin?;
      SightStep(c, net, r, evs[0], v);
      OriginalStep(c, net, r, evs[0], v);
      LastOriginalIs(c, net, Do(c, net, r, evs[0]), evs[1..], Sees(c, r, evs[0], v));
    }
  }

  // ------------------------------------------------------------------ the retransmissions

  /** Before the first call nothing has been seen, and the mark is at the first data byte. */
  lemma StartSight(c: Config)
    ensures Start(c).p.maxEnd == Wrap(Sight(c.dataIsn, []).top) && Gapless(c.dataIsn, Sight(c.dataIsn, []))
  {
    SmallWrap(c.dataIsn);
  }

  /** A distance as 32 bits tell it: itself, or the nearest to zero they may stand for. */
  function Told32(d: int): int {
    if -HALF <= d < HALF then d else Unwrap(0, Wrap(d))
  }

  lemma RelIsTold(c: Config, pos: int)
    ensures Rel(c, Wrap(pos)) == Told32(pos - c.dataIsn)
  {
    var d := pos - c.dataIsn;
    WrapOfDifference(pos, c.dataIsn);
    SmallWrap(c.dataIsn);
    SmallWrap(0);
    SmallWrap(Wrap(d));
    if -HALF <= d < HALF {
      SmallWrap(d);
    }
  }

  /** What a data segment that starts below everything seen adds to the record. */
  ghost function Again(c: Config, r: Run, ev: Event, v: Sight): seq<Retransmit> {
    if ev.Arrive? && CarriesData(c, ev.a.seg) && PosOf(r.h, ev.a) < v.top
    then [Retransmit(ev.a.t - c.t0, Told32(PosOf(r.h, ev.a) - c.dataIsn), Length(ev.a.seg))]
    else []
  }

  ghost function AgainAll(c: Config, net: nat -> bool, r: Run, evs: seq<Event>, v: Sight): seq<Retransmit>
    decreases |evs|
  {
    if evs == [] then []
    else Again(c, r, evs[0], v) + AgainAll(c, net, Do(c, net, r, evs[0]), evs[1..], Sees(c, r, evs[0], v))
  }

  lemma AgainArrived(c: Config, p: PeerState, a: Arrival)
    ensures Step(c, p, a).sum.retransmits ==
            if CarriesData(c, a.seg) && SeqLt(a.seg.sq, p.maxEnd)
            then p.sum.retransmits + [Retransmit(a.t - c.t0, Rel(c, a.seg.sq), Length(a.seg))]
            else p.sum.retransmits
  {
    if CarriesData(c, a.seg) {
      var q := Note(c, p, a.seg.sq, Length(a.seg), a.t);
      assert Step(c, p, a).sum.retransmits == q.sum.retransmits;
    }
  }

  lemma AgainStep(c: Config, net: nat -> bool, r: Run, ev: Event, v: Sight)
    requires r.p.maxEnd == Wrap(v.top) && InReach(c, r, ev, v.top) && !ev.Begin?
    ensures Do(c, net, r, ev).p.sum.retransmits == r.p.sum.retransmits + Again(c, r, ev, v)
  {
    SightStep(c, net, r, ev, v);
    match ev
    case Begin(target, policy) =>
    case Arrive(a) =>
      AgainArrived(c, r.p, a);
      RelIsTold(c, PosOf(r.h, a));
    case Flush(now, force) =>
      FlushKeepsMax(c, net, r, now, force);
    case End(goal) =>
  }

  lemma Associate(a: seq<Retransmit>, b: seq<Retransmit>, d: seq<Retransmit>)
    ensures a + b + d == a + (b + d)
  {
  }

  /** The retransmissions a call records are, in order, its data segments that start below
      something seen before, dropped ones included: when each was observed, its distance from the
      first data byte, and its length. */
  lemma {:induction false} RetransmitsAre(c: Config, net: nat -> bool, r: Run, evs: seq<Event>, v: Sight)
    requires r.p.maxEnd == Wrap(v.top) && OneCall(evs) && AllInReach(c, net, r, evs, v)
    ensures DoAll(c, net, r, evs).p.sum.retransmits == r.p.sum.retransmits + AgainAll(c, net, r, evs, v)
    decreases |evs|
  {
    if evs != [] {
      assert !evs[0].Begin?;
      var r1, v1 := Do(c, net, r, evs[0]), Sees(c, r, evs[0], v);
      SightStep(c, net, r, evs[0], v);
      AgainStep(c, net, r, evs[0], v);
      RetransmitsAre(c, net, r1, evs[1..], v1);
      Associate(r.p.sum.retransmits, Again(c, r, evs[0], v), AgainAll(c, net, r1, evs[1..], v1));
    }
  }
}
