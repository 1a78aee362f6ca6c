/** What the peer's ACKs say on the wire: which number and blocks each carries, that no byte is
    acknowledged that did not arrive, which repeat the last number, and when they may leave. */
module Acks {
  import opened SeqSpace
  import opened ByteStream
  import opened Wire
  import opened Reassembling
  import opened PeerModel
  import opened PeerRuns

  // ------------------------------------------------------------------ what an ACK carries

  /** The segment is a bare ACK of this connection. */
  ghost predicate BareAck(c: Config, a: Seg) {
    && a.sport == c.sport && a.dport == c.dport && a.sq == c.snd && a.flags == 0x10 && a.win == c.win
    && a.payload == [] && a.opt.mss.None? && !a.opt.sackPermitted && a.opt.wscale.None?
  }

  /** The blocks are the highest runs, at most four of them, highest first. */
  ghost predicate HighestRuns(blocks: seq<SeqRange>, runs: seq<Range>) {
    && |blocks| == (if |runs| < 4 then |runs| else 4)
    && forall i :: 0 <= i < |blocks| ==> blocks[i] == SeqRange(Wrap(runs[|runs| - 1 - i].lo), Wrap(runs[|runs| - 1 - i].hi))
  }

  /** The ACK's number is the first byte missing from the segments, its blocks are the runs
      beyond it if both SACK switches are on, and nothing else is in it. */
  ghost predicate Carries(c: Config, a: Seg, segs: seq<Segment>, x: int, runs: seq<Range>) {
    && BareAck(c, a) && Stands(c.dataIsn, Covered(segs), Stream(x, runs)) && a.ack == Wrap(x)
    && (if c.offerSack && c.sendSackBlocks then HighestRuns(a.opt.blocks, runs) else a.opt.blocks == [])
  }

  lemma {:induction false} BlocksAreHighest(held: seq<Range>)
    ensures HighestRuns(SackBlocks(EncodeAll(held), MAX_SACKS), held)
  {
    var e := EncodeAll(held);
    HighestFrom(held, e, SackBlocks(e, MAX_SACKS));
  }

  lemma {:induction false} HighestFrom(held: seq<Range>, e: seq<SeqRange>, b: seq<SeqRange>)
    requires |e| == |held| && |b| == (if |e| < 4 then |e| else 4)
    requires forall i :: 0 <= i < |held| ==> e[i] == EncodeRange(held[i])
    requires forall i :: 0 <= i < |b| ==> b[i] == e[|e| - 1 - i]
    ensures HighestRuns(b, held)
  {
  }

  lemma {:induction false} AckOfCarries(c: Config, segs: seq<Segment>, x: int, runs: seq<Range>)
    requires Stands(c.dataIsn, Covered(segs), Stream(x, runs))
    ensures Carries(c, AckOf(c, Stream(x, runs)), segs, x, runs)
  {
    BlocksAreHighest(runs);
    assert BareAck(c, AckOf(c, Stream(x, runs)));
  }

  /** Every ACK on the wire, in its fields: it carries the first byte missing from the segments
      accepted when it was queued, and the highest runs held. */
  lemma AckCarries(c: Config, net: nat -> bool, evs: seq<Event>, k: nat)
    requires AllShort(evs) && k < |After(c, net, evs).p.wire|
    ensures var r := After(c, net, evs);
            && |r.h.left| == |r.p.wire| && r.h.left[k] < |r.h.queued| && Source(r.h, k).n <= |r.h.accepted|
            && Carries(c, r.p.wire[k], r.h.accepted[..Source(r.h, k).n], Source(r.h, k).stream.nxt, Source(r.h, k).stream.held)
  {
    var r := After(c, net, evs);
    AcksInOrder(c, net, evs, k, k);
    AckOfCarries(c, r.h.accepted[..Source(r.h, k).n], Source(r.h, k).stream.nxt, Source(r.h, k).stream.held);
  }

  // --------------------------------------------------------------------------- ACK safety

  ghost predicate InBlock(b: SeqRange, n: u32) {
    SeqGeq(n, b.start) && SeqLt(n, b.end)
  }

  /** As its receiver reads it, the ACK covers byte x: by its number, which stands for offset f,
      or by a block. */
  ghost predicate Acknowledges(a: Seg, f: int, x: int) {
    || x < f - HALF
    || (x < f + HALF && SeqLt(Wrap(x), a.ack))
    || (x < f + HALF && exists i :: 0 <= i < |a.opt.blocks| && InBlock(a.opt.blocks[i], Wrap(x)))
  }

  lemma BlockIsHeld(f: int, r: Range, x: int)
    requires LiveRange(f, r) && f <= x < f + HALF && InBlock(SeqRange(Wrap(r.lo), Wrap(r.hi)), Wrap(x))
    ensures r.lo <= x < r.hi
  {
    DiffInWindow(x, r.lo);
    DiffInWindow(x, r.hi);
  }

  lemma {:induction false} AcknowledgedIsHeld(c: Config, a: Seg, segs: seq<Segment>, f: int, runs: seq<Range>, x: int)
    requires Carries(c, a, segs, f, runs) && Live(f, runs) && c.dataIsn <= x && Acknowledges(a, f, x)
    ensures x in Covered(segs)
  {
    if f <= x {
      DiffInWindow(x, f);
      var i :| 0 <= i < |a.opt.blocks| && InBlock(a.opt.blocks[i], Wrap(x));
      var r := runs[|runs| - 1 - i];
      BlockIsHeld(f, r, x);
      assert Covers(runs, x);
      assert f < r.lo;
    }
  }

  /** ACK safety: a byte of the stream that any ACK on the wire acknowledges was in a segment that
      arrived and was not dropped. A byte whose every copy the policy discarded is never
      acknowledged. */
  lemma AckedByteArrived(c: Config, net: nat -> bool, evs: seq<Event>, k: nat, x: int) returns (i: nat, e: Segment)
    requires AllShort(evs) && k < |After(c, net, evs).p.wire|
    requires var r := After(c, net, evs);
             k < |r.h.left| && r.h.left[k] < |r.h.queued| && c.dataIsn <= x && Acknowledges(r.p.wire[k], Source(r.h, k).stream.nxt, x)
    ensures i < |evs| && Delivers(c, After(c, net, evs[..i]), evs[i], e) && e.pos <= x < e.pos + e.len
  {
    var r := After(c, net, evs);
    AckCarries(c, net, evs, k);
    AcksInOrder(c, net, evs, k, k);
    var q := Source(r.h, k);
    AcknowledgedIsHeld(c, r.p.wire[k], r.h.accepted[..q.n], q.stream.nxt, q.stream.held, x);
    CoveredPrefix(r.h.accepted, q.n, x);
    var j := CoveredByOne(r.h.accepted, x);
    e := r.h.accepted[j];
    i := AcceptedArrived(c, net, Start(c), evs, j);
  }

  // ------------------------------------------------------------------ one ACK per segment

  /** The event brings a data segment that the policy lets pass. */
  ghost predicate Takes(c: Config, r: Run, ev: Event) {
    ev.Arrive? && CarriesData(c, ev.a.seg) && !Lost(c, r.p, ev.a.seg.sq, Length(ev.a.seg))
  }

  lemma {:induction false} FlushKeepsQueued(c: Config, net: nat -> bool, r: Run, now: real, force: bool)
    ensures Flushed(c, net, r, now, force).h.queued == r.h.queued
    decreases |r.p.pending|
  {
    if Due(r.p, now, force) {
      FlushKeepsQueued(c, net, Sent(c, r, net(r.p.attempts)), now, force);
    }
  }

  /** The state in which an event leaves the receiver, and the clock at which its ACK is queued. */
  ghost function Told(c: Config, net: nat -> bool, r: Run, ev: Event): Queued
    requires ev.Arrive?
  {
    var h := Do(c, net, r, ev).h;
    Queued(h.stream, |h.accepted|, ev.a.now)
  }

  lemma QueuedStep(c: Config, net: nat -> bool, r: Run, ev: Event)
    ensures Do(c, net, r, ev).h.queued == if Takes(c, r, ev) then r.h.queued + [Told(c, net, r, ev)] else r.h.queued
  {
    if ev.Flush? {
      FlushKeepsQueued(c, net, r, ev.now, ev.force);
    }
  }

  /** What every segment taken leaves, in order. */
  ghost function ToldAll(c: Config, net: nat -> bool, r: Run, evs: seq<Event>): seq<Queued>
    decreases |evs|
  {
    if evs == [] then []
    else (if Takes(c, r, evs[0]) then [Told(c, net, r, evs[0])] else []) + ToldAll(c, net, Do(c, net, r, evs[0]), evs[1..])
  }

  /** Every segment taken queues exactly one ACK, of the state it leaves, and nothing else does. */
  lemma {:induction false} OneAckEach(c: Config, net: nat -> bool, r: Run, evs: seq<Event>)
    ensures DoAll(c, net, r, evs).h.queued == r.h.queued + ToldAll(c, net, r, evs)
    decreases |evs|
  {
    if evs != [] {
      QueuedStep(c, net, r, evs[0]);
      OneAckEach(c, net, Do(c, net, r, evs[0]), evs[1..]);
    }
  }

  // -------------------------------------------------------------------- when ACKs may leave

  /** A flush attempts a prefix of the queue: unless forced, exactly the part that is due. */
  lemma {:induction false} FlushSends(c: Config, net: nat -> bool, r: Run, now: real, force: bool) returns (n: nat)
    ensures var f := Flushed(c, net, r, now, force);
            n <= |r.p.pending| && f.p.pending == r.p.pending[n..] && f.p.attempts == r.p.attempts + n
    ensures forall i :: 0 <= i < n ==> force || r.p.pending[i].due <= now
    ensures n < |r.p.pending| ==> !force && r.p.pending[n].due > now
    decreases |r.p.pending|
  {
    n := 0;
    if r.p.pending != [] && (force || r.p.pending[0].due <= now) {
      assert Due(r.p, now, force);
      var r' := Sent(c, r, net(r.p.attempts));
      var m := FlushSends(c, net, r', now, force);
      n := m + 1;
      assert r'.p.pending == r.p.pending[1..];
    }
  }

  lemma {:induction false} DueAt(c: Config, pending: seq<Pending>, attempts: nat, queued: seq<Queued>, i: nat, j: nat)
    requires PendingOk(c, pending, attempts, queued) && i < |pending| && j == attempts + i
    ensures j < |queued| && pending[i].due == queued[j].at + c.ackDelay
  {
    assert Tells(c, pending[i], queued, attempts + i);
  }

  /** From attempt a to attempt n exactly what the delay allows at that time has been attempted. */
  ghost predicate Waited(c: Config, queued: seq<Queued>, a: nat, n: nat, now: real, force: bool) {
    && a <= n <= |queued|
    && (forall j :: a <= j < n ==> force || queued[j].at + c.ackDelay <= now)
    && (n < |queued| ==> !force && queued[n].at + c.ackDelay > now)
  }

  /** Unless forced, an ACK is attempted at the first flush at which the configured delay has
      passed since its segment was taken, and at none before; it never overtakes another. */
  lemma {:induction false} FlushWaits(c: Config, net: nat -> bool, r: Run, now: real, force: bool)
    requires Inv(c, r)
    ensures Waited(c, r.h.queued, r.p.attempts, Flushed(c, net, r, now, force).p.attempts, now, force)
  {
    FlushSendsDue(c, net, r, now, force);
  }

  lemma {:induction false} FlushSendsDue(c: Config, net: nat -> bool, r: Run, now: real, force: bool)
    requires PendingOk(c, r.p.pending, r.p.attempts, r.h.queued)
    ensures Waited(c, r.h.queued, r.p.attempts, Flushed(c, net, r, now, force).p.attempts, now, force)
  {
    var n := FlushSends(c, net, r, now, force);
    SentWere(c, r.p.pending, r.p.attempts, r.h.queued, n, r.p.attempts + n, now, force);
  }

  lemma {:induction false} SentWere(c: Config, pending: seq<Pending>, a: nat, queued: seq<Queued>, n: nat, b: nat, now: real, force: bool)
    requires PendingOk(c, pending, a, queued) && n <= |pending| && b == a + n
    requires forall i :: 0 <= i < n ==> force || pending[i].due <= now
    requires n < |pending| ==> !force && pending[n].due > now
    ensures Waited(c, queued, a, b, now, force)
  {
    forall j | a <= j < b
      ensures force || queued[j].at + c.ackDelay <= now
    {
      DueAt(c, pending, a, queued, j - a, j);
    }
    if n < |pending| {
      DueAt(c, pending, a, queued, n, b);
    }
  }

  // ------------------------------------------------------------------ which attempts left

  /** What left is what the network let out. */
  ghost predicate LeftBy(net: nat -> bool, left: seq<nat>, attempts: nat) {
    forall i: nat :: i in left <==> i < attempts && net(i)
  }

  lemma {:induction false} FlushLeaves(c: Config, net: nat -> bool, r: Run, now: real, force: bool)
    requires LeftBy(net, r.h.left, r.p.attempts)
    ensures var f := Flushed(c, net, r, now, force); LeftBy(net, f.h.left, f.p.attempts)
    decreases |r.p.pending|
  {
    if Due(r.p, now, force) {
      FlushLeaves(c, net, Sent(c, r, net(r.p.attempts)), now, force);
    }
  }

  /** Over every run, exactly the attempts that the network let out have left. */
  lemma {:induction false} LeftIsSent(c: Config, net: nat -> bool, r: Run, evs: seq<Event>)
    requires LeftBy(net, r.h.left, r.p.attempts)
    ensures var r' := DoAll(c, net, r, evs); LeftBy(net, r'.h.left, r'.p.attempts)
    decreases |evs|
  {
    if evs != [] {
      if evs[0].Flush? {
        FlushLeaves(c, net, r, evs[0].now, evs[0].force);
      }
      LeftIsSent(c, net, Do(c, net, r, evs[0]), evs[1..]);
    }
  }

  // ------------------------------------------------------------------------ duplicate ACKs

  /** How many of these ACKs repeat the number told before them. */
  function Repeated(base: int, queued: seq<Queued>, left: seq<nat>): nat {
    if left == [] then 0
    else Repeated(base, queued, left[..|left| - 1]) + if Repeats(base, queued, left[|left| - 1]) then 1 else 0
  }

  lemma {:induction false} RepeatedOn(base: int, queued: seq<Queued>, q: Queued, left: seq<nat>)
    requires forall k :: 0 <= k < |left| ==> left[k] < |queued|
    ensures Repeated(base, queued + [q], left) == Repeated(base, queued, left)
    decreases |left|
  {
    if left != [] {
      RepeatedOn(base, queued, q, left[..|left| - 1]);
      var j := left[|left| - 1];
      assert (queued + [q])[j] == queued[j] && (j > 0 ==> (queued + [q])[j - 1] == queued[j - 1]);
    }
  }

  lemma {:induction false} RepeatedSnoc(base: int, queued: seq<Queued>, left: seq<nat>, j: nat)
    ensures Repeated(base, queued, left + [j]) == Repeated(base, queued, left) + if Repeats(base, queued, j) then 1 else 0
  {
    assert (left + [j])[..|left|] == left;
  }

  /** Since n ACKs had left, the call has counted those that repeat. */
  ghost predicate Counted(c: Config, r: Run, n: nat) {
    n <= |r.h.left| && r.p.sum.dupAcks == Repeated(c.dataIsn, r.h.queued, r.h.left[n..])
  }

  lemma {:induction false} RepeatedLast(base: int, queued: seq<Queued>, left: seq<nat>, n: nat, j: nat)
    requires n <= |left|
    ensures Repeated(base, queued, (left + [j])[n..]) ==
            Repeated(base, queued, left[n..]) + if Repeats(base, queued, j) then 1 else 0
  {
    assert (left + [j])[n..] == left[n..] + [j];
    RepeatedSnoc(base, queued, left[n..], j);
  }

  lemma SentCounts(c: Config, r: Run, ok: bool, n: nat)
    requires QueueOk(c, r.p, r.h) && r.p.pending != [] && Counted(c, r, n)
    ensures Counted(c, Sent(c, r, ok), n)
  {
    if ok {
      var a := r.p.pending[0];
      PendingShrinks(c, r.p.pending, r.p.attempts, r.h.queued);
      RepeatedLast(c.dataIsn, r.h.queued, r.h.left, n, r.p.attempts);
      assert a.isDup <==> Repeats(c.dataIsn, r.h.queued, r.p.attempts);
      SentOne(c, r, a);
    }
  }

  lemma SentOne(c: Config, r: Run, a: Pending)
    requires r.p.pending != [] && a == r.p.pending[0]
    ensures var r' := Sent(c, r, true);
            && r'.h.queued == r.h.queued && r'.h.left == r.h.left + [r.p.attempts]
            && r'.p.sum.dupAcks == r.p.sum.dupAcks + if a.isDup then 1 else 0
  {
  }

  lemma {:induction false} FlushCounts(c: Config, net: nat -> bool, r: Run, now: real, force: bool, n: nat)
    requires Inv(c, r) && Counted(c, r, n)
    ensures Counted(c, Flushed(c, net, r, now, force), n)
    decreases |r.p.pending|
  {
    if Due(r.p, now, force) {
      SentCounts(c, r, net(r.p.attempts), n);
      SentKeeps(c, r, net(r.p.attempts));
      FlushCounts(c, net, Sent(c, r, net(r.p.attempts)), now, force, n);
    }
  }

  lemma LeftBelow(c: Config, r: Run, n: nat)
    requires QueueOk(c, r.p, r.h) && n <= |r.h.left|
    ensures forall k :: 0 <= k < |r.h.left[n..]| ==> r.h.left[n..][k] < |r.h.queued|
  {
  }

  lemma ArriveKeepsLeft(c: Config, p: PeerState, h: Past, a: Arrival)
    ensures Remember(c, p, h, a).left == h.left && Step(c, p, a).sum.dupAcks == p.sum.dupAcks
  {
    if CarriesData(c, a.seg) {
      var q := Note(c, p, a.seg.sq, Length(a.seg), a.t);
      assert q.sum.dupAcks == p.sum.dupAcks;
    }
  }

  lemma ArriveCounts(c: Config, net: nat -> bool, r: Run, a: Arrival, n: nat)
    requires Inv(c, r) && Counted(c, r, n)
    ensures Counted(c, Do(c, net, r, Arrive(a)), n)
  {
    QueuedStep(c, net, r, Arrive(a));
    ArriveKeepsLeft(c, r.p, r.h, a);
    if Takes(c, r, Arrive(a)) {
      LeftBelow(c, r, n);
      RepeatedOn(c.dataIsn, r.h.queued, Told(c, net, r, Arrive(a)), r.h.left[n..]);
    }
  }

  /** Over a call: the duplicate ACKs it counts are exactly those of its ACKs on the wire that
      repeat the number told before them, that is, those of segments that left the first missing
      byte where it was. */
  lemma {:induction false} CallDupAcks(c: Config, net: nat -> bool, r: Run, evs: seq<Event>, n: nat)
    requires Inv(c, r) && AllShort(evs) && OneCall(evs) && Counted(c, r, n)
    ensures Counted(c, DoAll(c, net, r, evs), n)
    decreases |evs|
  {
    if evs != [] {
      assert Short(evs[0]) && !evs[0].Begin?;
      DoKeeps(c, net, r, evs[0]);
      if evs[0].Flush? {
        FlushCounts(c, net, r, evs[0].now, evs[0].force, n);
      } else if evs[0].Arrive? {
        ArriveCounts(c, net, r, evs[0].a, n);
      }
      CallDupAcks(c, net, Do(c, net, r, evs[0]), evs[1..], n);
    }
  }
}
