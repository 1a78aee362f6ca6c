/** What a call tallies: segments of other connections and pure ACKs leave no trace, the flags and
    the time of the first data are those of the segments that came, and the receiver counts what
    it was given by true offsets. */
module Tallies {
  import opened SeqSpace
  import opened ByteStream
  import opened Wire
  import opened Reassembling
  import opened LossPolicies
  import opened PeerModel
  import opened PeerRuns
  import opened Acks
  import opened Originals

  // ---------------------------------------------------------------------- which segments

  /** The reset and the end bit are the third and the first of the flags. */
  lemma FlagBits(s: Seg, high: nat, rst: nat, syn: nat, fin: nat)
    requires s.flags == 8 * high + 4 * rst + 2 * syn + fin && rst <= 1 && syn <= 1 && fin <= 1
    ensures (HasRst(s) <==> rst == 1) && (HasFin(s) <==> fin == 1)
  {
    assert s.flags / 4 == 2 * high + rst;
    assert s.flags == 2 * (4 * high + 2 * rst + syn) + fin;
  }

  /** The segment came from the tested port to the peer's. */
  predicate FromOther(c: Config, s: Seg) {
    s.sport == c.dport && s.dport == c.sport
  }

  /** The events without segments of other connections. */
  function Own(c: Config, evs: seq<Event>): seq<Event> {
    if evs == [] then []
    else (if evs[0].Arrive? && !FromOther(c, evs[0].a.seg) then [] else [evs[0]]) + Own(c, evs[1..])
  }

  /** Segments of other connections can be taken out of any run without a trace. */
  lemma {:induction false} ForeignLeavesNoTrace(c: Config, net: nat -> bool, r: Run, evs: seq<Event>)
    ensures DoAll(c, net, r, Own(c, evs)) == DoAll(c, net, r, evs)
    decreases |evs|
  {
    if evs != [] {
      var rest := Own(c, evs[1..]);
      ForeignLeavesNoTrace(c, net, Do(c, net, r, evs[0]), evs[1..]);
      if evs[0].Arrive? && !FromOther(c, evs[0].a.seg) {
        assert Own(c, evs) == rest;
        assert Do(c, net, r, evs[0]) == r;
      } else {
        assert ([evs[0]] + rest)[1..] == rest;
      }
    }
  }

  /** A data segment is one of this connection, not a reset, that carries bytes; up to 2^32 - 1 of
      them its length is their number. */
  lemma DataIs(c: Config, s: Seg)
    requires |s.payload| < M
    ensures CarriesData(c, s) <==> FromOther(c, s) && !HasRst(s) && s.payload != []
    ensures Length(s) == |s.payload|
  {
    SmallWrap(|s.payload|);
  }

  /** A drop, in true offsets: the segment lies less than 2^31 beyond the first data byte and a
      rule with budget left meets it. */
  lemma LostExactly(c: Config, p: PeerState, pos: int, len: u32)
    requires 0 < len < HALF
    ensures Lost(c, p, Wrap(pos), len) <==>
            var d := Told32(pos - c.dataIsn);
            && 0 <= d
            && exists k :: 0 <= k < |p.policy.rules| && Meets(p.policy.rules[k], d, len)
  {
    RelIsTold(c, pos);
    var d := Told32(pos - c.dataIsn);
    if d >= 0 {
      DropsExactly(p.policy, d, len);
    }
  }

  // ------------------------------------------------------------------- flags and first data

  ghost predicate IsReset(c: Config, ev: Event) {
    ev.Arrive? && FromOther(c, ev.a.seg) && HasRst(ev.a.seg)
  }

  /** The end bit counts on an empty segment that is no reset. */
  ghost predicate IsEnd(c: Config, ev: Event) {
    ev.Arrive? && FromOther(c, ev.a.seg) && !HasRst(ev.a.seg) && ev.a.seg.payload == [] && HasFin(ev.a.seg)
  }

  ghost predicate SomeReset(c: Config, evs: seq<Event>) {
    exists i :: 0 <= i < |evs| && IsReset(c, evs[i])
  }

  ghost predicate SomeEnd(c: Config, evs: seq<Event>) {
    exists i :: 0 <= i < |evs| && IsEnd(c, evs[i])
  }

  lemma {:induction false} FlushKeepsSeen(c: Config, net: nat -> bool, r: Run, now: real, force: bool)
    ensures var s, f := r.p.sum, Flushed(c, net, r, now, force).p.sum;
            f.sawRst == s.sawRst && f.sawFin == s.sawFin && f.firstData == s.firstData
            && f.delivered == s.delivered && f.completed == s.completed && f.wanted == s.wanted
    decreases |r.p.pending|
  {
    if Due(r.p, now, force) {
      FlushKeepsSeen(c, net, Sent(c, r, net(r.p.attempts)), now, force);
    }
  }

  /** Data touches neither the flags nor the outcome. */
  lemma DataKeepsSeen(c: Config, p: PeerState, sq: u32, len: u32, t: real, now: real)
    ensures var s, s' := p.sum, Data(c, p, sq, len, t, now).sum;
            s'.sawRst == s.sawRst && s'.sawFin == s.sawFin && s'.delivered == s.delivered && s'.completed == s.completed
  {
    var q := Note(c, p, sq, len, t);
    assert q.sum.sawRst == p.sum.sawRst && q.sum.sawFin == p.sum.sawFin;
    assert q.sum.delivered == p.sum.delivered && q.sum.completed == p.sum.completed;
  }

  lemma SeenStep(c: Config, net: nat -> bool, r: Run, ev: Event)
    requires Short(ev) && !ev.Begin?
    ensures var s, s' := r.p.sum, Do(c, net, r, ev).p.sum;
            && (s'.sawRst <==> s.sawRst || IsReset(c, ev)) && (s'.sawFin <==> s.sawFin || IsEnd(c, ev))
  {
    match ev
    case Begin(target, policy) =>
    case Arrive(a) =>
      DataIs(c, a.seg);
      DataKeepsSeen(c, r.p, a.seg.sq, Length(a.seg), a.t, a.now);
    case Flush(now, force) =>
      FlushKeepsSeen(c, net, r, now, force);
    case End(goal) =>
  }

  lemma SomeCons(c: Config, evs: seq<Event>)
    requires evs != []
    ensures SomeReset(c, evs) <==> IsReset(c, evs[0]) || SomeReset(c, evs[1..])
    ensures SomeEnd(c, evs) <==> IsEnd(c, evs[0]) || SomeEnd(c, evs[1..])
  {
    var rest := evs[1..];
    assert forall i :: 0 < i < |evs| ==> evs[i] == rest[i - 1];
    if SomeReset(c, rest) {
      var i :| 0 <= i < |rest| && IsReset(c, rest[i]);
      assert IsReset(c, evs[i + 1]);
    }
    if SomeEnd(c, rest) {
      var i :| 0 <= i < |rest| && IsEnd(c, rest[i]);
      assert IsEnd(c, evs[i + 1]);
    }
  }

  /** A call has seen a reset, or the end, exactly if one came. */
  lemma {:induction false} SeenExactly(c: Config, net: nat -> bool, r: Run, evs: seq<Event>)
    requires AllShort(evs) && OneCall(evs)
    ensures var s, s' := r.p.sum, DoAll(c, net, r, evs).p.sum;
            && (s'.sawRst <==> s.sawRst || SomeReset(c, evs)) && (s'.sawFin <==> s.sawFin || SomeEnd(c, evs))
    decreases |evs|
  {
    if evs != [] {
      assert Short(evs[0]) && !evs[0].Begin?;
      SeenStep(c, net, r, evs[0]);
      SomeCons(c, evs);
      SeenExactly(c, net, Do(c, net, r, evs[0]), evs[1..]);
    }
  }

  /** When each segment taken was observed. */
  ghost function TakenTimes(c: Config, net: nat -> bool, r: Run, evs: seq<Event>): seq<real>
    decreases |evs|
  {
    if evs == [] then []
    else (if Takes(c, r, evs[0]) then [evs[0].a.t - c.t0] else []) + TakenTimes(c, net, Do(c, net, r, evs[0]), evs[1..])
  }

  /** No segment was observed before the connection's origin of time. */
  ghost predicate SinceOrigin(c: Config, evs: seq<Event>) {
    forall i :: 0 <= i < |evs| && evs[i].Arrive? ==> c.t0 <= evs[i].a.t
  }

  lemma FirstArrived(c: Config, p: PeerState, a: Arrival)
    ensures Step(c, p, a).sum.firstData ==
            if CarriesData(c, a.seg) && !Lost(c, p, a.seg.sq, Length(a.seg)) && p.sum.firstData < 0.0 then a.t - c.t0
            else p.sum.firstData
  {
    if CarriesData(c, a.seg) {
      var q := Note(c, p, a.seg.sq, Length(a.seg), a.t);
      assert q.sum.firstData == p.sum.firstData;
    }
  }

  lemma FirstStep(c: Config, net: nat -> bool, r: Run, ev: Event)
    requires !ev.Begin?
    ensures Do(c, net, r, ev).p.sum.firstData ==
            if Takes(c, r, ev) && r.p.sum.firstData < 0.0 then ev.a.t - c.t0 else r.p.sum.firstData
  {
    match ev
    case Begin(target, policy) =>
    case Arrive(a) =>
      FirstArrived(c, r.p, a);
    case Flush(now, force) =>
      FlushKeepsSeen(c, net, r, now, force);
    case End(goal) =>
  }

  lemma {:induction false} FirstStays(c: Config, net: nat -> bool, r: Run, evs: seq<Event>)
    requires OneCall(evs) && r.p.sum.firstData >= 0.0
    ensures DoAll(c, net, r, evs).p.sum.firstData == r.p.sum.firstData
    decreases |evs|
  {
    if evs != [] {
      assert !evs[0].Begin?;
      FirstStep(c, net, r, evs[0]);
      FirstStays(c, net, Do(c, net, r, evs[0]), evs[1..]);
    }
  }

  /** The time of the first data is that of the first segment taken, or else unset. */
  lemma {:induction false} FirstDataIs(c: Config, net: nat -> bool, r: Run, evs: seq<Event>)
    requires OneCall(evs) && SinceOrigin(c, evs) && r.p.sum.firstData < 0.0
    ensures var ts := TakenTimes(c, net, r, evs);
            DoAll(c, net, r, evs).p.sum.firstData == if ts == [] then r.p.sum.firstData else ts[0]
    decreases |evs|
  {
    if evs != [] {
      assert !evs[0].Begin?;
      FirstStep(c, net, r, evs[0]);
      if Takes(c, r, evs[0]) {
        FirstStays(c, net, Do(c, net, r, evs[0]), evs[1..]);
      } else {
        FirstDataIs(c, net, Do(c, net, r, evs[0]), evs[1..]);
      }
    }
  }

  // --------------------------------------------------------------------- what is counted

  /** Segments that bring nothing, segments that only fill beyond the frontier, and the log of
      the frontier's moves. */
  datatype Tally = Tally(stale: nat, beyond: nat, moves: seq<Advance>)

  /** A taken segment that ends at or below the first missing byte, or 2^31 or more beyond it, is
      old; else it lies beyond, or moves the first missing byte from f to f'. */
  ghost function TallyOne(m: Tally, f: int, end: int, f': int, t: real): Tally {
    if end <= f || f + HALF <= end then m.(stale := m.stale + 1)
    else if f' == f then m.(beyond := m.beyond + 1)
    else m.(moves := m.moves + [Advance(Wrap(f'), t)])
  }

  ghost function Tallied(c: Config, net: nat -> bool, r: Run, ev: Event, m: Tally): Tally {
    if Takes(c, r, ev)
    then TallyOne(m, r.h.stream.nxt, EndOf(r.h, ev.a), Do(c, net, r, ev).h.stream.nxt, ev.a.t)
    else m
  }

  ghost function TallyAll(c: Config, net: nat -> bool, r: Run, evs: seq<Event>, m: Tally): Tally
    decreases |evs|
  {
    if evs == [] then m else TallyAll(c, net, Do(c, net, r, evs[0]), evs[1..], Tallied(c, net, r, evs[0], m))
  }

  function TallyOf(rx: Receiver): Tally {
    Tally(rx.dups, rx.ooo, rx.advances)
  }

  lemma StaleExactly(s: Stream, sq: u32, len: u32)
    requires 0 < len < HALF
    ensures var end := Unwrap(s.nxt, sq) + len;
            Stale(Encode(s), sq, len) <==> end <= s.nxt || s.nxt + HALF <= end
  {
    var pos := Unwrap(s.nxt, sq);
    if pos + len <= s.nxt {
      WrapOfSum(pos, len);
      DiffInWindow(pos + len, s.nxt);
    } else {
      NewEndTakenForOld(s, pos, len);
    }
  }

  lemma ReceivedTally(c: Config, rx: Receiver, h: Past, sq: u32, len: u32, t: real, now: real)
    requires RxOk(c, rx, h) && 0 < len < HALF
    ensures TallyOf(Received(rx, sq, len, t)) ==
            TallyOne(TallyOf(rx), h.stream.nxt, Unwrap(h.stream.nxt, sq) + len, Next(h.stream, sq, len).nxt, t)
  {
    TookRx(c, rx, h, sq, len, t, now);
    StaleExactly(h.stream, sq, len);
    assert Received(rx, sq, len, t).core == Encode(Next(h.stream, sq, len));
  }

  lemma TallyStep(c: Config, net: nat -> bool, r: Run, ev: Event)
    requires RxOk(c, r.p.rx, r.h) && Short(ev)
    ensures TallyOf(Do(c, net, r, ev).p.rx) == Tallied(c, net, r, ev, TallyOf(r.p.rx))
  {
    if Takes(c, r, ev) {
      DataIs(c, ev.a.seg);
      ReceivedTally(c, r.p.rx, r.h, ev.a.seg.sq, Length(ev.a.seg), ev.a.t, ev.a.now);
    } else if ev.Flush? {
      FlushKeepsPast(c, net, r, ev.now, ev.force);
    }
  }

  /** Over every run the receiver's duplicate and out-of-order counts and its log are those of the
      segments taken, by their true offsets. */
  lemma {:induction false} TalliesExactly(c: Config, net: nat -> bool, r: Run, evs: seq<Event>)
    requires Inv(c, r) && AllShort(evs)
    ensures TallyOf(DoAll(c, net, r, evs).p.rx) == TallyAll(c, net, r, evs, TallyOf(r.p.rx))
    decreases |evs|
  {
    if evs != [] {
      assert Short(evs[0]);
      TallyStep(c, net, r, evs[0]);
      DoKeeps(c, net, r, evs[0]);
      TalliesExactly(c, net, Do(c, net, r, evs[0]), evs[1..]);
    }
  }
}
