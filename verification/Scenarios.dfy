/** Runs at which the documented readings of the receiver fail, at concrete inputs. */
module Scenarios {
  import opened SeqSpace
  import opened ByteStream
  import opened Wire
  import opened Reassembling
  import opened LossPolicies
  import opened PeerModel
  import opened PeerRuns
  import NewestFirst

  /** A connection whose first data byte has sequence number zero. */
  function Probe(): Config {
    Config(40001, 9999, 65535, false, true, 0.0, 1001, 0, 0.0)
  }

  /** A one-byte data segment at offset sq, observed at t. */
  function OneByte(sq: u32, t: real): Event {
    Arrive(Arrival(Seg(9999, 40001, sq, 0, TH_ACK, 65535, NO_OPTIONS, [0]), t, t))
  }

  /** The frontier is at n, nothing is held, and the rules are these. */
  ghost predicate At(r: Run, n: u32, rules: seq<DropRule>) {
    && r.p.rx.core == Core(n, []) && r.h.stream == Stream(n, []) && r.p.policy.rules == rules
  }

  lemma Judging(rules: seq<DropRule>, dropped: int, n: u32, k: nat)
    requires n < 100 && k <= |rules| && (forall i :: 0 <= i < k ==> !Matches(rules[i], n, n + 1))
    requires k < |rules| ==> Matches(rules[k], n, n + 1)
    ensures Drops(Policy(rules, dropped), n, 1) <==> k < |rules|
    ensures k < |rules| ==> Judged(Policy(rules, dropped), n, 1).rules == rules[k := Fire(rules[k])]
  {
    SmallWrap(n + 1);
    assert FirstMatch(rules, n, Wrap(n + 1)) == k;
  }

  lemma IsData(n: u32, t: real)
    requires n < 100
    ensures CarriesData(Probe(), OneByte(n, t).a.seg) && Length(OneByte(n, t).a.seg) == 1 && Rel(Probe(), n) == n
  {
    SmallWrap(1);
    SmallWrap(n);
  }

  /** A drop of the byte n by rule k. */
  lemma DropsByte(net: nat -> bool, r: Run, n: u32, at: u32, t: real, rules: seq<DropRule>, k: nat)
    requires n < 100 && at < 100 && At(r, at, rules) && k < |rules| && Matches(rules[k], n, n + 1)
    requires forall i :: 0 <= i < k ==> !Matches(rules[i], n, n + 1)
    ensures Lost(Probe(), r.p, n, 1)
    ensures var r' := Do(Probe(), net, r, OneByte(n, t));
            && At(r', at, rules[k := Fire(rules[k])]) && r'.p.hole.open
            && (!r.p.hole.open ==> r'.p.hole.end == n + 1 && r'.h.holeAt == n + 1 && r'.p.sum.holeCreated == t)
            && r'.p.sum.holeFilled == r.p.sum.holeFilled && r'.p.sum.holDelay == r.p.sum.holDelay
  {
    IsData(n, t);
    Judging(rules, r.p.policy.dropped, n, k);
    SmallWrap(n + 1);
    SmallWrap(n);
    UnwrapIsTrue(at, n);
  }

  lemma TakesNext(n: u32)
    requires n < 100
    ensures Accept32(Core(n, []), n, 1) == Core(n + 1, [])
    ensures Play(Stream(n, []), Brought(Stream(n, []), n, 1)) == Stream(n + 1, [])
  {
    SmallWrap(n);
    SmallWrap(n + 1);
    SmallWrap(1);
    SmallWrap(0);
    UnwrapIsTrue(n, n);
    OneBrought(Stream(n, []), n, 1);
    var cur := SeqRange(n, n + 1);
    assert Merge32([], cur, false) == [cur];
    assert [cur][1..] == [];
    assert Drain32([cur], n) == Core(n + 1, []);
    assert Merge([], Range(n, n + 1), false) == [Range(n, n + 1)];
    assert [Range(n, n + 1)][1..] == [];
    assert Drain([Range(n, n + 1)], n) == Stream(n + 1, []);
    assert Accept(Stream(n, []), n, 1) == Stream(n + 1, []);
    assert Brought(Stream(n, []), n, 1) == [Segment(n, 1)];
  }

  lemma ReceivedNext(rx: Receiver, n: u32, t: real)
    requires n < 100 && rx.core == Core(n, [])
    ensures Received(rx, n, 1, t).core == Core(n + 1, [])
  {
    TakesNext(n);
    SmallWrap(n + 1);
    SmallWrap(1);
  }

  lemma ClosesBelow(hole: Hole, rx: Receiver, n: u32)
    requires n < 100 && rx.core.rcvNxt == n + 1 && hole.end <= n + 1
    ensures Closes(hole, rx) <==> hole.open
  {
    SmallWrap(n + 1 - hole.end);
  }

  lemma TakenIs(net: nat -> bool, r: Run, n: u32, t: real)
    requires n < 100 && !Lost(Probe(), r.p, n, 1)
    ensures Do(Probe(), net, r, OneByte(n, t)) ==
            Run(TakeSegment(Probe(), Note(Probe(), r.p, n, 1, t), n, 1, t, t, SeqLt(n, r.p.maxEnd)), Took(r.h, n, 1, t))
  {
    IsData(n, t);
  }

  /** The next byte is taken; an open hole that ends at or below it closes. */
  lemma TakesByte(net: nat -> bool, r: Run, n: u32, t: real, rules: seq<DropRule>)
    requires n < 100 && At(r, n, rules) && forall i :: 0 <= i < |rules| ==> !Matches(rules[i], n, n + 1)
    requires r.p.hole.open ==> r.p.hole.end <= n + 1
    ensures !Lost(Probe(), r.p, n, 1)
    ensures var r' := Do(Probe(), net, r, OneByte(n, t));
            && At(r', n + 1, rules) && !r'.p.hole.open && r'.p.sum.holeCreated == r.p.sum.holeCreated
            && (r.p.hole.open ==> r'.p.sum.holeFilled == t && r'.p.sum.holDelay == t - r.p.sum.holeCreated)
  {
    IsData(n, t);
    Judging(rules, r.p.policy.dropped, n, |rules|);
    TakenIs(net, r, n, t);
    TakesNext(n);
    ReceivedNext(r.p.rx, n, t);
    if r.p.hole.open {
      ClosesBelow(r.p.hole, Received(r.p.rx, n, 1, t), n);
    }
  }

  function TwoRules(): Policy {
    Policy([DropRule(0, 1, 1, 0), DropRule(1, 2, 1, 0)], 0)
  }

  /** Rule a drops byte 0 once, rule b byte 1. */
  ghost predicate TakeTurns(a: DropRule, b: DropRule) {
    && Matches(a, 0, 1) && !Matches(Fire(a), 0, 1) && !Matches(Fire(a), 1, 2)
    && !Matches(b, 0, 1) && Matches(b, 1, 2)
  }

  lemma DropThenTake(net: nat -> bool, r: Run, a: DropRule, b: DropRule, t0: real, t1: real, r1: Run)
    requires At(r, 0, [a, b]) && !r.p.hole.open && TakeTurns(a, b) && r1 == Do(Probe(), net, r, OneByte(0, t0))
    ensures var r2 := Do(Probe(), net, r1, OneByte(0, t1));
            At(r2, 1, [Fire(a), b]) && !r2.p.hole.open && r2.p.sum.holeFilled == t1 && r2.p.sum.holDelay == t1 - t0
  {
    DropsByte(net, r, 0, 0, t0, [a, b], 0);
    assert [a, b][0 := Fire(a)] == [Fire(a), b];
    TakesByte(net, r1, 0, t1, [Fire(a), b]);
  }

  lemma DropTakeDrop(net: nat -> bool, r: Run, a: DropRule, b: DropRule, t0: real, t1: real, t2: real)
    requires At(r, 0, [a, b]) && !r.p.hole.open && TakeTurns(a, b)
    ensures var r1 := Do(Probe(), net, r, OneByte(0, t0));
            var r2 := Do(Probe(), net, r1, OneByte(0, t1));
            var s := Do(Probe(), net, r2, OneByte(1, t2)).p.sum;
            s.holeCreated == t2 && s.holeFilled == t1 && s.holDelay == t1 - t0
  {
    var r1 := Do(Probe(), net, r, OneByte(0, t0));
    DropThenTake(net, r, a, b, t0, t1, r1);
    DropsByte(net, Do(Probe(), net, r1, OneByte(0, t1)), 1, 1, t2, [Fire(a), b], 1);
  }

  /** One call, two holes: byte 0 is dropped at 0 ms and taken at 10 ms, byte 1 dropped at 20 ms.
      The creation time is then 20 ms and not the first drop's, and the delay of 10 ms is no
      longer fill time minus creation time. */
  lemma SecondHoleOverwrites(net: nat -> bool)
    ensures var s := After(Probe(), net, [Begin(3, TwoRules()), OneByte(0, 0.0), OneByte(0, 10.0), OneByte(1, 20.0)]).p.sum;
            s.holeCreated == 20.0 && s.holeFilled == 10.0 && s.holDelay == 10.0
  {
    var evs := [Begin(3, TwoRules()), OneByte(0, 0.0), OneByte(0, 10.0), OneByte(1, 20.0)];
    var r0 := Do(Probe(), net, Start(Probe()), evs[0]);
    DropTakeDrop(net, r0, DropRule(0, 1, 1, 0), DropRule(1, 2, 1, 0), 0.0, 10.0, 20.0);
    FourEvents(Probe(), net, Start(Probe()), evs);
  }

  lemma {:induction false} FourEvents(c: Config, net: nat -> bool, r: Run, evs: seq<Event>)
    requires |evs| == 4
    ensures DoAll(c, net, r, evs) == Do(c, net, Do(c, net, Do(c, net, Do(c, net, r, evs[0]), evs[1]), evs[2]), evs[3])
  {
    TwoEvents(c, net, Do(c, net, Do(c, net, r, evs[0]), evs[1]), evs[2..]);
    TwoEvents(c, net, r, evs[..2]);
    assert evs == evs[..2] + evs[2..];
    DoAllConcat(c, net, r, evs[..2], evs[2..]);
  }

  lemma {:induction false} TwoEvents(c: Config, net: nat -> bool, r: Run, evs: seq<Event>)
    requires |evs| == 2
    ensures DoAll(c, net, r, evs) == Do(c, net, Do(c, net, r, evs[0]), evs[1])
  {
    var r1 := Do(c, net, r, evs[0]);
    assert DoAll(c, net, r1, evs[1..]) == DoAll(c, net, Do(c, net, r1, evs[1]), evs[1..][1..]);
  }

  /** A call whose policy drops a retransmission of delivered data: the hole is stale, and the
      next byte closes it with a delay although nothing was ever missing. */
  lemma StaleDropIsTimed(net: nat -> bool)
    ensures var r := After(Probe(), net, [Begin(1, Policy([], 0)), OneByte(0, 0.0), Begin(2, Policy([DropRule(0, 1, 1, 0)], 0)), OneByte(0, 10.0)]);
            && r.p.hole.open && r.p.hole.end == Wrap(r.h.holeAt) && r.h.holeAt <= r.h.stream.nxt
            && Do(Probe(), net, r, OneByte(1, 25.0)).p.sum.holDelay == 15.0
  {
    var a := DropRule(0, 1, 1, 0);
    var evs := [Begin(1, Policy([], 0)), OneByte(0, 0.0), Begin(2, Policy([a], 0)), OneByte(0, 10.0)];
    TakeDropTake(net, Do(Probe(), net, Start(Probe()), evs[0]), a, 0.0, 10.0, 25.0);
    FourEvents(Probe(), net, Start(Probe()), evs);
  }

  lemma TakeDropTake(net: nat -> bool, r: Run, a: DropRule, t0: real, t1: real, t2: real)
    requires At(r, 0, []) && !r.p.hole.open && Matches(a, 0, 1) && !Matches(Fire(a), 1, 2)
    ensures var r1 := Do(Probe(), net, Do(Probe(), net, r, OneByte(0, t0)), Begin(2, Policy([a], 0)));
            var r2 := Do(Probe(), net, r1, OneByte(0, t1));
            && r2.p.hole.open && r2.p.hole.end == Wrap(r2.h.holeAt) && r2.h.holeAt <= r2.h.stream.nxt
            && Do(Probe(), net, r2, OneByte(1, t2)).p.sum.holDelay == t2 - t1
  {
    TakesByte(net, r, 0, t0, []);
    var r1 := Do(Probe(), net, Do(Probe(), net, r, OneByte(0, t0)), Begin(2, Policy([a], 0)));
    DropsByte(net, r1, 0, 1, t1, [a], 0);
    var r2 := Do(Probe(), net, r1, OneByte(0, t1));
    assert [a][0 := Fire(a)] == [Fire(a)];
    TakesByte(net, r2, 1, t2, [Fire(a)]);
    SmallWrap(1);
  }

  /** Reordering: bytes 30 to 39 arrive, then 10 to 19. The first block reported is the older. */
  lemma ReorderedBlockNotFirst()
    ensures var evs := [Segment(30, 10), Segment(10, 10)];
            && AllInWindow(Fresh(0), evs)
            && Play(Fresh(0), evs) == Stream(0, [Range(10, 20), Range(30, 40)])
            && SackBlocks(Play32(Core(0, []), evs).held, 4)[0] == SeqRange(30, 40)
  {
    var first, second := Range(30, 40), Range(10, 20);
    var evs := [Segment(30, 10), Segment(10, 10)];
    assert evs[1..] == [Segment(10, 10)] && evs[1..][1..] == [];
    assert Merge([], first, false) == [first];
    assert Accept(Fresh(0), 30, 10) == Stream(0, [first]);
    assert [first][1..] == [] && Merge([], second, true) == [];
    assert Merge([first], second, false) == [second, first];
    assert Accept(Stream(0, [first]), 10, 10) == Stream(0, [second, first]);
    assert Play(Fresh(0), evs) == Play(Stream(0, [first]), evs[1..]);
    assert AllInWindow(Stream(0, [first]), evs[1..]);
    RunRefinesBytes(0, evs);
    SmallWrap(0);
    SmallWrap(30);
    SmallWrap(40);
  }

  lemma ThreeHeld()
    ensures var evs := [Segment(30, 10), Segment(10, 10), Segment(50, 10)];
            && AllInWindow(Fresh(0), evs)
            && Play(Fresh(0), evs) == Stream(0, [Range(10, 20), Range(30, 40), Range(50, 60)])
  {
    var a, b, d := Range(10, 20), Range(30, 40), Range(50, 60);
    var evs := [Segment(30, 10), Segment(10, 10), Segment(50, 10)];
    assert evs[1..] == [Segment(10, 10), Segment(50, 10)] && evs[1..][1..] == [Segment(50, 10)] && evs[1..][1..][1..] == [];
    assert Accept(Fresh(0), 30, 10) == Stream(0, [b]) by {
      assert Merge([], b, false) == [b];
    }
    assert Accept(Stream(0, [b]), 10, 10) == Stream(0, [a, b]) by {
      assert [b][1..] == [] && Merge([], a, true) == [];
      assert Merge([b], a, false) == [a, b];
    }
    assert Accept(Stream(0, [a, b]), 50, 10) == Stream(0, [a, b, d]) by {
      assert [a, b][1..] == [b] && [b][1..] == [] && Merge([], d, false) == [d];
      assert Merge([b], d, false) == [b, d];
      assert Merge([a, b], d, false) == [a, b, d];
    }
    assert AllInWindow(Stream(0, [a, b]), evs[1..][1..]);
    assert AllInWindow(Stream(0, [b]), evs[1..]);
    assert Play(Stream(0, [a, b]), evs[1..][1..]) == Stream(0, [a, b, d]);
    assert Play(Stream(0, [b]), evs[1..]) == Stream(0, [a, b, d]);
  }

  /** Three blocks: bytes 30 to 39 arrive, then 10 to 19, then 50 to 59. The newest block is
      reported first, but behind it the older of the other two. */
  lemma LaterBlocksOutOfOrder()
    ensures var evs := [Segment(30, 10), Segment(10, 10), Segment(50, 10)];
            && AllInWindow(Fresh(0), evs) && !NewestFirst.ReportsNewestFirst(0, evs, 3, 4)
            && Play(Fresh(0), evs).held == [Range(10, 20), Range(30, 40), Range(50, 60)]
  {
    var evs := [Segment(30, 10), Segment(10, 10), Segment(50, 10)];
    ThreeHeld();
    assert evs[..3] == evs;
    var h := Play(Fresh(0), evs).held;
    assert evs[..2] == [Segment(30, 10), Segment(10, 10)] && evs[..2][..1] == [Segment(30, 10)];
    assert NewestFirst.LastTouch(evs, h[0]) == NewestFirst.LastTouch(evs[..2], h[0]) == 1;
    assert NewestFirst.LastTouch(evs, h[1]) == NewestFirst.LastTouch(evs[..2], h[1]) == NewestFirst.LastTouch(evs[..2][..1], h[1]) == 0;
  }

  /** A rule that names no byte drops a segment around it. */
  lemma EmptyRuleDrops()
    ensures Drops(Policy([DropRule(5, 5, 1, 0)], 0), 0, 10)
  {
    SmallWrap(10);
    assert Matches(DropRule(5, 5, 1, 0), 0, 10);
  }
}
