/** One receive call as a whole: its events are a single call's, so what holds over runs holds
    of it, and its summary closes only after every queued ACK has been attempted. */
module PeerCalls {
  import opened SeqSpace
  import opened Reassembling
  import opened PeerModel
  import opened PeerRuns
  import opened Peers
  import opened Acks
  import opened Originals
  import opened Tallies
  import Packets
  import Options
  import Checksum

  ghost predicate ShortBatch(batch: seq<Arrival>) {
    forall i :: 0 <= i < |batch| ==> |batch[i].seg.payload| < HALF
  }

  ghost predicate ShortScript(script: seq<Round>) {
    forall i :: 0 <= i < |script| ==> ShortBatch(script[i].batch)
  }

  /** Events that belong to one call and carry short payloads. */
  ghost predicate Plain(evs: seq<Event>) {
    AllShort(evs) && OneCall(evs)
  }

  lemma PlainConcat(a: seq<Event>, b: seq<Event>)
    requires Plain(a) && Plain(b)
    ensures Plain(a + b)
  {
    forall i | 0 <= i < |a + b|
      ensures Short((a + b)[i]) && !(a + b)[i].Begin?
    {
      assert (a + b)[i] == if i < |a| then a[i] else b[i - |a|];
    }
  }

  lemma {:induction false} BatchPlain(c: Config, batch: seq<Arrival>)
    requires ShortBatch(batch)
    ensures Plain(ThroughRst(c, batch))
    decreases |batch|
  {
    if batch != [] {
      assert Plain([Arrive(batch[0])]);
      BatchPlain(c, batch[1..]);
      PlainConcat([Arrive(batch[0])], ThroughRst(c, batch[1..]));
    }
  }

  /** A call's events are one call's. */
  lemma {:induction false} RoundsPlain(c: Config, net: nat -> bool, r: Run, script: seq<Round>, deadline: real, target: u32, finish: real)
    requires ShortScript(script)
    ensures Plain(Rounds(c, net, r, script, deadline, target, finish))
    decreases |script|
  {
    if !Over(c, r, script, deadline, target) {
      var b, f := ThroughRst(c, script[0].batch), Flush(script[0].flushAt, false);
      BatchPlain(c, script[0].batch);
      if !Stops(c, script[0].batch) {
        var r' := Do(c, net, DoAll(c, net, r, b), f);
        var rest := Rounds(c, net, r', script[1..], deadline, target, finish);
        RoundsPlain(c, net, r', script[1..], deadline, target, finish);
        PlainConcat([f], rest);
        PlainConcat(b, [f] + rest);
      }
    }
  }

  lemma {:induction false} StopIsSeen(c: Config, net: nat -> bool, r: Run, batch: seq<Arrival>)
    requires Stops(c, batch)
    ensures DoAll(c, net, r, ThroughRst(c, batch)).p.sum.sawRst
    decreases |batch|
  {
    SegmentThenRest(c, net, r, batch, 0);
    assert batch[0..] == batch;
    if !StopsAt(c, batch[0]) {
      var i :| 0 <= i < |batch| && StopsAt(c, batch[i]);
      assert batch[1..][i - 1] == batch[i];
      StopIsSeen(c, net, Do(c, net, r, Arrive(batch[0])), batch[1..]);
    }
  }

  /** Nothing is pending and the summary states what was delivered. */
  ghost predicate Closed(c: Config, p: PeerState, target: u32) {
    && p.pending == [] && p.sum.delivered == Delivered(c, p)
    && (p.sum.completed <==> Delivered(c, p) >= target)
  }

  lemma {:induction false} FinishCloses(c: Config, net: nat -> bool, r: Run, finish: real, target: u32)
    ensures Closed(c, DoAll(c, net, r, Finish(finish, target)).p, target)
  {
    FinishIs(c, net, r, finish, target);
    ForcedFlushEmpties(c, net, r, finish);
  }

  lemma {:induction false} ForcedFlushEmpties(c: Config, net: nat -> bool, r: Run, now: real)
    ensures Flushed(c, net, r, now, true).p.pending == []
    decreases |r.p.pending|
  {
    if r.p.pending != [] {
      ForcedFlushEmpties(c, net, Sent(c, r, net(r.p.attempts)), now);
    }
  }

  /** A call ends with its books closed, or it saw a reset. */
  lemma {:induction false} CallCloses(c: Config, net: nat -> bool, r: Run, script: seq<Round>, deadline: real, target: u32, finish: real)
    ensures var p := Call(c, net, r, script, deadline, target, finish).p;
            p.sum.sawRst || Closed(c, p, target)
    decreases |script|
  {
    if Over(c, r, script, deadline, target) {
      LoopOver(c, net, r, script, deadline, target, finish);
      FinishCloses(c, net, r, finish, target);
    } else if Stops(c, script[0].batch) {
      RoundStops(c, net, r, script, deadline, target, finish);
      StopIsSeen(c, net, r, script[0].batch);
    } else {
      var r' := Do(c, net, DoAll(c, net, r, ThroughRst(c, script[0].batch)), Flush(script[0].flushAt, false));
      RoundThenRest(c, net, r, script, deadline, target, finish);
      CallCloses(c, net, r', script[1..], deadline, target, finish);
    }
  }

  /** The outcome of one receive call, whatever arrives: the invariant behind ACK safety still
      holds; the counters account for every drop and every send attempt of the call; and unless
      a reset came, every ACK ever queued has been attempted and the call is complete exactly
      if the delivered count has reached the target. */
  lemma CallOutcome(c: Config, net: nat -> bool, r: Run, script: seq<Round>, deadline: real, target: u32, finish: real)
    requires Inv(c, r) && ShortScript(script)
    ensures var begun := r.(p := Begun(r.p, target, r.p.policy));
            var after := Call(c, net, begun, script, deadline, target, finish);
            && Inv(c, after) && Books(after.p, begun.p)
            && (after.p.sum.sawRst || (Closed(c, after.p, target) && after.p.attempts == |after.h.queued|))
  {
    var begun := r.(p := Begun(r.p, target, r.p.policy));
    var evs := Rounds(c, net, begun, script, deadline, target, finish);
    RoundsPlain(c, net, begun, script, deadline, target, finish);
    RunKeeps(c, net, begun, evs);
    CallBooks(c, net, begun, evs, begun.p);
    CallCloses(c, net, begun, script, deadline, target, finish);
  }

  /** What a call returns about holes is what its marks say: the last hole opened, and the last
      one closed with its delay. */
  lemma {:induction false} CallHoles(c: Config, net: nat -> bool, r: Run, script: seq<Round>, deadline: real, target: u32, finish: real)
    requires ShortScript(script)
    ensures var begun := r.(p := Begun(r.p, target, r.p.policy));
            var evs := Rounds(c, net, begun, script, deadline, target, finish);
            SummaryTells(Call(c, net, begun, script, deadline, target, finish).p, MarksAfter(c, net, begun, evs, NoMarks()))
  {
    var begun := r.(p := Begun(r.p, target, r.p.policy));
    RoundsPlain(c, net, begun, script, deadline, target, finish);
    BegunTells(r.p, target, r.p.policy);
    CallTells(c, net, begun, Rounds(c, net, begun, script, deadline, target, finish), NoMarks());
  }

  // ------------------------------------------------------------------ which events a call has

  function Arrives(batch: seq<Arrival>): seq<Event> {
    seq(|batch|, (i: nat) requires i < |batch| => Arrive(batch[i]))
  }

  /** One whole pass: everything drained arrives, and then what is due is sent. */
  function Pass(round: Round): seq<Event> {
    Arrives(round.batch) + [Flush(round.flushAt, false)]
  }

  function Passes(script: seq<Round>): seq<Event> {
    if script == [] then [] else Pass(script[0]) + Passes(script[1..])
  }

  /** Pass i is entered: there is one, before the deadline, and less than the target has been
      delivered by the passes before it. */
  ghost predicate Entered(c: Config, net: nat -> bool, r: Run, script: seq<Round>, deadline: real, target: u32, i: nat) {
    i < |script| && script[i].now < deadline && Delivered(c, DoAll(c, net, r, Passes(script[..i])).p) < target
  }

  ghost predicate NoReset(c: Config, batch: seq<Arrival>) {
    forall j :: 0 <= j < |batch| ==> !IsReset(c, Arrive(batch[j]))
  }

  /** The first n passes are entered and none of them meets a reset. */
  ghost predicate WholePasses(c: Config, net: nat -> bool, r: Run, script: seq<Round>, deadline: real, target: u32, n: nat) {
    n <= |script| && forall i :: 0 <= i < n ==> Entered(c, net, r, script, deadline, target, i) && NoReset(c, script[i].batch)
  }

  /** Segment m of the batch is its first reset. */
  ghost predicate FirstReset(c: Config, batch: seq<Arrival>, m: nat) {
    m < |batch| && IsReset(c, Arrive(batch[m])) && NoReset(c, batch[..m])
  }

  lemma {:induction false} ArrivesCons(batch: seq<Arrival>)
    requires batch != []
    ensures Arrives(batch) == [Arrive(batch[0])] + Arrives(batch[1..])
  {
  }

  lemma {:induction false} ThroughWhole(c: Config, batch: seq<Arrival>)
    requires NoReset(c, batch)
    ensures ThroughRst(c, batch) == Arrives(batch) && !Stops(c, batch)
    decreases |batch|
  {
    if batch != [] {
      assert !IsReset(c, Arrive(batch[0]));
      ArrivesCons(batch);
      ThroughWhole(c, batch[1..]);
    }
    forall i | 0 <= i < |batch|
      ensures !StopsAt(c, batch[i])
    {
      assert !IsReset(c, Arrive(batch[i]));
    }
  }

  lemma {:induction false} ThroughFirst(c: Config, batch: seq<Arrival>) returns (m: nat)
    requires !NoReset(c, batch)
    ensures FirstReset(c, batch, m) && ThroughRst(c, batch) == Arrives(batch[..m + 1]) && Stops(c, batch)
    decreases |batch|
  {
    if IsReset(c, Arrive(batch[0])) {
      m := 0;
      assert StopsAt(c, batch[0]);
    } else {
      var j :| 0 <= j < |batch| && IsReset(c, Arrive(batch[j]));
      assert batch[1..][j - 1] == batch[j];
      var m0 := ThroughFirst(c, batch[1..]);
      m := m0 + 1;
      LaterReset(c, batch, m0);
      ArrivesCons(batch[..m + 1]);
      assert batch[..m + 1][1..] == batch[1..][..m0 + 1];
      assert StopsAt(c, batch[m]);
    }
  }

  lemma LaterReset(c: Config, batch: seq<Arrival>, m: nat)
    requires batch != [] && !IsReset(c, Arrive(batch[0])) && FirstReset(c, batch[1..], m)
    ensures FirstReset(c, batch, m + 1)
  {
    var front := batch[..m + 1];
    forall j | 0 <= j < |front|
      ensures !IsReset(c, Arrive(front[j]))
    {
      assert j > 0 ==> front[j] == batch[1..][..m][j - 1];
    }
  }

  lemma {:induction false} PassesCons(c: Config, net: nat -> bool, r: Run, script: seq<Round>, n: nat)
    requires n < |script|
    ensures Passes(script[..n + 1]) == Pass(script[0]) + Passes(script[1..][..n])
    ensures DoAll(c, net, r, Passes(script[..n + 1])) == DoAll(c, net, DoAll(c, net, r, Pass(script[0])), Passes(script[1..][..n]))
  {
    assert script[..n + 1][1..] == script[1..][..n];
    DoAllConcat(c, net, r, Pass(script[0]), Passes(script[1..][..n]));
  }

  lemma {:induction false} EnteredLater(c: Config, net: nat -> bool, r: Run, script: seq<Round>, deadline: real, target: u32, i: nat)
    requires script != []
    ensures Entered(c, net, r, script, deadline, target, i + 1) <==>
            Entered(c, net, DoAll(c, net, r, Pass(script[0])), script[1..], deadline, target, i)
  {
    if i + 1 < |script| {
      PassesCons(c, net, r, script, i);
    }
  }

  lemma {:induction false} WholeLater(c: Config, net: nat -> bool, r: Run, script: seq<Round>, deadline: real, target: u32, n: nat)
    requires script != [] && Entered(c, net, r, script, deadline, target, 0) && NoReset(c, script[0].batch)
    requires WholePasses(c, net, DoAll(c, net, r, Pass(script[0])), script[1..], deadline, target, n)
    ensures WholePasses(c, net, r, script, deadline, target, n + 1)
  {
    forall i | 0 <= i < n + 1
      ensures Entered(c, net, r, script, deadline, target, i) && NoReset(c, script[i].batch)
    {
      if i > 0 {
        EnteredLater(c, net, r, script, deadline, target, i - 1);
        assert script[1..][i - 1] == script[i];
      }
    }
  }

  lemma {:induction false} PassRuns(c: Config, net: nat -> bool, r: Run, round: Round)
    ensures DoAll(c, net, r, Pass(round)) == Do(c, net, DoAll(c, net, r, Arrives(round.batch)), Flush(round.flushAt, false))
  {
    var f := Flush(round.flushAt, false);
    DoAllConcat(c, net, r, Arrives(round.batch), [f]);
    var r1 := DoAll(c, net, r, Arrives(round.batch));
    assert [f][1..] == [];
    assert DoAll(c, net, Do(c, net, r1, f), []) == Do(c, net, r1, f);
  }

  /** Pass n is cut short by a reset, segment m of its batch. */
  ghost predicate CutAt(c: Config, script: seq<Round>, n: nat, m: nat) {
    n < |script| && FirstReset(c, script[n].batch, m)
  }

  /** Where the call ends: after n whole passes it enters no other, sends all that is pending and
      closes its summary; or it enters one more and ends at its first reset, sending nothing. */
  ghost predicate EndsAfter(c: Config, net: nat -> bool, r: Run, script: seq<Round>, deadline: real, target: u32, finish: real,
                            evs: seq<Event>, n: nat, m: nat) {
    && WholePasses(c, net, r, script, deadline, target, n)
    && if Entered(c, net, r, script, deadline, target, n)
       then CutAt(c, script, n, m) && evs == Passes(script[..n]) + Arrives(script[n].batch[..m + 1])
       else evs == Passes(script[..n]) + [Flush(finish, true), End(target)]
  }

  lemma {:induction false} EndsLater(c: Config, net: nat -> bool, r: Run, script: seq<Round>, deadline: real, target: u32, finish: real,
                                     evs: seq<Event>, n: nat, m: nat)
    requires script != [] && Entered(c, net, r, script, deadline, target, 0) && NoReset(c, script[0].batch)
    requires EndsAfter(c, net, DoAll(c, net, r, Pass(script[0])), script[1..], deadline, target, finish, evs, n, m)
    ensures EndsAfter(c, net, r, script, deadline, target, finish, Pass(script[0]) + evs, n + 1, m)
  {
    WholeLater(c, net, r, script, deadline, target, n);
    EnteredLater(c, net, r, script, deadline, target, n);
    PassesCons(c, net, r, script, n);
  }

  lemma {:induction false} EnteredNow(c: Config, net: nat -> bool, r: Run, script: seq<Round>, deadline: real, target: u32)
    ensures Entered(c, net, r, script, deadline, target, 0) <==> !Over(c, r, script, deadline, target)
    ensures WholePasses(c, net, r, script, deadline, target, 0)
  {
    assert script[..0] == [] && DoAll(c, net, r, []) == r;
  }

  lemma {:induction false} EndsNow(c: Config, net: nat -> bool, r: Run, script: seq<Round>, deadline: real, target: u32, finish: real)
    requires Over(c, r, script, deadline, target)
    ensures EndsAfter(c, net, r, script, deadline, target, finish, Rounds(c, net, r, script, deadline, target, finish), 0, 0)
  {
    EnteredNow(c, net, r, script, deadline, target);
    assert Passes(script[..0]) == [];
  }

  lemma {:induction false} CutNow(c: Config, net: nat -> bool, r: Run, script: seq<Round>, deadline: real, target: u32, finish: real)
    returns (m: nat)
    requires !Over(c, r, script, deadline, target) && !NoReset(c, script[0].batch)
    ensures EndsAfter(c, net, r, script, deadline, target, finish, Rounds(c, net, r, script, deadline, target, finish), 0, m)
  {
    EnteredNow(c, net, r, script, deadline, target);
    assert Passes(script[..0]) == [];
    m := ThroughFirst(c, script[0].batch);
  }

  lemma {:induction false} PassThenRest(c: Config, net: nat -> bool, r: Run, script: seq<Round>, deadline: real, target: u32, finish: real)
    requires !Over(c, r, script, deadline, target) && NoReset(c, script[0].batch)
    ensures Rounds(c, net, r, script, deadline, target, finish) ==
            Pass(script[0]) + Rounds(c, net, DoAll(c, net, r, Pass(script[0])), script[1..], deadline, target, finish)
  {
    ThroughWhole(c, script[0].batch);
    PassRuns(c, net, r, script[0]);
  }

  /** The events of a call: whole passes while the deadline and the target allow, and the end. */
  lemma {:induction false} CallIsPasses(c: Config, net: nat -> bool, r: Run, script: seq<Round>, deadline: real, target: u32, finish: real)
    returns (n: nat, m: nat)
    ensures EndsAfter(c, net, r, script, deadline, target, finish, Rounds(c, net, r, script, deadline, target, finish), n, m)
    decreases |script|
  {
    n, m := 0, 0;
    if Over(c, r, script, deadline, target) {
      EndsNow(c, net, r, script, deadline, target, finish);
    } else if NoReset(c, script[0].batch) {
      var r' := DoAll(c, net, r, Pass(script[0]));
      n, m := CallIsPasses(c, net, r', script[1..], deadline, target, finish);
      EnteredNow(c, net, r, script, deadline, target);
      EndsLater(c, net, r, script, deadline, target, finish, Rounds(c, net, r', script[1..], deadline, target, finish), n, m);
      PassThenRest(c, net, r, script, deadline, target, finish);
      n := n + 1;
    } else {
      m := CutNow(c, net, r, script, deadline, target, finish);
    }
  }

  // -------------------------------------------------------------------- the whole summary

  /** None of the events is a reset or closes the summary. */
  ghost predicate Ongoing(c: Config, evs: seq<Event>) {
    forall i :: 0 <= i < |evs| ==> !IsReset(c, evs[i]) && !evs[i].End?
  }

  lemma OngoingConcat(c: Config, a: seq<Event>, b: seq<Event>)
    requires Ongoing(c, a) && Ongoing(c, b)
    ensures Ongoing(c, a + b)
  {
    forall i | 0 <= i < |a + b|
      ensures !IsReset(c, (a + b)[i]) && !(a + b)[i].End?
    {
      assert (a + b)[i] == if i < |a| then a[i] else b[i - |a|];
    }
  }

  lemma {:induction false} PassesOngoing(c: Config, script: seq<Round>)
    requires forall i :: 0 <= i < |script| ==> NoReset(c, script[i].batch)
    ensures Ongoing(c, Passes(script))
    decreases |script|
  {
    if script != [] {
      assert Ongoing(c, Arrives(script[0].batch));
      OngoingConcat(c, Arrives(script[0].batch), [Flush(script[0].flushAt, false)]);
      PassesOngoing(c, script[1..]);
      OngoingConcat(c, Pass(script[0]), Passes(script[1..]));
    }
  }

  ghost predicate NeverClosed(evs: seq<Event>) {
    forall i :: 0 <= i < |evs| ==> !evs[i].End?
  }

  /** A call that met a reset never closed its summary. */
  lemma {:induction false} ResetOrClosed(c: Config, net: nat -> bool, r: Run, script: seq<Round>, deadline: real, target: u32, finish: real)
    ensures var evs := Rounds(c, net, r, script, deadline, target, finish);
            SomeReset(c, evs) ==> NeverClosed(evs)
  {
    var evs := Rounds(c, net, r, script, deadline, target, finish);
    var n, m := CallIsPasses(c, net, r, script, deadline, target, finish);
    var whole := script[..n];
    assert forall i :: 0 <= i < n ==> whole[i] == script[i];
    PassesOngoing(c, whole);
    if Entered(c, net, r, script, deadline, target, n) {
      var last := Arrives(script[n].batch[..m + 1]);
      assert NeverClosed(last);
      assert forall i :: 0 <= i < |evs| ==> evs[i] == if i < |Passes(whole)| then Passes(whole)[i] else last[i - |Passes(whole)|];
    } else {
      var last := [Flush(finish, true), End(target)];
      assert forall i :: 0 <= i < |evs| ==> evs[i] == if i < |Passes(whole)| then Passes(whole)[i] else last[i - |Passes(whole)|];
      assert !SomeReset(c, evs);
    }
  }

  lemma UnclosedStep(c: Config, net: nat -> bool, r: Run, ev: Event)
    requires !ev.End? && !ev.Begin?
    ensures var s, s' := r.p.sum, Do(c, net, r, ev).p.sum; s'.delivered == s.delivered && s'.completed == s.completed
  {
    if ev.Flush? {
      FlushKeepsSeen(c, net, r, ev.now, ev.force);
    } else if ev.Arrive? {
      DataKeepsSeen(c, r.p, ev.a.seg.sq, Length(ev.a.seg), ev.a.t, ev.a.now);
    }
  }

  lemma {:induction false} NeverClosedKeeps(c: Config, net: nat -> bool, r: Run, evs: seq<Event>)
    requires NeverClosed(evs) && OneCall(evs)
    ensures var s, s' := r.p.sum, DoAll(c, net, r, evs).p.sum; s'.delivered == s.delivered && s'.completed == s.completed
    decreases |evs|
  {
    if evs != [] {
      assert !evs[0].End? && !evs[0].Begin?;
      UnclosedStep(c, net, r, evs[0]);
      NeverClosedKeeps(c, net, Do(c, net, r, evs[0]), evs[1..]);
    }
  }

  /** The flags, the target, the duplicate ACKs and the time of the first data that a call
      returns, whatever arrives; one that met a reset returns nothing delivered. */
  lemma {:induction false} CallSummary(c: Config, net: nat -> bool, r: Run, script: seq<Round>, deadline: real, target: u32, finish: real)
    requires Inv(c, r) && ShortScript(script)
    ensures var begun := r.(p := Begun(r.p, target, r.p.policy));
            var evs := Rounds(c, net, begun, script, deadline, target, finish);
            var after := Call(c, net, begun, script, deadline, target, finish);
            var s, ts := after.p.sum, TakenTimes(c, net, begun, evs);
            && s.wanted == target && (s.sawRst <==> SomeReset(c, evs)) && (s.sawFin <==> SomeEnd(c, evs))
            && |r.h.left| <= |after.h.left| && s.dupAcks == Repeated(c.dataIsn, after.h.queued, after.h.left[|r.h.left|..])
            && (SinceOrigin(c, evs) ==> s.firstData == if ts == [] then -1.0 else ts[0])
            && (s.sawRst ==> s.delivered == 0 && !s.completed)
  {
    var begun := r.(p := Begun(r.p, target, r.p.policy));
    var evs := Rounds(c, net, begun, script, deadline, target, finish);
    RoundsPlain(c, net, begun, script, deadline, target, finish);
    CallBooks(c, net, begun, evs, begun.p);
    SeenExactly(c, net, begun, evs);
    CallDupAcks(c, net, begun, evs, |r.h.left|);
    if SinceOrigin(c, evs) {
      FirstDataIs(c, net, begun, evs);
    }
    ResetOrClosed(c, net, begun, script, deadline, target, finish);
    if SomeReset(c, evs) {
      NeverClosedKeeps(c, net, begun, evs);
    }
  }

  /** The time of the last original and the retransmissions that a call returns. */
  lemma {:induction false} CallOriginals(c: Config, net: nat -> bool, r: Run, script: seq<Round>, deadline: real, target: u32, finish: real, v: Sight)
    requires ShortScript(script) && r.p.maxEnd == Wrap(v.top)
    requires var begun := r.(p := Begun(r.p, target, r.p.policy));
             AllInReach(c, net, begun, Rounds(c, net, begun, script, deadline, target, finish), v)
    ensures var begun := r.(p := Begun(r.p, target, r.p.policy));
            var evs := Rounds(c, net, begun, script, deadline, target, finish);
            var s := Call(c, net, begun, script, deadline, target, finish).p.sum;
            s.lastOriginal == LastTaken(c, net, begun, evs, v, -1.0) && s.retransmits == AgainAll(c, net, begun, evs, v)
  {
    var begun := r.(p := Begun(r.p, target, r.p.policy));
    var evs := Rounds(c, net, begun, script, deadline, target, finish);
    RoundsPlain(c, net, begun, script, deadline, target, finish);
    LastOriginalIs(c, net, begun, evs, v);
    RetransmitsAre(c, net, begun, evs, v);
  }

  /** The segment was parsed from some frame. */
  ghost predicate Parsed(a: Arrival) {
    exists f: seq<Checksum.byte> :: Packets.Parse(f) == Options.Some(a.seg)
  }

  ghost predicate FromFrames(script: seq<Round>) {
    forall i, j :: 0 <= i < |script| && 0 <= j < |script[i].batch| ==> Parsed(script[i].batch[j])
  }

  /** Whatever frames arrive, the segments parsed from them are short enough for every theorem
      about calls. */
  lemma FramesAreShort(script: seq<Round>)
    requires FromFrames(script)
    ensures ShortScript(script)
  {
    forall i, j | 0 <= i < |script| && 0 <= j < |script[i].batch|
      ensures |script[i].batch[j].seg.payload| < HALF
    {
      assert Parsed(script[i].batch[j]);
      var f: seq<Checksum.byte> :| Packets.Parse(f) == Options.Some(script[i].batch[j].seg);
      Packets.ParsedIsShort(f);
    }
  }
}
