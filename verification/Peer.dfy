/** The peer as an object: the receive loop with its drop, accept, acknowledge and hole
    bookkeeping, proved step for step against the state machine. */
module Peers {
  import opened SeqSpace
  import opened Wire
  import opened Reassembling
  import opened LossPolicies
  import opened PeerModel

  /** One pass of the receive loop: the clock at the loop test, the segments drained, and the
      clock when due ACKs are flushed. */
  datatype Round = Round(now: real, batch: seq<Arrival>, flushAt: real)

  // ------------------------------------------------------- the events of one receive call

  /** The batch through its first reset of this connection. */
  function ThroughRst(c: Config, batch: seq<Arrival>): seq<Event> {
    if batch == [] then []
    else if StopsAt(c, batch[0]) then [Arrive(batch[0])]
    else [Arrive(batch[0])] + ThroughRst(c, batch[1..])
  }

  predicate StopsAt(c: Config, a: Arrival) {
    Ours(c, a.seg) && HasRst(a.seg)
  }

  predicate Stops(c: Config, batch: seq<Arrival>) {
    exists i :: 0 <= i < |batch| && StopsAt(c, batch[i])
  }

  /** After the loop everything pending is sent and the summary closed. */
  function Finish(finish: real, target: u32): seq<Event> {
    [Flush(finish, true), End(target)]
  }

  /** The loop is over: no more input, the deadline or the target reached. */
  predicate Over(c: Config, r: Run, script: seq<Round>, deadline: real, target: u32) {
    script == [] || script[0].now >= deadline || Delivered(c, r.p) >= target
  }

  /** What the call does from state r on. A reset ends it at once, with nothing flushed. */
  function Rounds(c: Config, net: nat -> bool, r: Run, script: seq<Round>, deadline: real, target: u32, finish: real): seq<Event>
    decreases |script|
  {
    if Over(c, r, script, deadline, target) then Finish(finish, target)
    else
      var b := ThroughRst(c, script[0].batch);
      if Stops(c, script[0].batch) then b
      else
        var f := Flush(script[0].flushAt, false);
        var r' := Do(c, net, DoAll(c, net, r, b), f);
        b + ([f] + Rounds(c, net, r', script[1..], deadline, target, finish))
  }

  /** The state the call ends in. */
  function Call(c: Config, net: nat -> bool, r: Run, script: seq<Round>, deadline: real, target: u32, finish: real): Run {
    DoAll(c, net, r, Rounds(c, net, r, script, deadline, target, finish))
  }

  /** One round of the loop, and then the rest. */
  lemma {:induction false} RoundThenRest(c: Config, net: nat -> bool, r: Run, script: seq<Round>, deadline: real, target: u32, finish: real)
    requires !Over(c, r, script, deadline, target) && !Stops(c, script[0].batch)
    ensures var r' := Do(c, net, DoAll(c, net, r, ThroughRst(c, script[0].batch)), Flush(script[0].flushAt, false));
            Call(c, net, r, script, deadline, target, finish) == Call(c, net, r', script[1..], deadline, target, finish)
  {
    var b, f := ThroughRst(c, script[0].batch), Flush(script[0].flushAt, false);
    var r1 := DoAll(c, net, r, b);
    var r' := Do(c, net, r1, f);
    var rest := Rounds(c, net, r', script[1..], deadline, target, finish);
    DoAllConcat(c, net, r, b, [f] + rest);
    assert ([f] + rest)[1..] == rest;
  }

  lemma {:induction false} RoundStops(c: Config, net: nat -> bool, r: Run, script: seq<Round>, deadline: real, target: u32, finish: real)
    requires !Over(c, r, script, deadline, target) && Stops(c, script[0].batch)
    ensures Call(c, net, r, script, deadline, target, finish) == DoAll(c, net, r, ThroughRst(c, script[0].batch))
  {
  }

  lemma {:induction false} LoopOver(c: Config, net: nat -> bool, r: Run, script: seq<Round>, deadline: real, target: u32, finish: real)
    requires Over(c, r, script, deadline, target)
    ensures Call(c, net, r, script, deadline, target, finish) == DoAll(c, net, r, Finish(finish, target))
  {
  }

  /** One segment of a batch, and then the rest. */
  lemma {:induction false} SegmentThenRest(c: Config, net: nat -> bool, r: Run, batch: seq<Arrival>, i: nat)
    requires i < |batch|
    ensures var r' := Do(c, net, r, Arrive(batch[i]));
            DoAll(c, net, r, ThroughRst(c, batch[i..])) ==
            if StopsAt(c, batch[i]) then r' else DoAll(c, net, r', ThroughRst(c, batch[i + 1..]))
  {
    var a, rest := batch[i], ThroughRst(c, batch[i + 1..]);
    assert batch[i..][0] == a && batch[i..][1..] == batch[i + 1..];
    assert [Arrive(a)][1..] == [] && ([Arrive(a)] + rest)[1..] == rest;
  }

  class Peer {
    const c: Config
    const rsm: Reassembly
    var maxEnd: u32
    var pending: seq<Pending>
    var attempts: nat
    var wire: seq<Seg>
    var hole: Hole
    var sum: Summary
    ghost var past: Past

    /** The connection as the handshake leaves it. */
    constructor (c: Config)
      ensures this.c == c && fresh(rsm) && rsm.isn == c.dataIsn
      ensures past == Start(c).h && Fields() == Start(c).p.(policy := Fields().policy)
    {
      this.c := c;
      rsm := new Reassembly(c.dataIsn);
      maxEnd, pending, attempts, wire := c.dataIsn, [], 0, [];
      hole, sum := Hole(false, 0), NoSummary(0);
      past := Start(c).h;
    }

    function Fields(): PeerState
      reads this, rsm
    {
      PeerState(rsm.State(), maxEnd, pending, attempts, wire, Policy([], 0), hole, sum)
    }

    function State(loss: LossPolicy): PeerState
      reads this, rsm, loss
    {
      PeerState(rsm.State(), maxEnd, pending, attempts, wire, loss.State(), hole, sum)
    }

    ghost function Now(loss: LossPolicy): Run
      reads this, rsm, loss
    {
      Run(State(loss), past)
    }

    method QueueAck(now: real, ack: u32, sacks: seq<SeqRange>, isDup: bool)
      modifies this`pending
      ensures pending == old(pending) + [Pending(now + c.ackDelay, ack, sacks, isDup)]
    {
      pending := pending + [Pending(now + c.ackDelay, ack, sacks, isDup)];
    }

    /** Sends the front of the queue; ok is the outcome of the write. */
    method SendFront(ok: bool, ghost loss: LossPolicy)
      requires pending != []
      modifies this
      ensures Now(loss) == Sent(c, old(Now(loss)), ok)
    {
      var a := pending[0];
      pending := pending[1..];
      var seg := AckSeg(c, a.ack, a.sacks);
      if ok {
        wire := wire + [seg];
        past := past.(left := past.left + [attempts]);
        sum := sum.(acks := sum.acks + 1, dupAcks := sum.dupAcks + if a.isDup then 1 else 0);
      } else {
        sum := sum.(failures := sum.failures + 1);
      }
      attempts := attempts + 1;
    }

    method FlushAcks(net: nat -> bool, now: real, force: bool, ghost loss: LossPolicy)
      modifies this
      ensures Now(loss) == Flushed(c, net, old(Now(loss)), now, force)
    {
      while pending != [] && (force || pending[0].due <= now)
        invariant Flushed(c, net, Now(loss), now, force) == Flushed(c, net, old(Now(loss)), now, force)
        decreases |pending|
      {
        SendFront(net(attempts), loss);
      }
    }

    /** A segment the policy discards: no ACK at all. */
    method OnDropped(sq: u32, len: u32, t: real, ghost was: PeerState, loss: LossPolicy)
      requires Rel(c, sq) >= 0 && State(loss) == was.(policy := Judged(was.policy, Rel(c, sq), len))
      modifies this
      ensures State(loss) == DropSegment(c, was, sq, len, t)
      ensures past == Missed(old(past), was.hole.open, sq, len)
    {
      past := Missed(past, hole.open, sq, len);
      sum := sum.(dropped := sum.dropped + 1);
      if !hole.open {
        hole := Hole(true, Wrap(sq + len));
        sum := sum.(holeCreated := t - c.t0);
      }
    }

    /** A segment the receiver takes: it is acknowledged, and may fill the hole. */
    method OnTaken(sq: u32, len: u32, t: real, now: real, rexmt: bool, ghost loss: LossPolicy)
      modifies this, rsm
      ensures State(loss) == TakeSegment(c, old(State(loss)), sq, len, t, now, rexmt)
      ensures past == Took(old(past), sq, len, now)
    {
      var moved := rsm.Accept(sq, len, t);
      MarkArrival(t, rexmt);
      var blocks := rsm.Blocks(MAX_SACKS);
      QueueAck(now, rsm.rcvNxt, blocks, !moved);
      CloseHole(t);
      past := Took(past, sq, len, now);
    }

    method MarkArrival(t: real, rexmt: bool)
      modifies this`sum
      ensures sum == Arrived(c, old(sum), t, rexmt)
    {
      if sum.firstData < 0.0 {
        sum := sum.(firstData := t - c.t0);
      }
      if !rexmt {
        sum := sum.(lastOriginal := t - c.t0);
      }
    }

    method CloseHole(t: real)
      modifies this`hole, this`sum
      ensures hole == if Closes(old(hole), rsm.State()) then old(hole).(open := false) else old(hole)
      ensures sum == if Closes(old(hole), rsm.State()) then Filled(c, old(sum), t) else old(sum)
    {
      if hole.open && SeqGeq(rsm.rcvNxt, hole.end) {
        hole := hole.(open := false);
        sum := sum.(holeFilled := t - c.t0);
        sum := sum.(holDelay := sum.holeFilled - sum.holeCreated);
      }
    }

    method OnData(sq: u32, len: u32, t: real, now: real, loss: LossPolicy)
      modifies this, rsm, loss
      ensures State(loss) == Data(c, old(State(loss)), sq, len, t, now)
      ensures past == if Lost(c, old(State(loss)), sq, len) then Missed(old(past), old(hole.open), sq, len)
                      else Took(old(past), sq, len, now)
    {
      var rel := Diff(sq, c.dataIsn);
      var rexmt := SeqLt(sq, maxEnd);
      var end := Wrap(sq + len);
      if SeqGt(end, maxEnd) {
        maxEnd := end;
      }
      if rexmt {
        sum := sum.(retransmits := sum.retransmits + [Retransmit(t - c.t0, rel, len)]);
      }
      ghost var noted := State(loss);
      assert noted == Note(c, old(State(loss)), sq, len, t);
      var dropped := false;
      if rel >= 0 {
        dropped := loss.Drop(rel, len);
      }
      if dropped {
        OnDropped(sq, len, t, noted, loss);
      } else {
        OnTaken(sq, len, t, now, rexmt, loss);
      }
    }

    /** One drained segment; true if it resets the connection. */
    method OnSegment(net: nat -> bool, a: Arrival, loss: LossPolicy) returns (stop: bool)
      modifies this, rsm, loss
      ensures Now(loss) == Do(c, net, old(Now(loss)), Arrive(a))
      ensures stop <==> StopsAt(c, a)
    {
      stop := false;
      var s := a.seg;
      if s.dport != c.sport || s.sport != c.dport {
        return;
      }
      if HasRst(s) {
        sum := sum.(sawRst := true);
        return true;
      }
      var len := Length(s);
      if len > 0 {
        OnData(s.sq, len, a.t, a.now, loss);
      } else if HasFin(s) {
        sum := sum.(sawFin := true);
      }
    }

    /** The drained batch, in order, until a reset. */
    method OnBatch(net: nat -> bool, batch: seq<Arrival>, loss: LossPolicy) returns (stop: bool)
      modifies this, rsm, loss
      ensures Now(loss) == DoAll(c, net, old(Now(loss)), ThroughRst(c, batch))
      ensures stop == Stops(c, batch)
    {
      stop := false;
      for i := 0 to |batch|
        invariant DoAll(c, net, Now(loss), ThroughRst(c, batch[i..])) == DoAll(c, net, old(Now(loss)), ThroughRst(c, batch))
        invariant !stop && forall j :: 0 <= j < i ==> !StopsAt(c, batch[j])
      {
        SegmentThenRest(c, net, Now(loss), batch, i);
        stop := OnSegment(net, batch[i], loss);
        if stop {
          return;
        }
      }
    }

    method OneRound(net: nat -> bool, round: Round, loss: LossPolicy) returns (stop: bool)
      modifies this, rsm, loss
      ensures stop == Stops(c, round.batch)
      ensures var r := DoAll(c, net, old(Now(loss)), ThroughRst(c, round.batch));
              Now(loss) == if stop then r else Do(c, net, r, Flush(round.flushAt, false))
    {
      stop := OnBatch(net, round.batch, loss);
      if !stop {
        FlushAcks(net, round.flushAt, false, loss);
      }
    }

    /** The loop; true if the connection was reset. */
    method ReceiveLoop(net: nat -> bool, target: u32, deadline: real, script: seq<Round>, ghost finish: real, loss: LossPolicy)
      returns (reset: bool)
      requires rsm.isn == c.dataIsn
      modifies this, rsm, loss
      ensures Call(c, net, old(Now(loss)), script, deadline, target, finish) ==
              if reset then Now(loss) else DoAll(c, net, Now(loss), Finish(finish, target))
    {
      reset := false;
      var i := 0;
      while i < |script| && script[i].now < deadline && rsm.Delivered() < target
        invariant i <= |script|
        invariant Call(c, net, Now(loss), script[i..], deadline, target, finish) ==
                  Call(c, net, old(Now(loss)), script, deadline, target, finish)
      {
        ghost var r, rest := Now(loss), script[i..];
        assert !Over(c, r, rest, deadline, target) && rest[1..] == script[i + 1..];
        reset := OneRound(net, script[i], loss);
        if reset {
          RoundStops(c, net, r, rest, deadline, target, finish);
          return;
        }
        RoundThenRest(c, net, r, rest, deadline, target, finish);
        i := i + 1;
      }
      LoopOver(c, net, Now(loss), script[i..], deadline, target, finish);
    }

    /** Receives until the delivered count reaches the target, the deadline passes or the
        connection is reset. */
    method Receive(net: nat -> bool, target: u32, started: real, timeout: real, script: seq<Round>, finish: real, loss: LossPolicy)
      returns (summary: Summary)
      requires rsm.isn == c.dataIsn
      modifies this, rsm, loss
      ensures var r := Do(c, net, old(Now(loss)), Begin(target, old(loss.State())));
              Now(loss) == Call(c, net, r, script, started + timeout, target, finish)
      ensures summary == sum
    {
      hole, sum := Hole(false, 0), NoSummary(target);
      var reset := ReceiveLoop(net, target, started + timeout, script, finish, loss);
      if !reset {
        FinishCall(net, target, finish, loss);
      }
      summary := sum;
    }

    method FinishCall(net: nat -> bool, target: u32, finish: real, ghost loss: LossPolicy)
      requires rsm.isn == c.dataIsn
      modifies this
      ensures Now(loss) == DoAll(c, net, old(Now(loss)), Finish(finish, target))
    {
      FlushAcks(net, finish, true, loss);
      sum := sum.(delivered := rsm.Delivered(), completed := rsm.Delivered() >= target);
      FinishIs(c, net, old(Now(loss)), finish, target);
    }
  }

  lemma {:induction false} FinishIs(c: Config, net: nat -> bool, r: Run, finish: real, target: u32)
    ensures DoAll(c, net, r, Finish(finish, target)) == Do(c, net, Do(c, net, r, Flush(finish, true)), End(target))
  {
    var evs := Finish(finish, target);
    assert evs[1..] == [End(target)] && [End(target)][1..] == [];
    var r1 := Do(c, net, r, Flush(finish, true));
    assert DoAll(c, net, r, evs) == DoAll(c, net, r1, [End(target)]);
    assert DoAll(c, net, r1, [End(target)]) == DoAll(c, net, Do(c, net, r1, End(target)), []);
  }
}
