/** The synthetic peer as a state machine: every arriving segment is dropped by the policy or
    taken by the receiver, every taken one queues an ACK, and flushing sends the queue in
    order. Beside the state runs its past, in true stream offsets, which no step reads. */
module PeerModel {
  import opened Options
  import opened SeqSpace
  import opened ByteStream
  import opened Checksum
  import opened Wire
  import opened Reassembling
  import opened LossPolicies

  const TH_ACK: byte := 0x10
  const MAX_SACKS: nat := 4

  datatype Config = Config(
    sport: u16, dport: u16, win: u16, offerSack: bool, sendSackBlocks: bool,
    ackDelay: real, snd: u32, dataIsn: u32, t0: real)

  /** A segment, when it was observed, and the clock when its ACK is queued. */
  datatype Arrival = Arrival(seg: Seg, t: real, now: real)

  datatype Pending = Pending(due: real, ack: u32, sacks: seq<SeqRange>, isDup: bool)

  datatype Hole = Hole(open: bool, end: u32)

  datatype Retransmit = Retransmit(t: real, rel: int, len: u32)

  datatype Summary = Summary(
    wanted: u32, delivered: u32, completed: bool,
    firstData: real, lastOriginal: real, holeCreated: real, holeFilled: real, holDelay: real,
    dupAcks: nat, acks: nat, dropped: nat, failures: nat,
    retransmits: seq<Retransmit>, sawRst: bool, sawFin: bool)

  datatype PeerState = PeerState(
    rx: Receiver, maxEnd: u32, pending: seq<Pending>, attempts: nat, wire: seq<Seg>,
    policy: Policy, hole: Hole, sum: Summary)

  /** The receiver when an ACK was queued, how many segments it had accepted, and the clock. */
  datatype Queued = Queued(stream: Stream, n: nat, at: real)

  /** The past: the stream in true offsets, the accepted segments, the frontier after every
      advance, what was queued, which of it left successfully, and the end of the last hole. */
  datatype Past = Past(
    stream: Stream, accepted: seq<Segment>, frontiers: seq<int>,
    queued: seq<Queued>, left: seq<nat>, holeAt: int)

  datatype Run = Run(p: PeerState, h: Past)

  function NoSummary(target: u32): Summary {
    Summary(target, 0, false, -1.0, -1.0, -1.0, -1.0, -1.0, 0, 0, 0, 0, [], false, false)
  }

  // ------------------------------------------------------------------- one segment

  predicate Ours(c: Config, s: Seg) {
    s.dport == c.sport && s.sport == c.dport
  }

  predicate HasRst(s: Seg) {
    s.flags / 4 % 2 == 1
  }

  predicate HasFin(s: Seg) {
    s.flags % 2 == 1
  }

  /** Offset from the first data byte, read as a signed 32-bit number. */
  function Rel(c: Config, sq: u32): int {
    Diff(sq, c.dataIsn)
  }

  predicate Lost(c: Config, p: PeerState, sq: u32, len: u32) {
    Rel(c, sq) >= 0 && Drops(p.policy, Rel(c, sq), len)
  }

  /** The retransmission bookkeeping every data segment goes through first. */
  function Note(c: Config, p: PeerState, sq: u32, len: u32, t: real): PeerState {
    var end := Wrap(sq + len);
    p.(maxEnd := if SeqGt(end, p.maxEnd) then end else p.maxEnd,
       sum := if SeqLt(sq, p.maxEnd)
              then p.sum.(retransmits := p.sum.retransmits + [Retransmit(t - c.t0, Rel(c, sq), len)])
              else p.sum)
  }

  function DropSegment(c: Config, p: PeerState, sq: u32, len: u32, t: real): PeerState
    requires Rel(c, sq) >= 0
  {
    var s := p.sum.(dropped := p.sum.dropped + 1);
    p.(policy := Judged(p.policy, Rel(c, sq), len),
       hole := if p.hole.open then p.hole else Hole(true, Wrap(sq + len)),
       sum := if p.hole.open then s else s.(holeCreated := t - c.t0))
  }

  function AckFor(c: Config, rx: Receiver, now: real, moved: bool): Pending {
    Pending(now + c.ackDelay, rx.core.rcvNxt, SackBlocks(rx.core.held, MAX_SACKS), !moved)
  }

  function Arrived(c: Config, s: Summary, t: real, rexmt: bool): Summary {
    s.(firstData := if s.firstData < 0.0 then t - c.t0 else s.firstData,
       lastOriginal := if rexmt then s.lastOriginal else t - c.t0)
  }

  predicate Closes(hole: Hole, rx: Receiver) {
    hole.open && SeqGeq(rx.core.rcvNxt, hole.end)
  }

  function Filled(c: Config, s: Summary, t: real): Summary {
    s.(holeFilled := t - c.t0, holDelay := t - c.t0 - s.holeCreated)
  }

  function TakeSegment(c: Config, p: PeerState, sq: u32, len: u32, t: real, now: real, rexmt: bool): PeerState {
    var rx := Received(p.rx, sq, len, t);
    var s := Arrived(c, p.sum, t, rexmt);
    p.(rx := rx,
       pending := p.pending + [AckFor(c, rx, now, rx.core.rcvNxt != p.rx.core.rcvNxt)],
       hole := if Closes(p.hole, rx) then p.hole.(open := false) else p.hole,
       sum := if Closes(p.hole, rx) then Filled(c, s, t) else s)
  }

  function Data(c: Config, p: PeerState, sq: u32, len: u32, t: real, now: real): PeerState {
    var q := Note(c, p, sq, len, t);
    if Lost(c, p, sq, len) then DropSegment(c, q, sq, len, t)
    else TakeSegment(c, q, sq, len, t, now, SeqLt(sq, p.maxEnd))
  }

  function Length(s: Seg): u32 {
    Wrap(|s.payload|)
  }

  function Step(c: Config, p: PeerState, a: Arrival): PeerState {
    if !Ours(c, a.seg) then p
    else if HasRst(a.seg) then p.(sum := p.sum.(sawRst := true))
    else if Length(a.seg) > 0 then Data(c, p, a.seg.sq, Length(a.seg), a.t, a.now)
    else if HasFin(a.seg) then p.(sum := p.sum.(sawFin := true))
    else p
  }

  /** A segment that reaches the receiver or the policy. */
  predicate CarriesData(c: Config, s: Seg) {
    Ours(c, s) && !HasRst(s) && Length(s) > 0
  }

  // ----------------------------------------------------------------------- the past

  /** The stream after a segment that reads sq. */
  function Next(s: Stream, sq: u32, len: u32): Stream {
    Play(s, Brought(s, sq, len))
  }

  function Took(h: Past, sq: u32, len: u32, now: real): Past {
    var b := Brought(h.stream, sq, len);
    var s := Next(h.stream, sq, len);
    h.(stream := s, accepted := h.accepted + b,
       frontiers := if s.nxt != h.stream.nxt then h.frontiers + [s.nxt] else h.frontiers,
       queued := h.queued + [Queued(s, |h.accepted + b|, now)])
  }

  function Missed(h: Past, open: bool, sq: u32, len: u32): Past {
    if open then h else h.(holeAt := Unwrap(h.stream.nxt, sq) + len)
  }

  function Remember(c: Config, p: PeerState, h: Past, a: Arrival): Past {
    if !CarriesData(c, a.seg) then h
    else if Lost(c, p, a.seg.sq, Length(a.seg)) then Missed(h, p.hole.open, a.seg.sq, Length(a.seg))
    else Took(h, a.seg.sq, Length(a.seg), a.now)
  }

  // ----------------------------------------------------------------------- flushing

  /** The ACK segment for a queued acknowledgement. */
  function AckSeg(c: Config, ack: u32, sacks: seq<SeqRange>): Seg {
    Seg(c.sport, c.dport, c.snd, ack, TH_ACK, c.win,
        TcpOptions(None, false, if c.offerSack && c.sendSackBlocks then sacks else [], None), [])
  }

  function Sent(c: Config, r: Run, ok: bool): Run
    requires r.p.pending != []
  {
    var p, h, a := r.p, r.h, r.p.pending[0];
    var q := p.(pending := p.pending[1..], attempts := p.attempts + 1);
    if ok then
      Run(q.(wire := p.wire + [AckSeg(c, a.ack, a.sacks)],
             sum := p.sum.(acks := p.sum.acks + 1, dupAcks := p.sum.dupAcks + if a.isDup then 1 else 0)),
          h.(left := h.left + [p.attempts]))
    else Run(q.(sum := p.sum.(failures := p.sum.failures + 1)), h)
  }

  predicate Due(p: PeerState, now: real, force: bool) {
    p.pending != [] && (force || p.pending[0].due <= now)
  }

  /** Sends from the front while due; net says which attempts succeed. */
  function Flushed(c: Config, net: nat -> bool, r: Run, now: real, force: bool): Run
    decreases |r.p.pending|
  {
    if Due(r.p, now, force) then Flushed(c, net, Sent(c, r, net(r.p.attempts)), now, force) else r
  }

  // ------------------------------------------------------------------------- events

  datatype Event = Begin(target: u32, policy: Policy) | Arrive(a: Arrival) | Flush(now: real, force: bool) | End(goal: u32)

  function Delivered(c: Config, p: PeerState): u32 {
    Wrap(p.rx.core.rcvNxt - c.dataIsn)
  }

  function Begun(p: PeerState, target: u32, policy: Policy): PeerState {
    p.(policy := policy, hole := Hole(false, 0), sum := NoSummary(target))
  }

  function Ended(c: Config, p: PeerState, goal: u32): PeerState {
    p.(sum := p.sum.(delivered := Delivered(c, p), completed := Delivered(c, p) >= goal))
  }

  function Do(c: Config, net: nat -> bool, r: Run, e: Event): Run {
    match e
    case Begin(target, policy) => r.(p := Begun(r.p, target, policy))
    case Arrive(a) => Run(Step(c, r.p, a), Remember(c, r.p, r.h, a))
    case Flush(now, force) => Flushed(c, net, r, now, force)
    case End(goal) => r.(p := Ended(c, r.p, goal))
  }

  function DoAll(c: Config, net: nat -> bool, r: Run, evs: seq<Event>): Run
    decreases |evs|
  {
    if evs == [] then r else DoAll(c, net, Do(c, net, r, evs[0]), evs[1..])
  }

  lemma {:induction false} DoAllConcat(c: Config, net: nat -> bool, r: Run, u: seq<Event>, v: seq<Event>)
    ensures DoAll(c, net, r, u + v) == DoAll(c, net, DoAll(c, net, r, u), v)
    decreases |u|
  {
    if u == [] {
      assert u + v == v;
    } else {
      assert (u + v)[1..] == u[1..] + v;
      DoAllConcat(c, net, Do(c, net, r, u[0]), u[1..], v);
    }
  }

  /** Payloads shorter than 2^31 bytes, as every parsed frame has. */
  ghost predicate Short(e: Event) {
    e.Arrive? ==> |e.a.seg.payload| < HALF
  }

  ghost predicate AllShort(evs: seq<Event>) {
    forall i :: 0 <= i < |evs| ==> Short(evs[i])
  }

  /** The established connection before its first call. */
  function Start(c: Config): Run {
    Run(PeerState(Receiver(Core(c.dataIsn, []), [], 0, 0), c.dataIsn, [], 0, [], Policy([], 0), Hole(false, 0), NoSummary(0)),
        Past(Fresh(c.dataIsn), [], [], [], [], 0))
  }

  // --------------------------------------------------------------- the receiver invariant

  ghost function AcceptedBytes(h: Past): iset<int> {
    Covered(h.accepted)
  }

  /** The logged frontiers climb from base to top, each step less than 2^31. */
  ghost predicate LogClimbs(frontiers: seq<int>, base: int, top: int) {
    if frontiers == [] then top == base
    else
      && base < frontiers[0] < base + HALF && Climbs(frontiers) && frontiers[|frontiers| - 1] == top
  }

  ghost predicate RxOk(c: Config, rx: Receiver, h: Past) {
    RxStands(c.dataIsn, rx, h.stream, h.accepted, h.frontiers)
  }

  /** The receiver is the 32-bit image of the stream the accepted bytes determine, and its log
      the image of the frontiers. */
  ghost predicate RxStands(base: int, rx: Receiver, s: Stream, accepted: seq<Segment>, frontiers: seq<int>) {
    && rx.core == Encode(s) && Good(base, Covered(accepted), s)
    && LogOf(rx.advances, frontiers) && LogClimbs(frontiers, base, s.nxt)
  }

  /** Taking any segment keeps the receiver on the accepted bytes. */
  lemma TookRx(c: Config, rx: Receiver, h: Past, sq: u32, len: u32, t: real, now: real)
    requires RxOk(c, rx, h) && 0 < len < HALF
    ensures RxOk(c, Received(rx, sq, len, t), Took(h, sq, len, now))
    ensures h.stream.nxt <= Next(h.stream, sq, len).nxt < h.stream.nxt + HALF
    ensures Received(rx, sq, len, t).core.rcvNxt != rx.core.rcvNxt <==> Next(h.stream, sq, len).nxt != h.stream.nxt
  {
    var b := Brought(h.stream, sq, len);
    var s := Next(h.stream, sq, len);
    AcceptAny(c.dataIsn, AcceptedBytes(h), h.stream, sq, len);
    CoveredConcat(h.accepted, b);
    SameFrontier(h.stream.nxt, s.nxt);
    assert Received(rx, sq, len, t).core == Accept32(rx.core, sq, len);
    TookLog(c, rx, h, sq, len, t, now, s);
  }

  lemma SameFrontier(f: int, g: int)
    requires f <= g < f + HALF
    ensures Wrap(g) == Wrap(f) <==> g == f
  {
    DiffInWindow(g, f);
    SmallWrap(0);
  }

  lemma TookLog(c: Config, rx: Receiver, h: Past, sq: u32, len: u32, t: real, now: real, s: Stream)
    requires RxOk(c, rx, h) && 0 < len && s == Next(h.stream, sq, len)
    requires Accept32(rx.core, sq, len) == Encode(s) && h.stream.nxt <= s.nxt < h.stream.nxt + HALF
    requires Wrap(s.nxt) == Wrap(h.stream.nxt) <==> s.nxt == h.stream.nxt
    ensures LogOf(Received(rx, sq, len, t).advances, Took(h, sq, len, now).frontiers)
    ensures LogClimbs(Took(h, sq, len, now).frontiers, c.dataIsn, s.nxt)
  {
    if s.nxt != h.stream.nxt {
      LogGrows(h.frontiers, c.dataIsn, h.stream.nxt, s.nxt);
    }
  }

  lemma LogGrows(frontiers: seq<int>, base: int, top: int, next: int)
    requires LogClimbs(frontiers, base, top) && top < next < top + HALF
    ensures LogClimbs(frontiers + [next], base, next)
  {
    var f := frontiers + [next];
    forall i | 0 < i < |f|
      ensures f[i - 1] < f[i] < f[i - 1] + HALF
    {
      if i < |frontiers| {
        assert frontiers[i - 1] < frontiers[i];
      }
    }
  }

  // ------------------------------------------------------------------ the queue invariant

  /** The receiver stood on exactly the first n accepted segments. */
  ghost predicate Known(base: int, accepted: seq<Segment>, q: Queued) {
    q.n <= |accepted| && Good(base, Covered(accepted[..q.n]), q.stream)
  }

  ghost predicate AllKnown(base: int, accepted: seq<Segment>, queued: seq<Queued>) {
    forall i :: 0 <= i < |queued| ==> Known(base, accepted, queued[i])
  }

  ghost predicate Ordered(queued: seq<Queued>, top: int) {
    && (forall i, j :: 0 <= i < j < |queued| ==> queued[i].stream.nxt <= queued[j].stream.nxt)
    && (forall i :: 0 <= i < |queued| ==> queued[i].stream.nxt <= top)
  }

  /** The frontier before the j-th ACK was queued: the one told last, or the first byte. */
  function Before(base: int, queued: seq<Queued>, j: nat): int {
    if 0 < j <= |queued| then queued[j - 1].stream.nxt else base
  }

  /** The j-th ACK repeats the number told last. */
  predicate Repeats(base: int, queued: seq<Queued>, j: nat) {
    j < |queued| && queued[j].stream.nxt == Before(base, queued, j)
  }

  /** The acknowledgement says what the receiver held, whether that repeats the last one, and
      falls due the configured delay after it was queued. */
  ghost predicate Tells(c: Config, a: Pending, queued: seq<Queued>, j: nat) {
    && j < |queued| && a.ack == Wrap(queued[j].stream.nxt) && a.sacks == SackBlocks(EncodeAll(queued[j].stream.held), MAX_SACKS)
    && (a.isDup <==> Repeats(c.dataIsn, queued, j)) && a.due == queued[j].at + c.ackDelay
  }

  /** What is pending is the tail of what was queued, in order. */
  ghost predicate PendingOk(c: Config, pending: seq<Pending>, attempts: nat, queued: seq<Queued>) {
    && attempts + |pending| == |queued|
    && forall i :: 0 <= i < |pending| ==> Tells(c, pending[i], queued, attempts + i)
  }

  /** The ACK a receiver in that state calls for. */
  function AckOf(c: Config, s: Stream): Seg {
    AckSeg(c, Wrap(s.nxt), SackBlocks(EncodeAll(s.held), MAX_SACKS))
  }

  /** What left is, in queueing order, the ACK of a queued state each. */
  ghost predicate WireOk(c: Config, wire: seq<Seg>, left: seq<nat>, attempts: nat, queued: seq<Queued>) {
    && |wire| == |left| && attempts <= |queued|
    && (forall k :: 0 <= k < |left| ==> left[k] < attempts && wire[k] == AckOf(c, queued[left[k]].stream))
    && (forall k, l :: 0 <= k < l < |left| ==> left[k] < left[l])
  }

  ghost predicate QueueOk(c: Config, p: PeerState, h: Past) {
    && AllKnown(c.dataIsn, h.accepted, h.queued)
    && Ordered(h.queued, h.stream.nxt) && h.stream.nxt == Before(c.dataIsn, h.queued, |h.queued|)
    && PendingOk(c, p.pending, p.attempts, h.queued)
    && WireOk(c, p.wire, h.left, p.attempts, h.queued)
  }

  ghost predicate Inv(c: Config, r: Run) {
    RxOk(c, r.p.rx, r.h) && QueueOk(c, r.p, r.h)
  }

  lemma {:induction false} KnownGrows(base: int, accepted: seq<Segment>, b: seq<Segment>, queued: seq<Queued>, s: Stream, now: real)
    requires AllKnown(base, accepted, queued) && Good(base, Covered(accepted + b), s)
    ensures AllKnown(base, accepted + b, queued + [Queued(s, |accepted + b|, now)])
  {
    var all, q := accepted + b, queued + [Queued(s, |accepted + b|, now)];
    assert all[..|all|] == all;
    forall i | 0 <= i < |q|
      ensures Known(base, all, q[i])
    {
      if i < |queued| {
        assert Known(base, accepted, queued[i]);
        assert all[..q[i].n] == accepted[..q[i].n];
      }
    }
  }

  lemma OrderedGrows(queued: seq<Queued>, top: int, q: Queued)
    requires Ordered(queued, top) && top <= q.stream.nxt
    ensures Ordered(queued + [q], q.stream.nxt)
  {
  }

  lemma TellsOn(c: Config, a: Pending, queued: seq<Queued>, q: Queued, j: nat)
    requires Tells(c, a, queued, j)
    ensures Tells(c, a, queued + [q], j)
  {
    assert (queued + [q])[j] == queued[j] && (j > 0 ==> (queued + [q])[j - 1] == queued[j - 1]);
  }

  lemma PendingGrows(c: Config, pending: seq<Pending>, attempts: nat, queued: seq<Queued>, a: Pending, q: Queued)
    requires PendingOk(c, pending, attempts, queued) && Tells(c, a, queued + [q], |queued|)
    ensures PendingOk(c, pending + [a], attempts, queued + [q])
  {
    forall i | 0 <= i < |pending + [a]|
      ensures Tells(c, (pending + [a])[i], queued + [q], attempts + i)
    {
      if i < |pending| {
        TellsOn(c, pending[i], queued, q, attempts + i);
      }
    }
  }

  /** The ACK queued for a taken segment tells the state it was taken into. */
  lemma AckTells(c: Config, rx: Receiver, s: Stream, moved: bool, queued: seq<Queued>, q: Queued)
    requires rx.core == Encode(q.stream) && s.nxt == Before(c.dataIsn, queued, |queued|)
    requires moved <==> q.stream.nxt != s.nxt
    ensures Tells(c, AckFor(c, rx, q.at, moved), queued + [q], |queued|)
  {
    assert (queued + [q])[|queued|] == q && (|queued| > 0 ==> (queued + [q])[|queued| - 1] == queued[|queued| - 1]);
  }

  lemma WireStays(c: Config, wire: seq<Seg>, left: seq<nat>, attempts: nat, queued: seq<Queued>, q: Queued)
    requires WireOk(c, wire, left, attempts, queued)
    ensures WireOk(c, wire, left, attempts, queued + [q])
  {
    forall k | 0 <= k < |left|
      ensures wire[k] == AckOf(c, (queued + [q])[left[k]].stream)
    {
      assert (queued + [q])[left[k]] == queued[left[k]];
    }
  }

  /** A taken segment keeps the invariant; its ACK tells the new state. */
  lemma TakeKeeps(c: Config, p: PeerState, h: Past, sq: u32, len: u32, t: real, now: real, rexmt: bool)
    requires Inv(c, Run(p, h)) && 0 < len < HALF
    ensures Inv(c, Run(TakeSegment(c, p, sq, len, t, now, rexmt), Took(h, sq, len, now)))
  {
    TookRx(c, p.rx, h, sq, len, t, now);
    var rx, h' := Received(p.rx, sq, len, t), Took(h, sq, len, now);
    var s, b := h'.stream, Brought(h.stream, sq, len);
    var q := Queued(s, |h'.accepted|, now);
    var moved := rx.core.rcvNxt != p.rx.core.rcvNxt;
    KnownGrows(c.dataIsn, h.accepted, b, h.queued, s, now);
    OrderedGrows(h.queued, h.stream.nxt, q);
    AckTells(c, rx, h.stream, moved, h.queued, q);
    PendingGrows(c, p.pending, p.attempts, h.queued, AckFor(c, rx, now, moved), q);
    WireStays(c, p.wire, h.left, p.attempts, h.queued, q);
    TakenParts(c, p, h, sq, len, t, now, rexmt, rx, h', AckFor(c, rx, now, moved));
  }

  lemma TakenParts(c: Config, p: PeerState, h: Past, sq: u32, len: u32, t: real, now: real, rexmt: bool, rx: Receiver, h': Past, a: Pending)
    requires rx == Received(p.rx, sq, len, t) && h' == Took(h, sq, len, now)
    requires a == AckFor(c, rx, now, rx.core.rcvNxt != p.rx.core.rcvNxt) && RxOk(c, rx, h')
    requires AllKnown(c.dataIsn, h'.accepted, h'.queued) && Ordered(h'.queued, h'.stream.nxt)
    requires PendingOk(c, p.pending + [a], p.attempts, h'.queued) && WireOk(c, p.wire, h.left, p.attempts, h'.queued)
    ensures Inv(c, Run(TakeSegment(c, p, sq, len, t, now, rexmt), h'))
  {
    assert h'.queued[|h'.queued| - 1].stream == h'.stream;
  }

  lemma StepKeeps(c: Config, p: PeerState, h: Past, a: Arrival)
    requires Inv(c, Run(p, h)) && |a.seg.payload| < HALF
    ensures Inv(c, Run(Step(c, p, a), Remember(c, p, h, a)))
  {
    var sq, len := a.seg.sq, Length(a.seg);
    SmallWrap(|a.seg.payload|);
    if CarriesData(c, a.seg) && !Lost(c, p, sq, len) {
      TakeKeeps(c, Note(c, p, sq, len, a.t), h, sq, len, a.t, a.now, SeqLt(sq, p.maxEnd));
    }
  }

  lemma WireGrows(c: Config, wire: seq<Seg>, left: seq<nat>, attempts: nat, queued: seq<Queued>)
    requires WireOk(c, wire, left, attempts, queued) && attempts < |queued|
    ensures WireOk(c, wire + [AckOf(c, queued[attempts].stream)], left + [attempts], attempts + 1, queued)
    ensures WireOk(c, wire, left, attempts + 1, queued)
  {
  }

  lemma PendingShrinks(c: Config, pending: seq<Pending>, attempts: nat, queued: seq<Queued>)
    requires PendingOk(c, pending, attempts, queued) && pending != []
    ensures PendingOk(c, pending[1..], attempts + 1, queued) && attempts < |queued|
    ensures Tells(c, pending[0], queued, attempts)
  {
    assert Tells(c, pending[0], queued, attempts + 0);
    forall i | 0 <= i < |pending[1..]|
      ensures Tells(c, pending[1..][i], queued, attempts + 1 + i)
    {
      assert Tells(c, pending[i + 1], queued, attempts + (i + 1));
    }
  }

  lemma SentKeeps(c: Config, r: Run, ok: bool)
    requires Inv(c, r) && r.p.pending != []
    ensures Inv(c, Sent(c, r, ok))
  {
    if ok {
      SucceededKeeps(c, r);
    } else {
      FailedKeeps(c, r);
    }
  }

  lemma SucceededKeeps(c: Config, r: Run)
    requires Inv(c, r) && r.p.pending != []
    ensures Inv(c, Sent(c, r, true))
  {
    PendingShrinks(c, r.p.pending, r.p.attempts, r.h.queued);
    WireGrows(c, r.p.wire, r.h.left, r.p.attempts, r.h.queued);
    FrontTells(c, r.p.pending[0], r.h.queued, r.p.attempts);
    SentOk(c, r, AckOf(c, r.h.queued[r.p.attempts].stream));
  }

  lemma FailedKeeps(c: Config, r: Run)
    requires Inv(c, r) && r.p.pending != []
    ensures Inv(c, Sent(c, r, false))
  {
    PendingShrinks(c, r.p.pending, r.p.attempts, r.h.queued);
    WireGrows(c, r.p.wire, r.h.left, r.p.attempts, r.h.queued);
    SentFailed(c, r);
  }

  lemma SentFailed(c: Config, r: Run)
    requires Inv(c, r) && r.p.pending != []
    requires PendingOk(c, r.p.pending[1..], r.p.attempts + 1, r.h.queued)
    requires WireOk(c, r.p.wire, r.h.left, r.p.attempts + 1, r.h.queued)
    ensures Inv(c, Sent(c, r, false))
  {
    var r' := Sent(c, r, false);
    assert r'.h == r.h && r'.p.rx == r.p.rx && r'.p.wire == r.p.wire;
    assert r'.p.attempts == r.p.attempts + 1 && r'.p.pending == r.p.pending[1..];
  }

  lemma FrontTells(c: Config, a: Pending, queued: seq<Queued>, j: nat)
    requires Tells(c, a, queued, j)
    ensures AckSeg(c, a.ack, a.sacks) == AckOf(c, queued[j].stream)
  {
  }

  lemma SentOk(c: Config, r: Run, seg: Seg)
    requires Inv(c, r) && r.p.pending != [] && seg == AckSeg(c, r.p.pending[0].ack, r.p.pending[0].sacks)
    requires PendingOk(c, r.p.pending[1..], r.p.attempts + 1, r.h.queued)
    requires WireOk(c, r.p.wire + [seg], r.h.left + [r.p.attempts], r.p.attempts + 1, r.h.queued)
    ensures Inv(c, Sent(c, r, true))
  {
    var r' := Sent(c, r, true);
    assert r'.p.wire == r.p.wire + [seg] && r'.h.left == r.h.left + [r.p.attempts];
    assert r'.p.attempts == r.p.attempts + 1 && r'.p.pending == r.p.pending[1..];
  }

  lemma {:induction false} FlushKeeps(c: Config, net: nat -> bool, r: Run, now: real, force: bool)
    requires Inv(c, r)
    ensures Inv(c, Flushed(c, net, r, now, force))
    decreases |r.p.pending|
  {
    if Due(r.p, now, force) {
      SentKeeps(c, r, net(r.p.attempts));
      FlushKeeps(c, net, Sent(c, r, net(r.p.attempts)), now, force);
    }
  }

  lemma DoKeeps(c: Config, net: nat -> bool, r: Run, e: Event)
    requires Inv(c, r) && Short(e)
    ensures Inv(c, Do(c, net, r, e))
  {
    match e
    case Begin(target, policy) =>
    case Arrive(a) =>
      StepKeeps(c, r.p, r.h, a);
    case Flush(now, force) =>
      FlushKeeps(c, net, r, now, force);
    case End(goal) =>
  }

  /** Every run keeps the invariant: any arrivals, drops, send failures and clock readings. */
  lemma {:induction false} RunKeeps(c: Config, net: nat -> bool, r: Run, evs: seq<Event>)
    requires Inv(c, r) && AllShort(evs)
    ensures Inv(c, DoAll(c, net, r, evs))
    decreases |evs|
  {
    if evs != [] {
      assert Short(evs[0]);
      DoKeeps(c, net, r, evs[0]);
      RunKeeps(c, net, Do(c, net, r, evs[0]), evs[1..]);
    }
  }

  lemma StartInv(c: Config)
    ensures Inv(c, Start(c))
  {
    FreshGood(c.dataIsn);
    SmallWrap(c.dataIsn);
  }
}
