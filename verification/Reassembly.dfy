/** The receiver in cyclic 32-bit sequence space: an interval set kept by merge and drain, the
    arrival times of frontier advances, and the proof that it refines the set of accepted
    bytes over unbounded offsets however often sequence numbers wrap. */
module Reassembling {
  import opened SeqSpace
  import opened ByteStream

  /** A half-open range of sequence numbers, as a SACK block carries it. */
  datatype SeqRange = SeqRange(start: u32, end: u32)

  datatype Core = Core(rcvNxt: u32, held: seq<SeqRange>)

  function Absorb32(cur: SeqRange, r: SeqRange): SeqRange {
    SeqRange(if SeqLt(r.start, cur.start) then r.start else cur.start,
             if SeqGt(r.end, cur.end) then r.end else cur.end)
  }

  function Merge32(held: seq<SeqRange>, cur: SeqRange, placed: bool): seq<SeqRange> {
    if held == [] then
      if placed then [] else [cur]
    else
      var r, rest := held[0], held[1..];
      if SeqLt(r.end, cur.start) then [r] + Merge32(rest, cur, placed)
      else if SeqGt(r.start, cur.end) then (if placed then [r] else [cur, r]) + Merge32(rest, cur, true)
      else Merge32(rest, Absorb32(cur, r), placed)
  }

  function Drain32(held: seq<SeqRange>, nxt: u32): Core {
    if held == [] || SeqGt(held[0].start, nxt) then Core(nxt, held)
    else Drain32(held[1..], if SeqGt(held[0].end, nxt) then held[0].end else nxt)
  }

  /** The segment brings nothing new: it is empty or ends at or below the frontier. */
  predicate Stale(c: Core, sq: u32, len: u32) {
    len == 0 || SeqLeq(Wrap(sq + len), c.rcvNxt)
  }

  function Accept32(c: Core, sq: u32, len: u32): Core {
    if Stale(c, sq, len) then c
    else
      var start := if SeqLt(sq, c.rcvNxt) then c.rcvNxt else sq;
      Drain32(Merge32(c.held, SeqRange(start, Wrap(sq + len)), false), c.rcvNxt)
  }

  // ---------------------------------------------------------- from offsets to the wire

  function EncodeRange(r: Range): SeqRange {
    SeqRange(Wrap(r.lo), Wrap(r.hi))
  }

  function EncodeAll(h: seq<Range>): (e: seq<SeqRange>)
    ensures |e| == |h| && forall i :: 0 <= i < |h| ==> e[i] == EncodeRange(h[i])
  {
    if h == [] then [] else [EncodeRange(h[0])] + EncodeAll(h[1..])
  }

  function Encode(s: Stream): Core {
    Core(Wrap(s.nxt), EncodeAll(s.held))
  }

  /** The run lies between the frontier f and 2^31 beyond it. */
  ghost predicate LiveRange(f: int, r: Range) {
    f <= r.lo <= r.hi < f + HALF
  }

  ghost predicate Live(f: int, h: seq<Range>) {
    forall i :: 0 <= i < |h| ==> LiveRange(f, h[i])
  }

  /** The segment ends within 2^31 of the frontier, and if it reaches beyond the frontier it
      also starts within 2^31 of it. */
  ghost predicate InWindow(f: int, pos: int, len: int) {
    && f - HALF <= pos + len < f + HALF
    && (f < pos + len ==> f - HALF <= pos)
  }

  lemma LiveCompare(f: int, a: int, b: int)
    requires f <= a < f + HALF && f <= b < f + HALF
    ensures SeqLt(Wrap(a), Wrap(b)) <==> a < b
    ensures SeqGt(Wrap(a), Wrap(b)) <==> a > b
  {
    DiffInWindow(a, b);
  }

  lemma AbsorbSim(f: int, cur: Range, r: Range)
    requires LiveRange(f, cur) && LiveRange(f, r)
    ensures Absorb32(EncodeRange(cur), EncodeRange(r)) == EncodeRange(Absorb(cur, r))
    ensures LiveRange(f, Absorb(cur, r))
  {
    LiveCompare(f, r.lo, cur.lo);
    LiveCompare(f, r.hi, cur.hi);
  }

  lemma {:induction false} MergeSim(f: int, held: seq<Range>, cur: Range, placed: bool)
    requires Live(f, held) && LiveRange(f, cur)
    ensures Merge32(EncodeAll(held), EncodeRange(cur), placed) == EncodeAll(Merge(held, cur, placed))
    decreases |held|
  {
    if held != [] {
      var r, rest := held[0], held[1..];
      assert EncodeAll(held)[0] == EncodeRange(r) && EncodeAll(held)[1..] == EncodeAll(rest);
      LiveCompare(f, r.hi, cur.lo);
      LiveCompare(f, r.lo, cur.hi);
      if r.hi < cur.lo {
        MergeSim(f, rest, cur, placed);
        EncodeConcat([r], Merge(rest, cur, placed));
      } else if r.lo > cur.hi {
        MergeSim(f, rest, cur, true);
        EncodeConcat(if placed then [r] else [cur, r], Merge(rest, cur, true));
      } else {
        AbsorbSim(f, cur, r);
        MergeSim(f, rest, Absorb(cur, r), placed);
      }
    }
  }

  lemma {:induction false} EncodeConcat(a: seq<Range>, b: seq<Range>)
    ensures EncodeAll(a + b) == EncodeAll(a) + EncodeAll(b)
  {
  }

  lemma {:induction false} DrainSim(f: int, held: seq<Range>, nxt: int)
    requires Live(f, held) && f <= nxt < f + HALF
    ensures Drain32(EncodeAll(held), Wrap(nxt)) == Encode(Drain(held, nxt))
    decreases |held|
  {
    if held != [] {
      var r, rest := held[0], held[1..];
      assert EncodeAll(held)[0] == EncodeRange(r) && EncodeAll(held)[1..] == EncodeAll(rest);
      LiveCompare(f, r.lo, nxt);
      LiveCompare(f, r.hi, nxt);
      if r.lo <= nxt {
        DrainSim(f, rest, if r.hi > nxt then r.hi else nxt);
      }
    }
  }

  lemma {:induction false} MergeLive(f: int, held: seq<Range>, cur: Range, placed: bool)
    requires Live(f, held) && LiveRange(f, cur)
    ensures Live(f, Merge(held, cur, placed))
    decreases |held|
  {
    if held != [] {
      var r, rest := held[0], held[1..];
      if r.hi < cur.lo {
        MergeLive(f, rest, cur, placed);
      } else if r.lo > cur.hi {
        MergeLive(f, rest, cur, true);
      } else {
        AbsorbSim(f, cur, r);
        MergeLive(f, rest, Absorb(cur, r), placed);
      }
    }
  }

  lemma {:induction false} DrainLive(f: int, held: seq<Range>, nxt: int)
    requires Live(f, held) && f <= nxt < f + HALF
    ensures Live(f, Drain(held, nxt).held) && nxt <= Drain(held, nxt).nxt < f + HALF
    decreases |held|
  {
    if held != [] && held[0].lo <= nxt {
      DrainLive(f, held[1..], if held[0].hi > nxt then held[0].hi else nxt);
    }
  }

  /** Within the window the cyclic step is the step on offsets. */
  lemma AcceptSim(s: Stream, pos: int, len: u32)
    requires Live(s.nxt, s.held) && InWindow(s.nxt, pos, len)
    ensures Accept32(Encode(s), Wrap(pos), len) == Encode(Accept(s, pos, len))
    ensures s.nxt <= Accept(s, pos, len).nxt < s.nxt + HALF
    ensures Live(s.nxt, Accept(s, pos, len).held)
  {
    var end := pos + len;
    WrapOfSum(pos, len);
    DiffInWindow(end, s.nxt);
    if len > 0 && end > s.nxt {
      DiffInWindow(pos, s.nxt);
      var cur := Range(if pos < s.nxt then s.nxt else pos, end);
      MergeSim(s.nxt, s.held, cur, false);
      MergeLive(s.nxt, s.held, cur, false);
      DrainSim(s.nxt, Merge(s.held, cur, false), s.nxt);
      DrainLive(s.nxt, Merge(s.held, cur, false), s.nxt);
    }
  }

  /** Where the window ends: of the segments that end above the frontier by less than a full
      turn, exactly those at least 2^31 above it are taken for duplicates. */
  lemma NewEndTakenForOld(s: Stream, pos: int, len: u32)
    requires 0 < len && 0 < pos + len - s.nxt < M
    ensures Stale(Encode(s), Wrap(pos), len) <==> pos + len >= s.nxt + HALF
  {
    WrapOfSum(pos, len);
    WrapOfDifference(pos + len, s.nxt);
    SmallWrap(pos + len - s.nxt);
  }

  // ------------------------------------------------------------------------- whole runs

  /** A segment of the stream by its true offset. */
  datatype Segment = Segment(pos: int, len: u32)

  function Play(s: Stream, evs: seq<Segment>): Stream
    decreases |evs|
  {
    if evs == [] then s else Play(Accept(s, evs[0].pos, evs[0].len), evs[1..])
  }

  function Play32(c: Core, evs: seq<Segment>): Core
    decreases |evs|
  {
    if evs == [] then c else Play32(Accept32(c, Wrap(evs[0].pos), evs[0].len), evs[1..])
  }

  /** Every segment arrives within 2^31 of the frontier of its time. */
  ghost predicate AllInWindow(s: Stream, evs: seq<Segment>)
    decreases |evs|
  {
    evs == [] || (InWindow(s.nxt, evs[0].pos, evs[0].len) && AllInWindow(Accept(s, evs[0].pos, evs[0].len), evs[1..]))
  }

  ghost function Covered(evs: seq<Segment>): iset<int> {
    if evs == [] then iset{} else Bytes(evs[0].pos, evs[0].len) + Covered(evs[1..])
  }

  /** The states a run inside the window goes through. */
  ghost predicate Good(base: int, acc: iset<int>, s: Stream) {
    Stands(base, acc, s) && Live(s.nxt, s.held)
  }

  lemma AcceptGood(base: int, acc: iset<int>, s: Stream, pos: int, len: u32)
    requires Good(base, acc, s) && InWindow(s.nxt, pos, len)
    ensures Good(base, acc + Bytes(pos, len), Accept(s, pos, len))
    ensures Accept32(Encode(s), Wrap(pos), len) == Encode(Accept(s, pos, len))
    ensures s.nxt <= Accept(s, pos, len).nxt < s.nxt + HALF
  {
    AcceptStands(base, acc, s, pos, len);
    AcceptSim(s, pos, len);
    var t := Accept(s, pos, len);
    forall i | 0 <= i < |t.held|
      ensures LiveRange(t.nxt, t.held[i])
    {
      assert LiveRange(s.nxt, t.held[i]);
    }
  }

  lemma {:induction false} PlayGood(base: int, acc: iset<int>, s: Stream, evs: seq<Segment>)
    requires Good(base, acc, s) && AllInWindow(s, evs)
    ensures Good(base, acc + Covered(evs), Play(s, evs))
    ensures Play32(Encode(s), evs) == Encode(Play(s, evs))
    decreases |evs|
  {
    if evs == [] {
      assert acc + iset{} == acc;
    } else {
      var e := evs[0];
      AcceptGood(base, acc, s, e.pos, e.len);
      PlayGood(base, acc + Bytes(e.pos, e.len), Accept(s, e.pos, e.len), evs[1..]);
      assert acc + Bytes(e.pos, e.len) + Covered(evs[1..]) == acc + Covered(evs);
    }
  }

  function Fresh(base: int): Stream {
    Stream(base, [])
  }

  lemma FreshGood(base: int)
    ensures Good(base, iset{}, Fresh(base)) && Encode(Fresh(base)) == Core(Wrap(base), [])
  {
  }

  /** Refinement over whole runs: the 32-bit state is, up to wrapping, the first missing byte
      and the maximal accepted runs above it. */
  lemma {:induction false} RunRefinesBytes(base: int, evs: seq<Segment>)
    requires AllInWindow(Fresh(base), evs)
    ensures Play32(Core(Wrap(base), []), evs) == Encode(Play(Fresh(base), evs))
    ensures Stands(base, Covered(evs), Play(Fresh(base), evs))
  {
    FreshGood(base);
    PlayGood(base, iset{}, Fresh(base), evs);
    assert iset{} + Covered(evs) == Covered(evs);
  }

  /** Order independence: runs that cover the same bytes end in the same 32-bit state. */
  lemma {:induction false} OrderIndependent(base: int, evs1: seq<Segment>, evs2: seq<Segment>)
    requires AllInWindow(Fresh(base), evs1) && AllInWindow(Fresh(base), evs2)
    requires forall x :: base <= x ==> (x in Covered(evs1) <==> x in Covered(evs2))
    ensures Play32(Core(Wrap(base), []), evs1) == Play32(Core(Wrap(base), []), evs2)
  {
    RunRefinesBytes(base, evs1);
    RunRefinesBytes(base, evs2);
    StandsUnique(base, Covered(evs1), Covered(evs2), Play(Fresh(base), evs1), Play(Fresh(base), evs2));
  }

  /** All segments lie in one window of 2^31 bytes from base. */
  ghost predicate OneWindow(base: int, evs: seq<Segment>) {
    forall i :: 0 <= i < |evs| ==> base <= evs[i].pos && evs[i].pos + evs[i].len < base + HALF
  }

  /** Inside one window every arrival order stays in the window of its frontier. */
  lemma {:induction false} OneWindowIsInWindow(base: int, acc: iset<int>, s: Stream, evs: seq<Segment>)
    requires Good(base, acc, s) && OneWindow(base, evs)
    requires forall x :: x in acc ==> x < base + HALF - 1
    ensures AllInWindow(s, evs)
    decreases |evs|
  {
    if evs != [] {
      var e := evs[0];
      assert s.nxt > base ==> s.nxt - 1 in acc;
      AcceptGood(base, acc, s, e.pos, e.len);
      OneWindowIsInWindow(base, acc + Bytes(e.pos, e.len), Accept(s, e.pos, e.len), evs[1..]);
    }
  }

  /** Any two arrival orders, duplications and re-segmentations of the same bytes inside one
      window of 2^31 bytes end in the same state. */
  lemma {:induction false} SameBytesSameState(base: int, evs1: seq<Segment>, evs2: seq<Segment>)
    requires OneWindow(base, evs1) && OneWindow(base, evs2) && Covered(evs1) == Covered(evs2)
    ensures Play32(Core(Wrap(base), []), evs1) == Play32(Core(Wrap(base), []), evs2)
  {
    FreshGood(base);
    OneWindowIsInWindow(base, iset{}, Fresh(base), evs1);
    OneWindowIsInWindow(base, iset{}, Fresh(base), evs2);
    OrderIndependent(base, evs1, evs2);
  }

  // ---------------------------------------------------------------- arbitrary segments

  /** What a segment brings when it is read at the offset nearest the frontier: itself, or
      nothing if it ends 2^31 or more beyond the frontier. */
  function Brought(s: Stream, sq: u32, len: u32): seq<Segment> {
    var pos := Unwrap(s.nxt, sq);
    if pos + len < s.nxt + HALF then [Segment(pos, len)] else []
  }

  /** Whatever arrives, the 32-bit step does exactly what the brought bytes call for: no
      assumption about the sender is needed while the segment ends no more than one turn beyond
      the frontier, which every segment of at most 2^31 bytes does. */
  lemma {:induction false} AcceptAny(base: int, acc: iset<int>, s: Stream, sq: u32, len: u32)
    requires Good(base, acc, s) && Unwrap(s.nxt, sq) + len <= s.nxt + M
    ensures var t := Play(s, Brought(s, sq, len));
            && Accept32(Encode(s), sq, len) == Encode(t)
            && Good(base, acc + Covered(Brought(s, sq, len)), t)
            && s.nxt <= t.nxt < s.nxt + HALF
  {
    var pos := Unwrap(s.nxt, sq);
    if pos + len < s.nxt + HALF {
      AcceptGood(base, acc, s, pos, len);
      OneBrought(s, pos, len);
    } else {
      EndOldOrExact(s, pos, len);
      assert acc + iset{} == acc;
    }
  }

  lemma EndOldOrExact(s: Stream, pos: int, len: u32)
    requires s.nxt + HALF <= pos + len <= s.nxt + M
    ensures Stale(Encode(s), Wrap(pos), len)
  {
    WrapOfSum(pos, len);
    WrapOfDifference(pos + len, s.nxt);
    if pos + len < s.nxt + M {
      SmallWrap(pos + len - s.nxt);
    } else {
      WrapShift(0, 1);
      SmallWrap(0);
    }
  }

  /** Beyond that bound the step can go wrong: on a fresh receiver a segment that ends one turn
      and one byte beyond the frontier is held as a range that ends before it starts. */
  lemma BeyondOneTurn(base: int)
    ensures Unwrap(base, Wrap(base + 2)) + (M - 1) == base + M + 1
    ensures Accept32(Encode(Fresh(base)), Wrap(base + 2), M - 1).held == [SeqRange(Wrap(base + 2), Wrap(base + 1))]
  {
    UnwrapIsTrue(base, base + 2);
    var n, sq, end := Wrap(base), Wrap(base + 2), Wrap(base + 1);
    WrapOfSum(base + 2, M - 1);
    WrapShift(base + 1, 1);
    DiffInWindow(base + 1, base);
    DiffInWindow(base + 2, base);
    var cur := SeqRange(sq, end);
    assert !Stale(Encode(Fresh(base)), sq, M - 1);
    assert Merge32([], cur, false) == [cur];
    assert Drain32([cur], n) == Core(n, [cur]);
  }

  lemma {:induction false} OneBrought(s: Stream, pos: int, len: u32)
    ensures Play(s, [Segment(pos, len)]) == Accept(s, pos, len)
    ensures Covered([Segment(pos, len)]) == Bytes(pos, len)
  {
    assert [Segment(pos, len)][1..] == [];
    assert Bytes(pos, len) + iset{} == Bytes(pos, len);
  }

  lemma {:induction false} CoveredConcat(a: seq<Segment>, b: seq<Segment>)
    ensures Covered(a + b) == Covered(a) + Covered(b)
    decreases |a|
  {
    if a == [] {
      assert a + b == b;
    } else {
      assert (a + b)[1..] == a[1..] + b;
      CoveredConcat(a[1..], b);
    }
  }

  /** A covered byte lies in one of the segments. */
  lemma {:induction false} CoveredByOne(evs: seq<Segment>, x: int) returns (i: nat)
    requires x in Covered(evs)
    ensures i < |evs| && evs[i].pos <= x < evs[i].pos + evs[i].len
    decreases |evs|
  {
    if x in Bytes(evs[0].pos, evs[0].len) {
      i := 0;
    } else {
      var j := CoveredByOne(evs[1..], x);
      i := j + 1;
    }
  }

  // ------------------------------------------------------------------ the receiver object

  datatype Advance = Advance(frontier: u32, t: real)

  datatype Receiver = Receiver(core: Core, advances: seq<Advance>, dups: nat, ooo: nat)

  /** The receiver after one segment: duplicates and out-of-order segments are counted, and
      each advance of the frontier is logged with its time. */
  function Received(r: Receiver, sq: u32, len: u32, t: real): Receiver {
    if len == 0 then r
    else if Stale(r.core, sq, len) then r.(dups := r.dups + 1)
    else
      var core := Accept32(r.core, sq, len);
      if core.rcvNxt != r.core.rcvNxt then r.(core := core, advances := r.advances + [Advance(core.rcvNxt, t)])
      else r.(core := core, ooo := r.ooo + 1)
  }

  /** The held ranges, highest first, at most max of them. */
  function SackBlocks(held: seq<SeqRange>, max: nat): (b: seq<SeqRange>)
    ensures |b| == if |held| < max then |held| else max
    ensures forall i :: 0 <= i < |b| ==> b[i] == held[|held| - 1 - i]
  {
    seq(if |held| < max then |held| else max, (i: nat) requires i < |held| => held[|held| - 1 - i])
  }

  /** The time of the first logged advance at or beyond sq, or -1. */
  function TimeReached(advances: seq<Advance>, sq: u32): real {
    if advances == [] then -1.0
    else if SeqGeq(advances[0].frontier, sq) then advances[0].t
    else TimeReached(advances[1..], sq)
  }

  /** The log read as true frontiers. */
  ghost predicate LogOf(advances: seq<Advance>, frontiers: seq<int>) {
    |advances| == |frontiers| && forall i :: 0 <= i < |advances| ==> advances[i].frontier == Wrap(frontiers[i])
  }

  /** The index of the first logged advance at or beyond sq, or the length of the log. */
  function IndexReached(advances: seq<Advance>, sq: u32): (i: nat)
    ensures i <= |advances|
    ensures TimeReached(advances, sq) == if i < |advances| then advances[i].t else -1.0
  {
    if advances == [] || SeqGeq(advances[0].frontier, sq) then 0 else 1 + IndexReached(advances[1..], sq)
  }

  /** The index of the first frontier that truly reaches q. */
  function FirstReaching(frontiers: seq<int>, q: int): (k: nat)
    ensures k <= |frontiers| && (k < |frontiers| ==> frontiers[k] >= q)
    ensures forall i :: 0 <= i < k ==> frontiers[i] < q
  {
    if frontiers == [] || frontiers[0] >= q then 0 else 1 + FirstReaching(frontiers[1..], q)
  }

  /** The log climbs by less than 2^31 at a time, as the receiver's log does. */
  ghost predicate Climbs(frontiers: seq<int>) {
    forall i {:trigger frontiers[i]} :: 0 < i < |frontiers| ==> frontiers[i - 1] < frontiers[i] < frontiers[i - 1] + HALF
  }

  /** While the first logged frontier is at most 2^31 below the offset asked for and less than
      2^31 above it, the index found is the true one. */
  lemma {:induction false} IndexReachedIsFirst(advances: seq<Advance>, frontiers: seq<int>, q: int)
    requires LogOf(advances, frontiers) && Climbs(frontiers)
    requires frontiers != [] ==> -HALF <= frontiers[0] - q < HALF
    ensures IndexReached(advances, Wrap(q)) == FirstReaching(frontiers, q)
    decreases |advances|
  {
    if advances != [] {
      DiffInWindow(frontiers[0], q);
      if frontiers[0] < q {
        ClimbsOn(frontiers);
        IndexReachedIsFirst(advances[1..], frontiers[1..], q);
      }
    }
  }

  lemma ClimbsOn(frontiers: seq<int>)
    requires Climbs(frontiers) && frontiers != []
    ensures Climbs(frontiers[1..]) && (|frontiers| > 1 ==> frontiers[0] < frontiers[1] < frontiers[0] + HALF)
  {
    assert |frontiers| > 1 ==> frontiers[1 - 1] < frontiers[1];
    forall i | 0 < i < |frontiers[1..]|
      ensures frontiers[1..][i - 1] < frontiers[1..][i] < frontiers[1..][i - 1] + HALF
    {
      assert frontiers[i + 1 - 1] < frontiers[i + 1];
    }
  }

  /** Below that, a log that climbs past q - 2^32 is answered too early: some frontier that has
      not reached the offset counts as having reached it. */
  lemma {:induction false} FoundTooEarly(advances: seq<Advance>, frontiers: seq<int>, q: int)
    requires LogOf(advances, frontiers) && Climbs(frontiers) && frontiers != []
    requires frontiers[0] < q - HALF && frontiers[|frontiers| - 1] >= q - M
    ensures IndexReached(advances, Wrap(q)) < FirstReaching(frontiers, q)
    decreases |advances|
  {
    var f := frontiers[0];
    if f >= q - M {
      WrapOfDifference(f, q);
      WrapShift(f - q, 1);
      SmallWrap(f - q + M);
    } else {
      ClimbsOn(frontiers);
      FoundTooEarly(advances[1..], frontiers[1..], q);
    }
  }

  lemma {:induction false} FoundTooLate(advances: seq<Advance>, frontiers: seq<int>, q: int)
    requires LogOf(advances, frontiers) && frontiers != [] && HALF <= frontiers[0] - q < M
    ensures IndexReached(advances, Wrap(q)) > FirstReaching(frontiers, q)
  {
    WrapOfDifference(frontiers[0], q);
    SmallWrap(frontiers[0] - q);
  }

  /** The advance found is the first that truly reached the offset if and only if the first
      logged frontier is at most 2^31 below it and less than 2^31 above it. */
  lemma {:induction false} IndexReachedExactly(advances: seq<Advance>, frontiers: seq<int>, q: int)
    requires LogOf(advances, frontiers) && Climbs(frontiers) && frontiers != []
    requires frontiers[0] < q + M && frontiers[|frontiers| - 1] >= q - M
    ensures IndexReached(advances, Wrap(q)) == FirstReaching(frontiers, q) <==> -HALF <= frontiers[0] - q < HALF
  {
    if frontiers[0] < q - HALF {
      FoundTooEarly(advances, frontiers, q);
    } else if frontiers[0] < q + HALF {
      IndexReachedIsFirst(advances, frontiers, q);
    } else {
      FoundTooLate(advances, frontiers, q);
    }
  }

  /** The frontier from the start on: base, and then what the log says. */
  function History(base: int, frontiers: seq<int>): (h: seq<int>)
    ensures |h| == |frontiers| + 1 && h[0] == base && h[1..] == frontiers
  {
    [base] + frontiers
  }

  /** The time returned is that at which the frontier first reached the offset, and -1 if it has
      not, if and only if the offset lies above the start and at most 2^31 above the first logged
      frontier: at or below the start the frontier was there from the beginning, which the log
      does not tell. */
  lemma {:induction false} TimeReachedExactly(base: int, advances: seq<Advance>, frontiers: seq<int>, q: int)
    requires LogOf(advances, frontiers) && Climbs(History(base, frontiers))
    requires frontiers != [] ==> frontiers[|frontiers| - 1] >= q - M
    ensures FirstReaching(History(base, frontiers), q) == IndexReached(advances, Wrap(q)) + 1 <==>
            base < q && (frontiers != [] ==> q - HALF <= frontiers[0])
  {
    var h := History(base, frontiers);
    assert h[0] == base;
    if base < q {
      assert FirstReaching(h, q) == 1 + FirstReaching(h[1..], q);
      ClimbsOn(h);
      if frontiers != [] {
        assert frontiers[0] == h[1];
        IndexReachedExactly(advances, frontiers, q);
      }
    }
  }

  /** An input at which it errs: a log whose one frontier is 2^31 + 1 below the offset. */
  lemma TimeReachedTooEarly(f: int, t: real)
    ensures TimeReached([Advance(Wrap(f), t)], Wrap(f + HALF + 1)) == t
  {
    WrapOfDifference(f, f + HALF + 1);
    SmallWrap(-HALF - 1);
  }

  /** In the window the merged list comes out sorted, as the code asserts. */
  lemma MergedIsSorted(base: int, acc: iset<int>, s: Stream, pos: int, len: u32, i: nat)
    requires Good(base, acc, s) && InWindow(s.nxt, pos, len) && len > 0 && pos + len > s.nxt
    requires var cur := SeqRange(if SeqLt(Wrap(pos), Wrap(s.nxt)) then Wrap(s.nxt) else Wrap(pos), Wrap(pos + len));
             i + 1 < |Merge32(EncodeAll(s.held), cur, false)|
    ensures var cur := SeqRange(if SeqLt(Wrap(pos), Wrap(s.nxt)) then Wrap(s.nxt) else Wrap(pos), Wrap(pos + len));
            var m := Merge32(EncodeAll(s.held), cur, false);
            SeqLt(m[i].start, m[i + 1].start)
  {
    DiffInWindow(pos, s.nxt);
    var cur := Range(if pos < s.nxt then s.nxt else pos, pos + len);
    MergeSim(s.nxt, s.held, cur, false);
    MergeLive(s.nxt, s.held, cur, false);
    var m := Merge(s.held, cur, false);
    LiveBelow(s.nxt, s.held);
    MergeIsUnion(s.held, cur, s.nxt - 1, s.nxt + HALF);
    assert LiveRange(s.nxt, m[i]) && LiveRange(s.nxt, m[i + 1]);
    LiveCompare(s.nxt, m[i].lo, m[i + 1].lo);
  }

  lemma LiveBelow(f: int, h: seq<Range>)
    requires Live(f, h)
    ensures Below(h, f + HALF)
  {
    forall i | 0 <= i < |h|
      ensures h[i].hi <= f + HALF
    {
      assert LiveRange(f, h[i]);
    }
  }

  class Reassembly {
    const isn: u32
    var rcvNxt: u32
    var held: seq<SeqRange>
    var advances: seq<Advance>
    var dups: nat
    var ooo: nat

    constructor (isn: u32)
      ensures this.isn == isn && State() == Receiver(Core(isn, []), [], 0, 0)
    {
      this.isn, rcvNxt, held, advances, dups, ooo := isn, isn, [], [], 0, 0;
    }

    function State(): Receiver
      reads this
    {
      Receiver(Core(rcvNxt, held), advances, dups, ooo)
    }

    /** Bytes delivered in order so far. */
    function Delivered(): u32
      reads this
    {
      Wrap(rcvNxt - isn)
    }

    method Accept(sq: u32, len: u32, t: real) returns (moved: bool)
      modifies this
      ensures State() == Received(old(State()), sq, len, t)
      ensures moved <==> rcvNxt != old(rcvNxt)
    {
      if len == 0 {
        return false;
      }
      var start, end := sq, Wrap(sq + len);
      if SeqLeq(end, rcvNxt) {
        dups := dups + 1;
        return false;
      }
      if SeqLt(start, rcvNxt) {
        start := rcvNxt;
      }
      var merged := MergeLoop(held, SeqRange(start, end));
      var before := rcvNxt;
      var drained;
      rcvNxt, drained := DrainLoop(merged, rcvNxt);
      held := merged[drained..];
      moved := rcvNxt != before;
      if moved {
        advances := advances + [Advance(rcvNxt, t)];
      } else {
        ooo := ooo + 1;
      }
    }

    method Blocks(max: nat) returns (out: seq<SeqRange>)
      ensures out == SackBlocks(held, max)
    {
      out := [];
      var i := |held|;
      while i > 0 && |out| < max
        invariant 0 <= i <= |held| && |out| == |held| - i && |out| <= max
        invariant forall j :: 0 <= j < |out| ==> out[j] == held[|held| - 1 - j]
      {
        i := i - 1;
        out := out + [held[i]];
      }
    }

    method WhenReached(sq: u32) returns (t: real)
      ensures t == TimeReached(advances, sq)
    {
      for i := 0 to |advances|
        invariant TimeReached(advances, sq) == TimeReached(advances[i..], sq)
      {
        if SeqGeq(advances[i].frontier, sq) {
          return advances[i].t;
        }
        assert advances[i..][1..] == advances[i + 1..];
      }
      t := -1.0;
    }
  }

  method MergeLoop(held: seq<SeqRange>, first: SeqRange) returns (merged: seq<SeqRange>)
    ensures merged == Merge32(held, first, false)
  {
    merged := [];
    var cur, placed := first, false;
    for i := 0 to |held|
      invariant merged + Merge32(held[i..], cur, placed) == Merge32(held, first, false)
    {
      var r := held[i];
      assert held[i..][0] == r && held[i..][1..] == held[i + 1..];
      if SeqLt(r.end, cur.start) {
        merged := merged + [r];
      } else if SeqGt(r.start, cur.end) {
        if !placed {
          merged := merged + [cur];
          placed := true;
        }
        merged := merged + [r];
      } else {
        cur := Absorb32(cur, r);
      }
    }
    if !placed {
      merged := merged + [cur];
    }
  }

  method DrainLoop(held: seq<SeqRange>, nxt0: u32) returns (nxt: u32, drained: nat)
    ensures drained <= |held| && Core(nxt, held[drained..]) == Drain32(held, nxt0)
  {
    nxt, drained := nxt0, 0;
    while drained < |held| && !SeqGt(held[drained].start, nxt)
      invariant drained <= |held| && Drain32(held[drained..], nxt) == Drain32(held, nxt0)
    {
      assert held[drained..][1..] == held[drained + 1..];
      if SeqGt(held[drained].end, nxt) {
        nxt := held[drained].end;
      }
      drained := drained + 1;
    }
  }
}
