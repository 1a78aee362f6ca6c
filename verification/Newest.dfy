/** The order in which an ACK reports the held ranges. The interface promises most recent first;
    the code reports highest first. Over whole runs the two are the same exactly if no segment
    that arrives above the frontier ends below a run already held. */
module NewestFirst {
  import opened SeqSpace
  import opened ByteStream
  import opened Reassembling

  /** No held run begins beyond the segment's end. */
  ghost predicate NothingBeyond(h: seq<Range>, end: int) {
    forall i :: 0 <= i < |h| ==> h[i].lo <= end
  }

  ghost predicate Contains(r: Range, pos: int, end: int) {
    r.lo <= pos && end <= r.hi
  }

  /** The byte before a run is missing. */
  lemma BeforeRunMissing(h: seq<Range>, i: nat)
    requires Runs(h) && i < |h|
    ensures !Covers(h, h[i].lo - 1)
  {
    forall j | 0 <= j < |h|
      ensures !(h[j].lo <= h[i].lo - 1 < h[j].hi)
    {
      assert j < i ==> h[j].hi < h[i].lo;
      assert j > i ==> h[i].hi < h[j].lo;
    }
  }

  /** A covered interval lies in one run. */
  lemma RunAround(h: seq<Range>, pos: int, end: int) returns (i: nat)
    requires Runs(h) && pos < end && forall x :: pos <= x < end ==> Covers(h, x)
    ensures i < |h| && Contains(h[i], pos, end)
  {
    assert Covers(h, pos);
    i :| 0 <= i < |h| && h[i].lo <= pos < h[i].hi;
    RunEndMissing(h, i);
  }

  /** a covers what b covers and the segment. */
  ghost predicate Adds(a: seq<Range>, b: seq<Range>, pos: int, end: int) {
    forall x :: Covers(a, x) <==> Covers(b, x) || pos <= x < end
  }

  lemma LastContains(a: seq<Range>, b: seq<Range>, pos: int, end: int)
    requires Runs(a) && Runs(b) && pos < end && Adds(a, b, pos, end) && NothingBeyond(b, end)
    ensures a != [] && Contains(a[|a| - 1], pos, end)
  {
    var i := RunAround(a, pos, end);
    var last := |a| - 1;
    if i < last {
      var x := a[last].lo;
      assert a[i].hi < x;
      assert Covers(a, x);
      var j :| 0 <= j < |b| && b[j].lo <= x < b[j].hi;
      BeforeRunMissing(a, last);
    }
  }

  lemma LastMisses(a: seq<Range>, b: seq<Range>, pos: int, end: int, j: nat)
    requires Runs(a) && Runs(b) && pos < end && Adds(a, b, pos, end) && j < |b| && end < b[j].lo && a != []
    ensures !Contains(a[|a| - 1], pos, end)
  {
    var x, last := b[j].lo, |a| - 1;
    BeforeRunMissing(b, j);
    assert Covers(b, x);
    assert Covers(a, x) && !Covers(a, x - 1);
    var i :| 0 <= i < |a| && a[i].lo <= x < a[i].hi;
    assert i < last ==> a[i].hi < a[last].lo;
  }

  /** What is held after a segment that starts above the frontier. */
  lemma HeldAfter(base: int, acc: iset<int>, s: Stream, pos: int, len: u32)
    requires Good(base, acc, s) && 0 < len && s.nxt < pos
    ensures var t := Accept(s, pos, len); Runs(t.held) && Adds(t.held, s.held, pos, pos + len)
  {
    AcceptStands(base, acc, s, pos, len);
    var t := Accept(s, pos, len);
    assert s.nxt !in acc + Bytes(pos, len);
    forall x
      ensures Covers(t.held, x) <==> Covers(s.held, x) || pos <= x < pos + len
    {
      assert Covers(t.held, x) ==> s.nxt < x;
      assert Covers(s.held, x) ==> s.nxt < x;
    }
  }

  lemma {:induction false} RunAt(h: seq<Range>, k: nat)
    requires k < |h|
    ensures |EncodeAll(h)| == |h| && EncodeAll(h)[k] == EncodeRange(h[k])
  {
  }

  lemma BlockAt(held: seq<SeqRange>, i: nat, k: nat, r: SeqRange, max: nat)
    requires i < |held| && i < max && k == |held| - 1 - i && held[k] == r
    ensures |SackBlocks(held, max)| > i && SackBlocks(held, max)[i] == r
  {
  }

  /** Of two run lists, one with the segment added, the last run contains the segment if and only
      if no run of the other begins beyond the segment's end. */
  lemma LastContainsExactly(a: seq<Range>, b: seq<Range>, pos: int, end: int)
    requires Runs(a) && Runs(b) && pos < end && Adds(a, b, pos, end) && a != []
    ensures Contains(a[|a| - 1], pos, end) <==> NothingBeyond(b, end)
  {
    if NothingBeyond(b, end) {
      LastContains(a, b, pos, end);
    } else {
      var j :| 0 <= j < |b| && b[j].lo > end;
      LastMisses(a, b, pos, end, j);
    }
  }

  lemma AddsNonEmpty(a: seq<Range>, b: seq<Range>, pos: int, end: int)
    requires pos < end && Adds(a, b, pos, end)
    ensures a != []
  {
    assert Covers(a, pos);
  }

  /** After one segment that starts above the frontier, the highest run is the one that contains
      it if and only if no run held before begins beyond its end. */
  lemma FirstBlockExactly(base: int, acc: iset<int>, s: Stream, pos: int, len: u32)
    requires Good(base, acc, s) && InWindow(s.nxt, pos, len) && 0 < len && s.nxt < pos
    ensures var h := Accept(s, pos, len).held;
            h != [] && (Contains(h[|h| - 1], pos, pos + len) <==> NothingBeyond(s.held, pos + len))
  {
    HeldAfter(base, acc, s, pos, len);
    AddsNonEmpty(Accept(s, pos, len).held, s.held, pos, pos + len);
    LastContainsExactly(Accept(s, pos, len).held, s.held, pos, pos + len);
  }

  // --------------------------------------------------------------- the order of the list

  /** The arrival carries a byte of the run. */
  predicate Touches(e: Segment, r: Range) {
    e.pos < r.hi && r.lo < e.pos + e.len && 0 < e.len
  }

  /** The last arrival that carries a byte of the run, or -1. */
  function LastTouch(evs: seq<Segment>, r: Range): (i: int)
    ensures -1 <= i < |evs|
    decreases |evs|
  {
    if evs == [] then -1
    else if Touches(evs[|evs| - 1], r) then |evs| - 1
    else LastTouch(evs[..|evs| - 1], r)
  }

  /** Each of the max highest runs was touched later than every run below it: reported highest
      first, they are the most recent runs, most recent first. */
  ghost predicate MostRecentFirst(evs: seq<Segment>, h: seq<Range>, max: nat) {
    forall j, k :: 0 <= j < k < |h| && |h| - max <= k ==> LastTouch(evs, h[j]) < LastTouch(evs, h[k])
  }

  /** All runs, lowest first, were touched one after the other. */
  ghost predicate Rising(evs: seq<Segment>, h: seq<Range>) {
    forall j, k :: 0 <= j < k < |h| ==> LastTouch(evs, h[j]) < LastTouch(evs, h[k])
  }

  lemma {:induction false} TouchedNow(evs: seq<Segment>, e: Segment, r: Range)
    ensures LastTouch(evs + [e], r) == if Touches(e, r) then |evs| else LastTouch(evs, r)
  {
    var all := evs + [e];
    assert all[|all| - 1] == e && all[..|all| - 1] == evs;
  }

  /** A run around which both lists cover alike is a run of both. */
  lemma SameRun(a: seq<Range>, b: seq<Range>, i: nat) returns (j: nat)
    requires Runs(a) && Runs(b) && i < |a|
    requires forall x :: a[i].lo - 1 <= x <= a[i].hi ==> (Covers(a, x) <==> Covers(b, x))
    ensures j < |b| && b[j] == a[i]
  {
    var lo, hi := a[i].lo, a[i].hi;
    forall x | lo <= x < hi
      ensures Covers(b, x)
    {
      assert Covers(a, x);
    }
    j := RunAround(b, lo, hi);
    BeforeRunMissing(a, i);
    RunEndMissing(a, i);
    assert !Covers(b, lo - 1) && !Covers(b, hi);
  }

  lemma {:induction false} RunsInOrder(b: seq<Range>, p: Range, q: Range) returns (i: nat, j: nat)
    requires Runs(b) && p in b && q in b && p.hi < q.lo
    ensures i < j < |b| && b[i] == p && b[j] == q
  {
    i :| 0 <= i < |b| && b[i] == p;
    j :| 0 <= j < |b| && b[j] == q;
  }

  /** Runs that an arrival leaves alone stay in their order. */
  lemma {:induction false} OldStayInOrder(evs: seq<Segment>, e: Segment, b: seq<Range>, p: Range, q: Range)
    requires Runs(b) && Rising(evs, b) && p in b && q in b && p.hi < q.lo && !Touches(e, p) && !Touches(e, q)
    ensures LastTouch(evs + [e], p) < LastTouch(evs + [e], q)
  {
    var i, j := RunsInOrder(b, p, q);
    TouchedNow(evs, e, p);
    TouchedNow(evs, e, q);
    assert LastTouch(evs, b[i]) < LastTouch(evs, b[j]);
  }

  /** A run that covers no byte of the segment is an old one. */
  lemma UntouchedIsOld(a: seq<Range>, b: seq<Range>, e: Segment, i: nat)
    requires Runs(a) && Runs(b) && 0 < e.len && Adds(a, b, e.pos, e.pos + e.len) && i < |a|
    ensures Contains(a[i], e.pos, e.pos + e.len) || (a[i] in b && !Touches(e, a[i]))
    ensures Contains(a[i], e.pos, e.pos + e.len) ==> Touches(e, a[i])
  {
    var pos, end := e.pos, e.pos + e.len;
    var k := RunAround(a, pos, end);
    if k != i {
      assert i < k ==> a[i].hi < a[k].lo;
      assert k < i ==> a[k].hi < a[i].lo;
      var j := SameRun(a, b, i);
    }
  }

  /** An arrival above the frontier with nothing held beyond it keeps the order. */
  lemma AboveKeeps(evs: seq<Segment>, e: Segment, a: seq<Range>, b: seq<Range>)
    requires Runs(a) && Runs(b) && 0 < e.len && Adds(a, b, e.pos, e.pos + e.len)
    requires NothingBeyond(b, e.pos + e.len) && Rising(evs, b)
    ensures Rising(evs + [e], a)
  {
    LastContains(a, b, e.pos, e.pos + e.len);
    forall j, k | 0 <= j < k < |a|
      ensures LastTouch(evs + [e], a[j]) < LastTouch(evs + [e], a[k])
    {
      AbovePair(evs, e, a, b, j, k);
    }
  }

  lemma {:induction false} AbovePair(evs: seq<Segment>, e: Segment, a: seq<Range>, b: seq<Range>, j: nat, k: nat)
    requires Runs(a) && Runs(b) && 0 < e.len && Adds(a, b, e.pos, e.pos + e.len)
    requires Rising(evs, b) && j < k < |a| && Contains(a[|a| - 1], e.pos, e.pos + e.len)
    ensures LastTouch(evs + [e], a[j]) < LastTouch(evs + [e], a[k])
  {
    UntouchedIsOld(a, b, e, j);
    UntouchedIsOld(a, b, e, k);
    assert a[j].hi < a[k].lo && (k < |a| - 1 ==> a[k].hi < a[|a| - 1].lo);
    if k == |a| - 1 {
      TouchedNow(evs, e, a[j]);
      TouchedNow(evs, e, a[k]);
    } else {
      OldStayInOrder(evs, e, b, a[j], a[k]);
    }
  }

  /** An arrival above the frontier that ends below a held run breaks the order, and already at
      the first block reported. */
  lemma {:induction false} BeyondBreaks(evs: seq<Segment>, e: Segment, a: seq<Range>, b: seq<Range>, max: nat)
    requires Runs(a) && Runs(b) && 0 < e.len && Adds(a, b, e.pos, e.pos + e.len) && a != [] && max >= 1
    requires !NothingBeyond(b, e.pos + e.len)
    ensures !MostRecentFirst(evs + [e], a, max)
  {
    var last := |a| - 1;
    var i := RunAround(a, e.pos, e.pos + e.len);
    LastContainsExactly(a, b, e.pos, e.pos + e.len);
    UntouchedIsOld(a, b, e, last);
    TouchedNow(evs, e, a[i]);
    TouchedNow(evs, e, a[last]);
    assert LastTouch(evs + [e], a[i]) >= LastTouch(evs + [e], a[last]);
  }

  /** An arrival that starts at or below the frontier touches no run that stays held. */
  lemma BelowIsOld(base: int, acc: iset<int>, s: Stream, e: Segment, i: nat)
    requires Good(base, acc, s) && (e.len == 0 || e.pos <= s.nxt) && i < |Accept(s, e.pos, e.len).held|
    ensures Accept(s, e.pos, e.len).held[i] in s.held && !Touches(e, Accept(s, e.pos, e.len).held[i])
  {
    var t, end := Accept(s, e.pos, e.len), e.pos + e.len;
    AcceptStands(base, acc, s, e.pos, e.len);
    var acc' := acc + Bytes(e.pos, e.len);
    if e.len > 0 && end > s.nxt {
      assert t.nxt < end ==> t.nxt in acc';
      forall x | t.held[i].lo - 1 <= x <= t.held[i].hi
        ensures Covers(t.held, x) <==> Covers(s.held, x)
      {
        assert Covers(s.held, x) ==> s.nxt < x;
        assert x in acc' <==> x in acc;
      }
      var j := SameRun(t.held, s.held, i);
    }
  }

  lemma {:induction false} BelowKeeps(base: int, acc: iset<int>, s: Stream, e: Segment, evs: seq<Segment>)
    requires Good(base, acc, s) && (e.len == 0 || e.pos <= s.nxt) && Rising(evs, s.held)
    ensures Rising(evs + [e], Accept(s, e.pos, e.len).held)
  {
    AcceptStands(base, acc, s, e.pos, e.len);
    var h := Accept(s, e.pos, e.len).held;
    forall j, k | 0 <= j < k < |h|
      ensures LastTouch(evs + [e], h[j]) < LastTouch(evs + [e], h[k])
    {
      BelowIsOld(base, acc, s, e, j);
      BelowIsOld(base, acc, s, e, k);
      OldStayInOrder(evs, e, s.held, h[j], h[k]);
    }
  }

  // ------------------------------------------------------------------------ whole runs

  /** The receiver after the first n arrivals. */
  function AfterFirst(base: int, evs: seq<Segment>, n: nat): Stream
    requires n <= |evs|
  {
    Play(Fresh(base), evs[..n])
  }

  lemma {:induction false} PlayNext(s: Stream, evs: seq<Segment>, e: Segment)
    ensures Play(s, evs + [e]) == Accept(Play(s, evs), e.pos, e.len)
    decreases |evs|
  {
    if evs == [] {
      assert evs + [e] == [e] && [e][1..] == [];
    } else {
      assert (evs + [e])[1..] == evs[1..] + [e];
      PlayNext(Accept(s, evs[0].pos, evs[0].len), evs[1..], e);
    }
  }

  lemma {:induction false} FirstInWindow(s: Stream, evs: seq<Segment>, n: nat)
    requires AllInWindow(s, evs) && n <= |evs|
    ensures AllInWindow(s, evs[..n])
    decreases n
  {
    if n > 0 {
      FirstInWindow(Accept(s, evs[0].pos, evs[0].len), evs[1..], n - 1);
      assert evs[..n][1..] == evs[1..][..n - 1];
    }
  }

  lemma {:induction false} AfterFirstGood(base: int, evs: seq<Segment>, n: nat)
    requires AllInWindow(Fresh(base), evs) && n <= |evs|
    ensures Good(base, Covered(evs[..n]), AfterFirst(base, evs, n))
    ensures n < |evs| ==> AfterFirst(base, evs, n + 1) == Accept(AfterFirst(base, evs, n), evs[n].pos, evs[n].len)
    ensures n < |evs| ==> evs[..n + 1] == evs[..n] + [evs[n]]
  {
    FirstInWindow(Fresh(base), evs, n);
    FreshGood(base);
    PlayGood(base, iset{}, Fresh(base), evs[..n]);
    assert iset{} + Covered(evs[..n]) == Covered(evs[..n]);
    if n < |evs| {
      assert evs[..n + 1] == evs[..n] + [evs[n]];
      PlayNext(Fresh(base), evs[..n], evs[n]);
    }
  }

  /** If arrival n starts above the frontier, no run held then begins beyond its end. */
  ghost predicate InTurn(base: int, evs: seq<Segment>, n: nat)
    requires n < |evs|
  {
    var s, e := AfterFirst(base, evs, n), evs[n];
    0 < e.len && s.nxt < e.pos ==> NothingBeyond(s.held, e.pos + e.len)
  }

  /** One arrival in its turn keeps the order. */
  lemma {:induction false} InTurnKeeps(base: int, evs: seq<Segment>, n: nat)
    requires AllInWindow(Fresh(base), evs) && n < |evs| && InTurn(base, evs, n)
    requires Rising(evs[..n], AfterFirst(base, evs, n).held)
    ensures Rising(evs[..n + 1], AfterFirst(base, evs, n + 1).held)
  {
    var s, e := AfterFirst(base, evs, n), evs[n];
    AfterFirstGood(base, evs, n);
    if 0 < e.len && s.nxt < e.pos {
      HeldAfter(base, Covered(evs[..n]), s, e.pos, e.len);
      AboveKeeps(evs[..n], e, Accept(s, e.pos, e.len).held, s.held);
    } else {
      BelowKeeps(base, Covered(evs[..n]), s, e, evs[..n]);
    }
  }

  /** One arrival out of turn breaks it. */
  lemma {:induction false} OutOfTurnBreaks(base: int, evs: seq<Segment>, n: nat, max: nat)
    requires AllInWindow(Fresh(base), evs) && n < |evs| && !InTurn(base, evs, n) && max >= 1
    ensures !MostRecentFirst(evs[..n + 1], AfterFirst(base, evs, n + 1).held, max)
  {
    var s, e := AfterFirst(base, evs, n), evs[n];
    AfterFirstGood(base, evs, n);
    HeldAfter(base, Covered(evs[..n]), s, e.pos, e.len);
    var h := Accept(s, e.pos, e.len).held;
    AddsNonEmpty(h, s.held, e.pos, e.pos + e.len);
    BeyondBreaks(evs[..n], e, h, s.held, max);
  }

  lemma {:induction false} AllInTurnRises(base: int, evs: seq<Segment>, n: nat)
    requires AllInWindow(Fresh(base), evs) && n <= |evs| && forall i :: 0 <= i < n ==> InTurn(base, evs, i)
    ensures Rising(evs[..n], AfterFirst(base, evs, n).held)
    decreases n
  {
    if n > 0 {
      AllInTurnRises(base, evs, n - 1);
      InTurnKeeps(base, evs, n - 1);
    }
  }

  /** The blocks a receiver reports after the first n arrivals, highest first, are the max most
      recently touched runs it holds, most recent first. */
  ghost predicate ReportsNewestFirst(base: int, evs: seq<Segment>, n: nat, max: nat)
    requires n <= |evs|
  {
    MostRecentFirst(evs[..n], AfterFirst(base, evs, n).held, max)
  }

  /** Most recent first, exactly: over any run in the window and for any number of blocks, the
      list reported is most recent first after every arrival if and only if no arrival that
      starts above the frontier ends below the start of a run held. */
  lemma {:induction false} NewestFirstExactly(base: int, evs: seq<Segment>, max: nat)
    requires AllInWindow(Fresh(base), evs) && max >= 1
    ensures (forall n :: 0 <= n <= |evs| ==> ReportsNewestFirst(base, evs, n, max)) <==>
            (forall n :: 0 <= n < |evs| ==> InTurn(base, evs, n))
  {
    if forall n :: 0 <= n < |evs| ==> InTurn(base, evs, n) {
      forall n | 0 <= n <= |evs|
        ensures ReportsNewestFirst(base, evs, n, max)
      {
        AllInTurnRises(base, evs, n);
      }
    }
    forall n | 0 <= n < |evs| && !InTurn(base, evs, n)
      ensures !ReportsNewestFirst(base, evs, n + 1, max)
    {
      OutOfTurnBreaks(base, evs, n, max);
    }
  }

  /** And the list reported is the held runs, highest first. */
  lemma {:induction false} ReportedAre(base: int, evs: seq<Segment>, n: nat, max: nat, i: nat)
    requires AllInWindow(Fresh(base), evs) && n <= |evs|
    requires i < max && i < |AfterFirst(base, evs, n).held|
    ensures var h, b := AfterFirst(base, evs, n).held, SackBlocks(Play32(Core(Wrap(base), []), evs[..n]).held, max);
            i < |b| && b[i] == EncodeRange(h[|h| - 1 - i])
  {
    FirstInWindow(Fresh(base), evs, n);
    RunRefinesBytes(base, evs[..n]);
    var h := AfterFirst(base, evs, n).held;
    var k := |h| - 1 - i;
    RunAt(h, k);
    BlockAt(Play32(Core(Wrap(base), []), evs[..n]).held, i, k, EncodeRange(h[k]), max);
  }
}
