/** The kernel's own reassembly: a sorted queue of unmerged segments with front trimming,
    successor trimming and in-order presentation, and the proof that segment by segment it
    agrees with the other receiver about the frontier and the bytes held. */
module KernelQueue {
  import opened SeqSpace
  import opened ByteStream
  import Reassembling

  // ------------------------------------------------------------------- over offsets

  /** Non-empty, ascending and disjoint; neighbours may touch. */
  ghost predicate Tidy(q: seq<Range>) {
    && (forall i :: 0 <= i < |q| ==> q[i].lo < q[i].hi)
    && (forall i, j :: 0 <= i < j < |q| ==> q[i].hi <= q[j].lo)
  }

  /** How many leading entries begin at or before lo. */
  function Place(q: seq<Range>, lo: int): (k: nat)
    ensures k <= |q|
    ensures forall i :: 0 <= i < k ==> q[i].lo <= lo
    ensures k < |q| ==> q[k].lo > lo
  {
    if q == [] || q[0].lo > lo then 0 else 1 + Place(q[1..], lo)
  }

  /** Removes from the successors what the new segment covers. */
  function TrimSuccessors(q: seq<Range>, hi: int): seq<Range> {
    if q == [] || hi <= q[0].lo then q
    else if hi < q[0].hi then [Range(hi, q[0].hi)] + q[1..]
    else TrimSuccessors(q[1..], hi)
  }

  function Insert(q: seq<Range>, lo: int, hi: int): seq<Range> {
    var k := Place(q, lo);
    var lo' := if k > 0 && q[k - 1].hi > lo then q[k - 1].hi else lo;
    if lo' >= hi then q else InsertAt(q, k, Range(lo', hi))
  }

  /** Links r in after k entries and takes from the rest what it covers. */
  function InsertAt(q: seq<Range>, k: nat, r: Range): seq<Range>
    requires k <= |q|
  {
    q[..k] + [r] + TrimSuccessors(q[k..], r.hi)
  }

  /** Hands over the entries that continue the frontier. */
  function Present(nxt: int, q: seq<Range>): Stream
    decreases |q|
  {
    if q != [] && q[0].lo == nxt then Present(q[0].hi, q[1..]) else Stream(nxt, q)
  }

  function Reass(s: Stream, pos: int, len: int): Stream {
    Present(s.nxt, Joined(s.held, pos, len))
  }

  function Joined(q: seq<Range>, pos: int, len: int): seq<Range> {
    Insert(q, pos, pos + len)
  }

  /** A data segment as the input path hands it on: old data trimmed from the front, the next
      expected segment taken directly when nothing is queued, everything else queued. */
  function Input(s: Stream, pos: int, len: int): Stream {
    Take(s, First(s.nxt, pos, len), Left(s.nxt, pos, len))
  }

  /** Where the segment starts once its old bytes are gone, and how many are left. */
  function First(nxt: int, pos: int, len: int): int {
    pos + Old(nxt, pos, len)
  }

  function Left(nxt: int, pos: int, len: int): int {
    len - Old(nxt, pos, len)
  }

  /** How many bytes of a segment lie below the frontier. */
  function Old(nxt: int, pos: int, len: int): int {
    if nxt - pos <= 0 then 0 else if nxt - pos < len then nxt - pos else len
  }

  function Take(s: Stream, pos: int, len: int): Stream {
    if len == 0 then s
    else if pos == s.nxt && s.held == [] then Stream(s.nxt + len, [])
    else Reass(s, pos, len)
  }

  ghost predicate StandsTidy(base: int, acc: iset<int>, s: Stream) {
    && base <= s.nxt
    && (forall x :: base <= x < s.nxt ==> x in acc)
    && s.nxt !in acc
    && Tidy(s.held) && Above(s.held, s.nxt)
    && (forall x :: s.nxt < x ==> (x in acc <==> Covers(s.held, x)))
  }

  lemma CoversConcat(a: seq<Range>, b: seq<Range>, x: int)
    ensures Covers(a + b, x) <==> Covers(a, x) || Covers(b, x)
  {
    var c := a + b;
    if Covers(c, x) {
      var i :| 0 <= i < |c| && c[i].lo <= x < c[i].hi;
      if i < |a| {
        assert a[i] == c[i];
      } else {
        assert b[i - |a|] == c[i];
      }
    }
    if Covers(a, x) {
      var i :| 0 <= i < |a| && a[i].lo <= x < a[i].hi;
      assert c[i] == a[i];
    }
    if Covers(b, x) {
      var i :| 0 <= i < |b| && b[i].lo <= x < b[i].hi;
      assert c[|a| + i] == b[i];
    }
  }

  lemma {:induction false} TrimKeepsRest(q: seq<Range>, hi: int)
    requires Tidy(q)
    ensures Tidy(TrimSuccessors(q, hi)) && Above(TrimSuccessors(q, hi), hi - 1)
    ensures forall x :: Covers(TrimSuccessors(q, hi), x) <==> Covers(q, x) && x >= hi
    decreases |q|
  {
    if q != [] {
      var r, rest := q[0], q[1..];
      assert q == [r] + rest;
      if hi <= r.lo {
        TrimNothing(q, hi);
      } else {
        if hi >= r.hi {
          TrimKeepsRest(rest, hi);
        }
        forall x
          ensures Covers(TrimSuccessors(q, hi), x) <==> Covers(q, x) && x >= hi
        {
          CoversCons(r, rest, x);
          CoversCons(Range(hi, r.hi), rest, x);
          if hi < r.hi && Covers(rest, x) {
            TidyRestAbove(q, x);
          }
        }
      }
    }
  }

  lemma TrimNothing(q: seq<Range>, hi: int)
    requires Tidy(q) && q != [] && hi <= q[0].lo
    ensures Above(q, hi - 1) && forall x :: Covers(q, x) ==> x >= hi
  {
    forall i | 0 <= i < |q|
      ensures hi <= q[i].lo
    {
    }
  }

  lemma TidyRestAbove(q: seq<Range>, x: int)
    requires Tidy(q) && q != [] && Covers(q[1..], x)
    ensures x >= q[0].hi
  {
    var i :| 0 <= i < |q[1..]| && q[1..][i].lo <= x < q[1..][i].hi;
    assert q[i + 1] == q[1..][i];
  }

  lemma TidyConcat(a: seq<Range>, r: Range, b: seq<Range>)
    requires Tidy(a) && Tidy(b) && r.lo < r.hi && Above(b, r.hi - 1)
    requires a != [] ==> a[|a| - 1].hi <= r.lo
    ensures Tidy(a + [r] + b)
  {
    var c := a + [r] + b;
    assert forall i :: 0 <= i < |a| ==> a[i].hi <= r.lo;
    forall i, j | 0 <= i < j < |c|
      ensures c[i].hi <= c[j].lo
    {
      if j > |a| {
        assert c[j] == b[j - |a| - 1];
        if i > |a| {
          assert c[i] == b[i - |a| - 1];
        }
      }
    }
  }

  lemma TidyParts(q: seq<Range>, k: nat)
    requires Tidy(q) && k <= |q|
    ensures Tidy(q[..k]) && Tidy(q[k..]) && q == q[..k] + q[k..]
  {
  }

  /** Insertion keeps the queue sorted and disjoint. */
  lemma InsertTidy(q: seq<Range>, lo: int, hi: int)
    requires Tidy(q) && lo < hi
    ensures Tidy(Insert(q, lo, hi))
  {
    var k := Place(q, lo);
    var lo' := if k > 0 && q[k - 1].hi > lo then q[k - 1].hi else lo;
    if lo' < hi {
      InsertTidyAt(q, k, Range(lo', hi));
    }
  }

  lemma InsertTidyAt(q: seq<Range>, k: nat, r: Range)
    requires Tidy(q) && k <= |q| && r.lo < r.hi && (k > 0 ==> q[k - 1].hi <= r.lo)
    ensures Tidy(q[..k] + [r] + TrimSuccessors(q[k..], r.hi))
  {
    TidyParts(q, k);
    TrimKeepsRest(q[k..], r.hi);
    TidyConcat(q[..k], r, TrimSuccessors(q[k..], r.hi));
  }

  /** Insertion adds exactly the segment's bytes. */
  lemma InsertIsUnion(q: seq<Range>, lo: int, hi: int, x: int)
    requires Tidy(q) && lo < hi
    ensures Covers(Insert(q, lo, hi), x) <==> Covers(q, x) || lo <= x < hi
  {
    var k := Place(q, lo);
    var lo' := if k > 0 && q[k - 1].hi > lo then q[k - 1].hi else lo;
    if lo' < hi {
      InsertAtCovers(q, lo, Range(lo', hi), k, x);
    }
  }

  lemma {:induction false} InsertAtCovers(q: seq<Range>, lo: int, r: Range, k: nat, x: int)
    requires Tidy(q) && lo < r.hi && k == Place(q, lo) && r.lo < r.hi
    requires r.lo == if k > 0 && q[k - 1].hi > lo then q[k - 1].hi else lo
    ensures Covers(InsertAt(q, k, r), x) <==> Covers(q, x) || lo <= x < r.hi
  {
    TidyParts(q, k);
    TrimKeepsRest(q[k..], r.hi);
    InsertCovers(q, lo, r.hi, k, r.lo, TrimSuccessors(q[k..], r.hi), x);
  }

  lemma {:induction false} InsertCovers(q: seq<Range>, lo: int, hi: int, k: nat, lo': int, rest: seq<Range>, x: int)
    requires Tidy(q) && lo < hi && k == Place(q, lo)
    requires lo' == (if k > 0 && q[k - 1].hi > lo then q[k - 1].hi else lo) && lo' < hi
    requires forall y :: Covers(rest, y) <==> Covers(q[k..], y) && y >= hi
    ensures Covers(q[..k] + [Range(lo', hi)] + rest, x) <==> Covers(q, x) || lo <= x < hi
  {
    CoversConcat(q[..k] + [Range(lo', hi)], rest, x);
    CoversConcat(q[..k], [Range(lo', hi)], x);
    CoversConcat(q[..k], q[k..], x);
    assert q == q[..k] + q[k..];
    CoversCons(Range(lo', hi), [], x);
    assert [Range(lo', hi)] + [] == [Range(lo', hi)];
    SuccessorsBeyond(q, lo, k, x);
    PredecessorReaches(q, lo, k, x);
  }

  lemma {:induction false} SuccessorsBeyond(q: seq<Range>, lo: int, k: nat, x: int)
    requires Tidy(q) && k == Place(q, lo)
    ensures Covers(q[k..], x) ==> lo < x && (k > 0 ==> q[k - 1].hi <= x)
  {
    if Covers(q[k..], x) {
      var i :| 0 <= i < |q[k..]| && q[k..][i].lo <= x < q[k..][i].hi;
      assert q[k + i] == q[k..][i] && q[k].lo <= q[k + i].lo;
    }
  }

  lemma {:induction false} PredecessorReaches(q: seq<Range>, lo: int, k: nat, x: int)
    requires Tidy(q) && k == Place(q, lo)
    ensures k > 0 && lo <= x < q[k - 1].hi ==> Covers(q[..k], x)
  {
    if k > 0 && lo <= x < q[k - 1].hi {
      assert q[..k][k - 1].lo <= x < q[..k][k - 1].hi;
    }
  }

  /** What presentation works on: the frontier may be continued by the queue. */
  ghost predicate Pending(base: int, acc: iset<int>, s: Stream) {
    && base <= s.nxt
    && (forall x :: base <= x < s.nxt ==> x in acc)
    && Tidy(s.held) && Above(s.held, s.nxt - 1)
    && (forall x :: s.nxt <= x ==> (x in acc <==> Covers(s.held, x)))
  }

  lemma {:induction false} PresentStands(base: int, acc: iset<int>, nxt: int, q: seq<Range>)
    requires Pending(base, acc, Stream(nxt, q))
    ensures StandsTidy(base, acc, Present(nxt, q)) && nxt <= Present(nxt, q).nxt
    decreases |q|
  {
    if q != [] && q[0].lo == nxt {
      assert q == [q[0]] + q[1..];
      forall x | nxt <= x
        ensures x in acc <==> x < q[0].hi || Covers(q[1..], x)
      {
        CoversCons(q[0], q[1..], x);
      }
      PresentStands(base, acc, q[0].hi, q[1..]);
    } else {
      assert Above(q, nxt) by {
        forall i | 0 <= i < |q|
          ensures nxt < q[i].lo
        {
          assert i > 0 ==> q[0].hi <= q[i].lo;
        }
      }
      assert !Covers(q, nxt);
    }
  }

  /** The queue after one segment that does not start below the frontier. */
  lemma ReassStands(base: int, acc: iset<int>, s: Stream, pos: int, len: int)
    requires StandsTidy(base, acc, s) && s.nxt <= pos && len > 0
    ensures StandsTidy(base, acc + Bytes(pos, len), Reass(s, pos, len))
  {
    InsertPending(base, acc, s, pos, len);
    PresentStands(base, acc + Bytes(pos, len), s.nxt, Insert(s.held, pos, pos + len));
  }

  lemma InsertPending(base: int, acc: iset<int>, s: Stream, pos: int, len: int)
    requires StandsTidy(base, acc, s) && s.nxt <= pos && len > 0
    ensures Pending(base, acc + Bytes(pos, len), Stream(s.nxt, Insert(s.held, pos, pos + len)))
  {
    InsertTidy(s.held, pos, pos + len);
    var q := Insert(s.held, pos, pos + len);
    forall x
      ensures Covers(q, x) <==> Covers(s.held, x) || pos <= x < pos + len
    {
      InsertIsUnion(s.held, pos, pos + len, x);
    }
    UnionPending(base, acc, s, pos, len, q);
  }

  lemma UnionPending(base: int, acc: iset<int>, s: Stream, pos: int, len: int, q: seq<Range>)
    requires StandsTidy(base, acc, s) && s.nxt <= pos && len > 0 && Tidy(q)
    requires forall x :: Covers(q, x) <==> Covers(s.held, x) || pos <= x < pos + len
    ensures Pending(base, acc + Bytes(pos, len), Stream(s.nxt, q))
  {
    assert !Covers(s.held, s.nxt);
    forall i | 0 <= i < |q|
      ensures s.nxt - 1 < q[i].lo
    {
      assert Covers(q, q[i].lo);
      assert Covers(s.held, q[i].lo) ==> s.nxt < q[i].lo;
    }
  }

  /** Called directly, the queue is exact for a segment if and only if the segment does not
      start below the frontier: one that does is queued below it and blocks presentation. */
  lemma ReassExactlyAbove(base: int, acc: iset<int>, s: Stream, pos: int, len: int)
    requires StandsTidy(base, acc, s) && len > 0
    ensures StandsTidy(base, acc + Bytes(pos, len), Reass(s, pos, len)) <==> s.nxt <= pos
  {
    if s.nxt <= pos {
      ReassStands(base, acc, s, pos, len);
    } else {
      assert Place(s.held, pos) == 0;
      var q := Insert(s.held, pos, pos + len);
      assert q[0] == Range(pos, pos + len);
      assert Present(s.nxt, q) == Stream(s.nxt, q);
    }
  }

  /** The input path is exact for every segment. */
  lemma InputStands(base: int, acc: iset<int>, s: Stream, pos: int, len: nat)
    requires StandsTidy(base, acc, s)
    ensures StandsTidy(base, acc + Bytes(pos, len), Input(s, pos, len))
  {
    var p, l := First(s.nxt, pos, len), Left(s.nxt, pos, len);
    if l == 0 {
      OldBytesAdd(base, acc, s, pos, len);
      SameAboveStands(base, acc, acc + Bytes(pos, len), s);
    } else {
      DirectIsReass(s, p, l);
      assert Input(s, pos, len) == Reass(s, p, l);
      TrimmedReassStands(base, acc, s, pos, len, p, l);
    }
  }

  lemma TrimmedReassStands(base: int, acc: iset<int>, s: Stream, pos: int, len: int, p: int, l: int)
    requires StandsTidy(base, acc, s) && pos <= p && l > 0 && p + l == pos + len
    requires s.nxt <= p && (pos < p ==> p == s.nxt)
    ensures StandsTidy(base, acc + Bytes(pos, len), Reass(s, p, l))
  {
    ReassStands(base, acc, s, p, l);
    TrimmedBytesAdd(base, acc, s, pos, len, p, l);
    SameAboveStands(base, acc + Bytes(p, l), acc + Bytes(pos, len), Reass(s, p, l));
  }

  /** The direct path does what queueing and presenting would do. */
  lemma DirectIsReass(s: Stream, pos: int, len: int)
    requires len > 0
    ensures pos == s.nxt && s.held == [] ==> Reass(s, pos, len) == Stream(s.nxt + len, [])
  {
    if pos == s.nxt && s.held == [] {
      var q := [Range(pos, pos + len)];
      assert Place([], pos) == 0 && TrimSuccessors([], pos + len) == [];
      assert [][..0] + q + [] == q;
      assert Insert(s.held, pos, pos + len) == q;
      assert q[1..] == [];
      assert Present(s.nxt, q) == Present(pos + len, []);
    }
  }

  ghost predicate SameAbove(base: int, a: iset<int>, b: iset<int>) {
    forall x :: base <= x ==> (x in a <==> x in b)
  }

  lemma SameAboveStands(base: int, a: iset<int>, b: iset<int>, s: Stream)
    requires SameAbove(base, a, b) && StandsTidy(base, a, s)
    ensures StandsTidy(base, b, s)
  {
  }

  lemma OldBytesAdd(base: int, acc: iset<int>, s: Stream, pos: int, len: int)
    requires StandsTidy(base, acc, s) && (len == 0 || pos + len <= s.nxt)
    ensures SameAbove(base, acc, acc + Bytes(pos, len))
  {
  }

  lemma TrimmedBytesAdd(base: int, acc: iset<int>, s: Stream, pos: int, len: int, p: int, l: int)
    requires StandsTidy(base, acc, s) && pos <= p && p + l == pos + len && (pos < p ==> p <= s.nxt)
    ensures SameAbove(base, acc + Bytes(p, l), acc + Bytes(pos, len))
  {
    forall x | base <= x
      ensures x in acc + Bytes(p, l) <==> x in acc + Bytes(pos, len)
    {
      assert pos <= x < p ==> x in acc;
    }
  }

  // ---------------------------------------------------------------- in sequence space

  datatype Entry = Entry(sq: u32, len: int)

  datatype Queue = Queue(rcvNxt: u32, segq: seq<Entry>)

  function End32(e: Entry): u32 {
    Wrap(e.sq + e.len)
  }

  /** The entry without its first i bytes. */
  function Behead32(e: Entry, i: int): Entry {
    Entry(Wrap(e.sq + i), e.len - i)
  }

  function Place32(q: seq<Entry>, sq: u32): (k: nat)
    ensures k <= |q|
  {
    if q == [] || SeqGt(q[0].sq, sq) then 0 else 1 + Place32(q[1..], sq)
  }

  function TrimSuccessors32(q: seq<Entry>, end: u32): seq<Entry> {
    if q == [] then q
    else
      var i := Diff(end, q[0].sq);
      if i <= 0 then q
      else if i < q[0].len then [Behead32(q[0], i)] + q[1..]
      else TrimSuccessors32(q[1..], end)
  }

  /** How much of a segment at sq the entry before it already holds. */
  function Overlap32(q: seq<Entry>, k: nat, sq: u32): int
    requires k <= |q|
  {
    if k == 0 then 0 else Diff(End32(q[k - 1]), sq)
  }

  function Insert32(q: seq<Entry>, sq: u32, len: int): seq<Entry> {
    var k := Place32(q, sq);
    var i := Overlap32(q, k, sq);
    if i > 0 && i >= len then q
    else
      var te := if i > 0 then Behead32(Entry(sq, len), i) else Entry(sq, len);
      InsertAt32(q, k, te)
  }

  function InsertAt32(q: seq<Entry>, k: nat, te: Entry): seq<Entry>
    requires k <= |q|
  {
    q[..k] + [te] + TrimSuccessors32(q[k..], End32(te))
  }

  function Present32(nxt: u32, q: seq<Entry>): Queue
    decreases |q|
  {
    if q != [] && q[0].sq == nxt then Present32(Wrap(nxt + q[0].len), q[1..]) else Queue(nxt, q)
  }

  function Reass32(s: Queue, sq: u32, len: int): Queue {
    Present32(s.rcvNxt, Insert32(s.segq, sq, len))
  }

  function Input32(s: Queue, sq: u32, len: int): Queue {
    Take32(s, First32(s.rcvNxt, sq, len), Left32(s.rcvNxt, sq, len))
  }

  function First32(nxt: u32, sq: u32, len: int): u32 {
    Wrap(sq + Old32(nxt, sq, len))
  }

  function Left32(nxt: u32, sq: u32, len: int): int {
    len - Old32(nxt, sq, len)
  }

  function Old32(nxt: u32, sq: u32, len: int): int {
    var todrop := Diff(nxt, sq);
    if todrop <= 0 then 0 else if todrop < len then todrop else len
  }

  function Take32(s: Queue, sq: u32, len: int): Queue {
    if len == 0 then s
    else if sq == s.rcvNxt && s.segq == [] then Queue(Wrap(s.rcvNxt + len), [])
    else Reass32(s, sq, len)
  }

  function EncodeEntry(r: Range): Entry {
    Entry(Wrap(r.lo), r.hi - r.lo)
  }

  function EncodeQueue(q: seq<Range>): (e: seq<Entry>)
    ensures |e| == |q| && forall i :: 0 <= i < |q| ==> e[i] == EncodeEntry(q[i])
  {
    if q == [] then [] else [EncodeEntry(q[0])] + EncodeQueue(q[1..])
  }

  function EncodeState(s: Stream): Queue {
    Queue(Wrap(s.nxt), EncodeQueue(s.held))
  }

  lemma {:induction false} PlaceSim(f: int, q: seq<Range>, lo: int)
    requires Reassembling.Live(f, q) && f <= lo < f + HALF
    ensures Place32(EncodeQueue(q), Wrap(lo)) == Place(q, lo)
    decreases |q|
  {
    if q != [] {
      assert Reassembling.LiveRange(f, q[0]);
      assert EncodeQueue(q)[1..] == EncodeQueue(q[1..]);
      Reassembling.LiveCompare(f, q[0].lo, lo);
      PlaceSim(f, q[1..], lo);
    }
  }

  lemma EndSim(r: Range)
    ensures End32(EncodeEntry(r)) == Wrap(r.hi)
  {
    WrapOfSum(r.lo, r.hi - r.lo);
  }

  lemma BeheadSim(lo: int, mid: int, hi: int)
    ensures Behead32(EncodeEntry(Range(lo, hi)), mid - lo) == EncodeEntry(Range(mid, hi))
  {
    WrapOfSum(lo, mid - lo);
  }

  lemma {:induction false} TrimSim(f: int, q: seq<Range>, hi: int)
    requires Reassembling.Live(f, q) && f <= hi < f + HALF
    ensures TrimSuccessors32(EncodeQueue(q), Wrap(hi)) == EncodeQueue(TrimSuccessors(q, hi))
    decreases |q|
  {
    if q != [] {
      var r, rest, e := q[0], q[1..], Wrap(hi);
      assert Reassembling.LiveRange(f, r);
      assert EncodeQueue(q)[1..] == EncodeQueue(rest) && EncodeQueue(q)[0] == EncodeEntry(r);
      DiffInWindow(hi, r.lo);
      assert Diff(e, EncodeEntry(r).sq) == hi - r.lo;
      if hi <= r.lo {
      } else if hi < r.hi {
        BeheadSim(r.lo, hi, r.hi);
        EncodeJoin([], Range(hi, r.hi), rest);
        assert [] + [Range(hi, r.hi)] + rest == [Range(hi, r.hi)] + rest;
      } else {
        TrimSim(f, rest, hi);
      }
    }
  }

  lemma {:induction false} TrimLive(f: int, q: seq<Range>, hi: int)
    requires Reassembling.Live(f, q) && f <= hi < f + HALF
    ensures Reassembling.Live(f, TrimSuccessors(q, hi))
    decreases |q|
  {
    if q != [] {
      assert Reassembling.LiveRange(f, q[0]);
      TrimLive(f, q[1..], hi);
    }
  }

  lemma {:induction false} EncodeFront(q: seq<Range>, k: nat)
    requires k <= |q|
    ensures EncodeQueue(q)[..k] == EncodeQueue(q[..k])
  {
  }

  lemma {:induction false} EncodeBack(q: seq<Range>, k: nat)
    requires k <= |q|
    ensures EncodeQueue(q)[k..] == EncodeQueue(q[k..])
  {
  }

  lemma {:induction false} EncodeJoin(a: seq<Range>, r: Range, b: seq<Range>)
    ensures EncodeQueue(a + [r] + b) == EncodeQueue(a) + [EncodeEntry(r)] + EncodeQueue(b)
  {
  }

  lemma {:induction false} OverlapSim(f: int, q: seq<Range>, k: nat, lo: int)
    requires Reassembling.Live(f, q) && f <= lo < f + HALF && k <= |q|
    ensures Overlap32(EncodeQueue(q), k, Wrap(lo)) == if k == 0 then 0 else q[k - 1].hi - lo
  {
    if k > 0 {
      var r := q[k - 1];
      assert Reassembling.LiveRange(f, r);
      assert EncodeQueue(q)[k - 1] == EncodeEntry(r);
      EndSim(r);
      DiffInWindow(r.hi, lo);
    }
  }

  lemma {:induction false} InsertSim(f: int, q: seq<Range>, lo: int, len: int)
    requires Reassembling.Live(f, q) && f <= lo && 0 < len && lo + len < f + HALF
    ensures Insert32(EncodeQueue(q), Wrap(lo), len) == EncodeQueue(Joined(q, lo, len))
  {
    var k := Place(q, lo);
    PlaceSim(f, q, lo);
    OverlapSim(f, q, k, lo);
    var i := Overlap32(EncodeQueue(q), k, Wrap(lo));
    if i < len {
      NewEntryInserted(f, q, lo, len, k, i, Range(if k > 0 && q[k - 1].hi > lo then q[k - 1].hi else lo, lo + len));
    }
  }

  lemma {:induction false} NewEntryInserted(f: int, q: seq<Range>, lo: int, len: int, k: nat, i: int, r: Range)
    requires Reassembling.Live(f, q) && f <= lo && 0 < len && lo + len < f + HALF
    requires k == Place(q, lo) == Place32(EncodeQueue(q), Wrap(lo)) && i == Overlap32(EncodeQueue(q), k, Wrap(lo)) < len
    requires r == Range(if k > 0 && q[k - 1].hi > lo then q[k - 1].hi else lo, lo + len)
    requires i == if k == 0 then 0 else q[k - 1].hi - lo
    ensures Insert32(EncodeQueue(q), Wrap(lo), len) == EncodeQueue(Joined(q, lo, len))
  {
    NewEntrySim(lo, len, i, r);
    InsertParts(f, q, k, r);
    JoinedIs(q, lo, len, k, r);
    Insert32Is(EncodeQueue(q), Wrap(lo), len, k, i);
  }

  lemma {:induction false} JoinedIs(q: seq<Range>, lo: int, len: int, k: nat, r: Range)
    requires k == Place(q, lo) && r.lo < r.hi
    requires r == Range(if k > 0 && q[k - 1].hi > lo then q[k - 1].hi else lo, lo + len)
    ensures Joined(q, lo, len) == InsertAt(q, k, r)
  {
  }

  lemma {:induction false} Insert32Is(q: seq<Entry>, sq: u32, len: int, k: nat, i: int)
    requires k == Place32(q, sq) && i == Overlap32(q, k, sq) < len
    ensures Insert32(q, sq, len) == InsertAt32(q, k, if i > 0 then Behead32(Entry(sq, len), i) else Entry(sq, len))
  {
  }

  lemma NewEntrySim(lo: int, len: int, i: int, r: Range)
    requires r == Range(if i > 0 then lo + i else lo, lo + len)
    ensures var te := if i > 0 then Behead32(Entry(Wrap(lo), len), i) else Entry(Wrap(lo), len);
            te == EncodeEntry(r)
  {
    BeheadSim(lo, r.lo, lo + len);
  }

  lemma {:induction false} InsertParts(f: int, q: seq<Range>, k: nat, r: Range)
    requires Reassembling.Live(f, q) && f <= r.hi < f + HALF && k <= |q|
    ensures InsertAt32(EncodeQueue(q), k, EncodeEntry(r)) == EncodeQueue(InsertAt(q, k, r))
  {
    EncodeFront(q, k);
    EncodeBack(q, k);
    EndSim(r);
    TrimSim(f, q[k..], r.hi);
    EncodeJoin(q[..k], r, TrimSuccessors(q[k..], r.hi));
  }

  lemma InsertLive(f: int, q: seq<Range>, lo: int, len: int)
    requires Reassembling.Live(f, q) && f <= lo && 0 < len && lo + len < f + HALF
    ensures Reassembling.Live(f, Joined(q, lo, len))
  {
    var k := Place(q, lo);
    assert k > 0 ==> Reassembling.LiveRange(f, q[k - 1]);
    TrimLive(f, q[k..], lo + len);
  }

  lemma {:induction false} EncodeCons(q: seq<Range>)
    requires q != []
    ensures EncodeQueue(q) != [] && EncodeQueue(q)[0] == EncodeEntry(q[0])
    ensures EncodeQueue(q)[1..] == EncodeQueue(q[1..])
  {
  }

  lemma SameWrap(f: int, a: int, b: int)
    requires f <= a < f + HALF && f <= b < f + HALF
    ensures Wrap(a) == Wrap(b) <==> a == b
  {
    DiffInWindow(a, b);
    SmallWrap(0);
  }

  lemma {:induction false} PresentSim(f: int, nxt: int, q: seq<Range>)
    requires Reassembling.Live(f, q) && f <= nxt < f + HALF
    ensures Present32(Wrap(nxt), EncodeQueue(q)) == EncodeState(Present(nxt, q))
    decreases |q|
  {
    if q != [] {
      var r, rest := q[0], q[1..];
      assert Reassembling.LiveRange(f, r);
      EncodeCons(q);
      SameWrap(f, r.lo, nxt);
      if r.lo == nxt {
        EndSim(r);
        PresentSim(f, r.hi, rest);
      }
    }
  }

  lemma {:induction false} PresentLive(f: int, nxt: int, q: seq<Range>)
    requires Reassembling.Live(f, q) && f <= nxt < f + HALF
    ensures Reassembling.Live(f, Present(nxt, q).held) && f <= Present(nxt, q).nxt < f + HALF
    decreases |q|
  {
    if q != [] && q[0].lo == nxt {
      assert Reassembling.LiveRange(f, q[0]);
      PresentLive(f, q[0].hi, q[1..]);
    }
  }

  /** The segment starts and ends within 2^31 of the frontier. */
  ghost predicate InWindow(f: int, pos: int, len: int) {
    f - HALF < pos && pos + len < f + HALF
  }

  lemma InputSim(s: Stream, pos: int, len: nat)
    requires Reassembling.Live(s.nxt, s.held) && InWindow(s.nxt, pos, len)
    ensures Input32(EncodeState(s), Wrap(pos), len) == EncodeState(Input(s, pos, len))
    ensures Reassembling.Live(s.nxt, Input(s, pos, len).held)
  {
    OldSim(s.nxt, pos, len);
    TakeSim(s, First(s.nxt, pos, len), Left(s.nxt, pos, len));
  }

  lemma OldSim(nxt: int, pos: int, len: nat)
    requires InWindow(nxt, pos, len)
    ensures First32(Wrap(nxt), Wrap(pos), len) == Wrap(First(nxt, pos, len))
    ensures Left32(Wrap(nxt), Wrap(pos), len) == Left(nxt, pos, len)
    ensures var p, l := First(nxt, pos, len), Left(nxt, pos, len);
            0 <= l && (l > 0 ==> nxt <= p && p + l < nxt + HALF)
  {
    DiffInWindow(nxt, pos);
    WrapOfSum(pos, Old(nxt, pos, len));
  }

  /** The trimmed segment is taken directly or queued, alike in both readings. */
  lemma TakeSim(s: Stream, p: int, l: int)
    requires Reassembling.Live(s.nxt, s.held) && 0 <= l && (l > 0 ==> s.nxt <= p && p + l < s.nxt + HALF)
    ensures Take32(EncodeState(s), Wrap(p), l) == EncodeState(Take(s, p, l))
    ensures Reassembling.Live(s.nxt, Take(s, p, l).held)
  {
    if l > 0 {
      SameWrap(s.nxt, p, s.nxt);
      if p == s.nxt && s.held == [] {
        WrapOfSum(s.nxt, l);
      } else {
        ReassSim(s, p, l);
        ReassLive(s, p, l);
      }
    }
  }

  lemma ReassSim(s: Stream, p: int, l: int)
    requires Reassembling.Live(s.nxt, s.held) && s.nxt <= p && l > 0 && p + l < s.nxt + HALF
    ensures Reass32(EncodeState(s), Wrap(p), l) == EncodeState(Reass(s, p, l))
  {
    InsertSim(s.nxt, s.held, p, l);
    InsertLive(s.nxt, s.held, p, l);
    InsertedSim(s, p, l, Joined(s.held, p, l));
  }

  lemma {:induction false} InsertedSim(s: Stream, p: int, l: int, q: seq<Range>)
    requires Reassembling.Live(s.nxt, q) && Insert32(EncodeQueue(s.held), Wrap(p), l) == EncodeQueue(q)
    ensures Reass32(EncodeState(s), Wrap(p), l) == EncodeState(Present(s.nxt, q))
  {
    PresentSim(s.nxt, s.nxt, q);
  }

  lemma ReassLive(s: Stream, p: int, l: int)
    requires Reassembling.Live(s.nxt, s.held) && s.nxt <= p && l > 0 && p + l < s.nxt + HALF
    ensures Reassembling.Live(s.nxt, Reass(s, p, l).held)
  {
    InsertLive(s.nxt, s.held, p, l);
    PresentLive(s.nxt, s.nxt, Joined(s.held, p, l));
  }

  // ------------------------------------------------------------- the two receivers agree

  function PlayInput(s: Stream, evs: seq<Reassembling.Segment>): Stream
    decreases |evs|
  {
    if evs == [] then s else PlayInput(Input(s, evs[0].pos, evs[0].len), evs[1..])
  }

  function PlayInput32(s: Queue, evs: seq<Reassembling.Segment>): Queue
    decreases |evs|
  {
    if evs == [] then s else PlayInput32(Input32(s, Wrap(evs[0].pos), evs[0].len), evs[1..])
  }

  /** Every segment arrives within 2^31 of the frontier of its time. */
  ghost predicate AllInWindow(s: Stream, evs: seq<Reassembling.Segment>)
    decreases |evs|
  {
    evs == [] || (InWindow(s.nxt, evs[0].pos, evs[0].len) && AllInWindow(Input(s, evs[0].pos, evs[0].len), evs[1..]))
  }

  ghost predicate Good(base: int, acc: iset<int>, s: Stream) {
    StandsTidy(base, acc, s) && Reassembling.Live(s.nxt, s.held)
  }

  lemma InputGood(base: int, acc: iset<int>, s: Stream, pos: int, len: nat)
    requires Good(base, acc, s) && InWindow(s.nxt, pos, len)
    ensures Good(base, acc + Bytes(pos, len), Input(s, pos, len))
    ensures Input32(EncodeState(s), Wrap(pos), len) == EncodeState(Input(s, pos, len))
  {
    InputStands(base, acc, s, pos, len);
    InputSim(s, pos, len);
    var t := Input(s, pos, len);
    assert s.nxt <= t.nxt by {
      assert t.nxt < s.nxt ==> t.nxt in acc + Bytes(pos, len);
    }
    forall i | 0 <= i < |t.held|
      ensures Reassembling.LiveRange(t.nxt, t.held[i])
    {
      assert Reassembling.LiveRange(s.nxt, t.held[i]);
    }
  }

  lemma {:induction false} PlayInputGood(base: int, acc: iset<int>, s: Stream, evs: seq<Reassembling.Segment>)
    requires Good(base, acc, s) && AllInWindow(s, evs)
    ensures Good(base, acc + Reassembling.Covered(evs), PlayInput(s, evs))
    ensures PlayInput32(EncodeState(s), evs) == EncodeState(PlayInput(s, evs))
    decreases |evs|
  {
    if evs == [] {
      assert acc + iset{} == acc;
    } else {
      var e := evs[0];
      InputGood(base, acc, s, e.pos, e.len);
      PlayInputGood(base, acc + Bytes(e.pos, e.len), Input(s, e.pos, e.len), evs[1..]);
      assert acc + Bytes(e.pos, e.len) + Reassembling.Covered(evs[1..]) == acc + Reassembling.Covered(evs);
    }
  }

  /** What both receivers determine: the frontier and the bytes held beyond it. */
  lemma SameBytesSameView(base: int, acc: iset<int>, s: Stream, t: Stream)
    requires Stands(base, acc, s) && StandsTidy(base, acc, t)
    ensures s.nxt == t.nxt && forall x :: Covers(s.held, x) <==> Covers(t.held, x)
  {
    assert s.nxt == t.nxt;
    forall x
      ensures Covers(s.held, x) ==> s.nxt < x
      ensures Covers(t.held, x) ==> t.nxt < x
    {
    }
  }

  /** A run within the kernel's window is within the other receiver's too. */
  lemma {:induction false} KernelWindowSuffices(base: int, acc: iset<int>, s: Stream, t: Stream, evs: seq<Reassembling.Segment>)
    requires Good(base, acc, s) && Reassembling.Good(base, acc, t) && AllInWindow(s, evs)
    ensures Reassembling.AllInWindow(t, evs)
    decreases |evs|
  {
    SameBytesSameView(base, acc, t, s);
    if evs != [] {
      var e := evs[0];
      InputGood(base, acc, s, e.pos, e.len);
      Reassembling.AcceptGood(base, acc, t, e.pos, e.len);
      KernelWindowSuffices(base, acc + Bytes(e.pos, e.len), Input(s, e.pos, e.len), Accept(t, e.pos, e.len), evs[1..]);
    }
  }

  /** Two reassemblers agree: after every run of segments within the window, the kernel's queue
      and the interval set have the same frontier and hold the same bytes. */
  lemma {:induction false} ReceiversAgree(base: int, evs: seq<Reassembling.Segment>)
    requires AllInWindow(Stream(base, []), evs)
    ensures var kernel, peer := PlayInput(Stream(base, []), evs), Reassembling.Play(Stream(base, []), evs);
            && PlayInput32(Queue(Wrap(base), []), evs) == EncodeState(kernel)
            && Reassembling.Play32(Reassembling.Core(Wrap(base), []), evs) == Reassembling.Encode(peer)
            && Tidy(kernel.held) && kernel.nxt == peer.nxt
            && PlayInput32(Queue(Wrap(base), []), evs).rcvNxt ==
               Reassembling.Play32(Reassembling.Core(Wrap(base), []), evs).rcvNxt
            && forall x :: Covers(kernel.held, x) <==> Covers(peer.held, x)
  {
    var acc := Reassembling.Covered(evs);
    KernelWindowSuffices(base, iset{}, Stream(base, []), Stream(base, []), evs);
    Reassembling.RunRefinesBytes(base, evs);
    assert EncodeState(Stream(base, [])) == Queue(Wrap(base), []);
    PlayInputGood(base, iset{}, Stream(base, []), evs);
    assert iset{} + acc == acc;
    SameBytesSameView(base, acc, Reassembling.Play(Stream(base, []), evs), PlayInput(Stream(base, []), evs));
  }

  // ------------------------------------------------------------------ the kernel object

  class TcpInput {
    var rcvNxt: u32
    var segq: seq<Entry>

    constructor (rcvNxt: u32)
      ensures State() == Queue(rcvNxt, [])
    {
      this.rcvNxt, segq := rcvNxt, [];
    }

    function State(): Queue
      reads this
    {
      Queue(rcvNxt, segq)
    }

    /** Queues a segment and presents what continues the frontier. */
    method TcpReass(sq: u32, len: int)
      modifies this
      ensures State() == Reass32(old(State()), sq, len)
    {
      var k := 0;
      while k < |segq| && !SeqGt(segq[k].sq, sq)
        invariant k <= |segq| && Place32(segq, sq) == k + Place32(segq[k..], sq)
      {
        assert segq[k..][1..] == segq[k + 1..];
        k := k + 1;
      }
      var i := Overlap32(segq, k, sq);
      if i <= 0 || i < len {
        var te := if i > 0 then Behead32(Entry(sq, len), i) else Entry(sq, len);
        var rest := DequeueCovered(segq[k..], End32(te));
        segq := segq[..k] + [te] + rest;
      }
      PresentQueue();
    }

    method PresentQueue()
      modifies this
      ensures State() == Present32(old(rcvNxt), old(segq))
    {
      while segq != [] && segq[0].sq == rcvNxt
        invariant Present32(rcvNxt, segq) == Present32(old(rcvNxt), old(segq))
        decreases |segq|
      {
        rcvNxt, segq := Wrap(rcvNxt + segq[0].len), segq[1..];
      }
    }

    /** A data segment on an established connection. */
    method Receive(sq: u32, len: nat)
      modifies this
      ensures State() == Input32(old(State()), sq, len)
    {
      var start, tlen := sq, len;
      var todrop := Diff(rcvNxt, sq);
      if todrop > 0 {
        todrop := if todrop < len then todrop else len;
        start, tlen := Wrap(sq + todrop), len - todrop;
      }
      assert tlen == Left32(rcvNxt, sq, len);
      assert start == First32(rcvNxt, sq, len);
      if tlen != 0 {
        if start == rcvNxt && segq == [] {
          rcvNxt := Wrap(rcvNxt + tlen);
        } else {
          TcpReass(start, tlen);
        }
      }
    }
  }

  /** Removes or trims the entries a segment ending at `end` covers. */
  method DequeueCovered(q: seq<Entry>, end: u32) returns (rest: seq<Entry>)
    ensures rest == TrimSuccessors32(q, end)
  {
    rest := q;
    while rest != []
      invariant TrimSuccessors32(rest, end) == TrimSuccessors32(q, end)
      decreases |rest|
    {
      var i := Diff(end, rest[0].sq);
      if i <= 0 {
        return;
      }
      if i < rest[0].len {
        rest := [Behead32(rest[0], i)] + rest[1..];
        return;
      }
      rest := rest[1..];
    }
  }
}
