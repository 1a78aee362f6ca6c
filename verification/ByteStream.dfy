/** The receiver over unbounded stream offsets: a frontier and the runs held beyond it, the
    accepted bytes they stand for, and the merge-and-drain step on offsets. */
module ByteStream {
  datatype Range = Range(lo: int, hi: int)

  /** Everything below `nxt` delivered, `held` beyond it. */
  datatype Stream = Stream(nxt: int, held: seq<Range>)

  /** Non-empty, ascending, and separated by at least one missing byte. */
  ghost predicate Runs(h: seq<Range>) {
    && (forall i :: 0 <= i < |h| ==> h[i].lo < h[i].hi)
    && (forall i, j :: 0 <= i < j < |h| ==> h[i].hi < h[j].lo)
  }

  ghost predicate Covers(h: seq<Range>, x: int) {
    exists i :: 0 <= i < |h| && h[i].lo <= x < h[i].hi
  }

  /** All runs lie strictly above b. */
  ghost predicate Above(h: seq<Range>, b: int) {
    forall i :: 0 <= i < |h| ==> b < h[i].lo
  }

  /** All runs end at or below b. */
  ghost predicate Below(h: seq<Range>, b: int) {
    forall i :: 0 <= i < |h| ==> h[i].hi <= b
  }

  /** The state is what the accepted bytes determine: `nxt` is the first byte at or above
      `base` that is missing, and `held` are the maximal accepted runs above it. */
  ghost predicate Stands(base: int, acc: iset<int>, s: Stream) {
    && base <= s.nxt
    && (forall x :: base <= x < s.nxt ==> x in acc)
    && s.nxt !in acc
    && Runs(s.held) && Above(s.held, s.nxt)
    && (forall x :: s.nxt < x ==> (x in acc <==> Covers(s.held, x)))
  }

  ghost predicate Within(x: int, lo: int, hi: int) {
    lo <= x < hi
  }

  ghost function Between(lo: int, hi: int): iset<int> {
    iset x | Within(x, lo, hi)
  }

  /** The bytes of a segment. */
  ghost function Bytes(pos: int, len: int): iset<int> {
    Between(pos, pos + len)
  }

  lemma CoversCons(r: Range, t: seq<Range>, x: int)
    ensures Covers([r] + t, x) <==> r.lo <= x < r.hi || Covers(t, x)
  {
    var h := [r] + t;
    if Covers(h, x) {
      var i :| 0 <= i < |h| && h[i].lo <= x < h[i].hi;
      if i > 0 {
        assert t[i - 1].lo <= x < t[i - 1].hi;
      }
    }
    if Covers(t, x) {
      var i :| 0 <= i < |t| && t[i].lo <= x < t[i].hi;
      assert h[i + 1].lo <= x < h[i + 1].hi;
    }
    assert h[0] == r;
  }

  // ------------------------------------------------------------------------ uniqueness

  /** Two run lists that cover the same offsets above a bound are the same list. */
  lemma {:induction false} RunsUnique(a: seq<Range>, b: seq<Range>, f: int)
    requires Runs(a) && Runs(b) && Above(a, f) && Above(b, f)
    requires forall x :: f < x ==> (Covers(a, x) <==> Covers(b, x))
    ensures a == b
    decreases |a|
  {
    if a == [] {
      if b != [] {
        assert Covers(b, b[0].lo);
      }
    } else {
      assert Covers(a, a[0].lo);
      assert b != [];
      assert Covers(b, b[0].lo);
      FirstRunLeast(a, b[0].lo);
      FirstRunLeast(b, a[0].lo);
      assert a[0].lo == b[0].lo;
      RunEndMissing(a, 0);
      RunEndMissing(b, 0);
      var ea, eb := a[0].hi, b[0].hi;
      assert eb < ea ==> Covers(a, eb);
      assert ea < eb ==> Covers(b, ea);
      var f' := a[0].hi;
      forall x | f' < x
        ensures Covers(a[1..], x) <==> Covers(b[1..], x)
      {
        CoversCons(a[0], a[1..], x);
        CoversCons(b[0], b[1..], x);
        assert a == [a[0]] + a[1..] && b == [b[0]] + b[1..];
      }
      RunsUnique(a[1..], b[1..], f');
      assert a == [a[0]] + a[1..] && b == [b[0]] + b[1..];
    }
  }

  lemma FirstRunLeast(h: seq<Range>, x: int)
    requires Runs(h) && Covers(h, x)
    ensures h != [] && h[0].lo <= x
  {
    var i :| 0 <= i < |h| && h[i].lo <= x < h[i].hi;
    assert i == 0 || h[0].hi < h[i].lo;
  }

  lemma RunEndMissing(h: seq<Range>, i: nat)
    requires Runs(h) && i < |h|
    ensures !Covers(h, h[i].hi)
  {
    forall j | 0 <= j < |h|
      ensures !(h[j].lo <= h[i].hi < h[j].hi)
    {
      assert j < i ==> h[j].hi < h[i].lo;
      assert j > i ==> h[i].hi < h[j].lo;
    }
  }

  /** The accepted bytes determine the state. */
  lemma StandsUnique(base: int, acc1: iset<int>, acc2: iset<int>, s: Stream, t: Stream)
    requires Stands(base, acc1, s) && Stands(base, acc2, t)
    requires forall x :: base <= x ==> (x in acc1 <==> x in acc2)
    ensures s == t
  {
    assert s.nxt == t.nxt;
    RunsUnique(s.held, t.held, s.nxt);
  }

  // --------------------------------------------------------------------- merge and drain

  function Absorb(cur: Range, r: Range): Range {
    Range(if r.lo < cur.lo then r.lo else cur.lo, if r.hi > cur.hi then r.hi else cur.hi)
  }

  /** Folds `cur` into the held runs: runs that overlap or touch it are absorbed. */
  function Merge(held: seq<Range>, cur: Range, placed: bool): seq<Range> {
    if held == [] then
      if placed then [] else [cur]
    else
      var r, rest := held[0], held[1..];
      if r.hi < cur.lo then [r] + Merge(rest, cur, placed)
      else if r.lo > cur.hi then (if placed then [r] else [cur, r]) + Merge(rest, cur, true)
      else Merge(rest, Absorb(cur, r), placed)
  }

  /** Advances the frontier over the runs that have become contiguous with it. */
  function Drain(held: seq<Range>, nxt: int): Stream {
    if held == [] || held[0].lo > nxt then Stream(nxt, held)
    else Drain(held[1..], if held[0].hi > nxt then held[0].hi else nxt)
  }

  /** One segment. */
  function Accept(s: Stream, pos: int, len: int): Stream {
    if len == 0 || pos + len <= s.nxt then s
    else Drain(Merge(s.held, Range(if pos < s.nxt then s.nxt else pos, pos + len), false), s.nxt)
  }

  lemma {:induction false} MergePlaced(held: seq<Range>, cur: Range)
    requires Runs(held) && Above(held, cur.hi)
    ensures Merge(held, cur, true) == held
    decreases |held|
  {
    if held != [] {
      var r, rest := held[0], held[1..];
      RunsTail(held);
      MergePlaced(rest, cur);
      assert r.lo > cur.hi;
      assert held == [r] + rest;
    }
  }

  lemma RunsCons(r: Range, t: seq<Range>)
    requires r.lo < r.hi && Runs(t) && Above(t, r.hi)
    ensures Runs([r] + t)
  {
  }

  lemma RunsTail(h: seq<Range>)
    requires Runs(h) && h != []
    ensures Runs(h[1..]) && Above(h[1..], h[0].hi)
  {
  }

  /** m is a list of maximal runs between b and c covering what h covers and cur. */
  ghost predicate UnionOf(m: seq<Range>, h: seq<Range>, cur: Range, b: int, c: int) {
    && Runs(m) && Above(m, b) && Below(m, c)
    && forall x :: Covers(m, x) <==> Covers(h, x) || cur.lo <= x < cur.hi
  }

  lemma UnionKeepsFirst(r: Range, rest: seq<Range>, m: seq<Range>, cur: Range, b: int, c: int)
    requires r.lo < r.hi <= c && b < r.lo && UnionOf(m, rest, cur, r.hi, c)
    ensures UnionOf([r] + m, [r] + rest, cur, b, c)
  {
    RunsCons(r, m);
    forall x
      ensures Covers([r] + m, x) <==> Covers([r] + rest, x) || cur.lo <= x < cur.hi
    {
      CoversCons(r, m, x);
      CoversCons(r, rest, x);
    }
  }

  lemma UnionPlacesFirst(held: seq<Range>, cur: Range, b: int, c: int)
    requires Runs(held) && Above(held, cur.hi) && Below(held, c) && b < cur.lo < cur.hi <= c
    ensures UnionOf([cur] + held, held, cur, b, c)
  {
    RunsCons(cur, held);
    forall x
      ensures Covers([cur] + held, x) <==> Covers(held, x) || cur.lo <= x < cur.hi
    {
      CoversCons(cur, held, x);
    }
  }

  lemma UnionAbsorbs(r: Range, rest: seq<Range>, m: seq<Range>, cur: Range, b: int, c: int)
    requires UnionOf(m, rest, Absorb(cur, r), b, c) && cur.lo <= r.hi && r.lo <= cur.hi && r.lo < r.hi && cur.lo < cur.hi
    ensures UnionOf(m, [r] + rest, cur, b, c)
  {
    forall x
      ensures Covers(m, x) <==> Covers([r] + rest, x) || cur.lo <= x < cur.hi
    {
      CoversCons(r, rest, x);
    }
  }

  /** Merging yields the maximal runs covering what was covered and the new bytes. */
  lemma {:induction false} MergeIsUnion(held: seq<Range>, cur: Range, b: int, c: int)
    requires Runs(held) && cur.lo < cur.hi
    requires Above(held, b) && b < cur.lo && Below(held, c) && cur.hi <= c
    ensures UnionOf(Merge(held, cur, false), held, cur, b, c)
    decreases |held|
  {
    if held == [] {
      UnionPlacesFirst([], cur, b, c);
      assert [cur] + [] == [cur];
    } else {
      var r, rest := held[0], held[1..];
      assert held == [r] + rest;
      RunsTail(held);
      if r.hi < cur.lo {
        MergeIsUnion(rest, cur, r.hi, c);
        UnionKeepsFirst(r, rest, Merge(rest, cur, false), cur, b, c);
      } else if r.lo > cur.hi {
        MergePlaced(rest, cur);
        assert Merge(held, cur, false) == [cur] + held;
        UnionPlacesFirst(held, cur, b, c);
      } else {
        MergeIsUnion(rest, Absorb(cur, r), b, c);
        UnionAbsorbs(r, rest, Merge(rest, Absorb(cur, r), false), cur, b, c);
      }
    }
  }

  /** The accepted bytes after one more segment. */
  lemma AcceptStands(base: int, acc: iset<int>, s: Stream, pos: int, len: nat)
    requires Stands(base, acc, s)
    ensures Stands(base, acc + Bytes(pos, len), Accept(s, pos, len))
    ensures s.nxt <= Accept(s, pos, len).nxt
  {
    if len > 0 && pos + len > s.nxt {
      var lo := if pos < s.nxt then s.nxt else pos;
      var cur := Range(lo, pos + len);
      var c := UpperBound(s.held, pos + len);
      MergeIsUnion(s.held, cur, s.nxt - 1, c);
      var m := Merge(s.held, cur, false);
      DrainStands(base, acc, s, pos, len, m);
    }
  }

  lemma {:induction false} UpperBound(h: seq<Range>, b: int) returns (c: int)
    ensures Below(h, c) && b <= c
    decreases |h|
  {
    c := b;
    if h != [] {
      var c0 := UpperBound(h[1..], b);
      c := if h[0].hi > c0 then h[0].hi else c0;
      assert forall i :: 0 < i < |h| ==> h[i] == h[1..][i - 1];
    }
  }

  lemma FirstRunStands(base: int, acc: iset<int>, f: int, m: seq<Range>)
    requires base <= f && (forall x :: base <= x < f ==> x in acc)
    requires Runs(m) && m != [] && m[0].lo == f && forall x :: f <= x ==> (x in acc <==> Covers(m, x))
    ensures Stands(base, acc, Stream(m[0].hi, m[1..]))
  {
    RunsTail(m);
    RunEndMissing(m, 0);
    forall x
      ensures Covers(m, x) <==> m[0].lo <= x < m[0].hi || Covers(m[1..], x)
    {
      CoversCons(m[0], m[1..], x);
      assert m == [m[0]] + m[1..];
    }
  }

  /** Draining a merged list: only its first run can touch the frontier. */
  lemma {:induction false} DrainStands(base: int, acc: iset<int>, s: Stream, pos: int, len: nat, m: seq<Range>)
    requires Stands(base, acc, s) && len > 0 && pos + len > s.nxt
    requires Runs(m) && Above(m, s.nxt - 1)
    requires var lo := if pos < s.nxt then s.nxt else pos;
             forall x :: Covers(m, x) <==> Covers(s.held, x) || lo <= x < pos + len
    ensures Stands(base, acc + Bytes(pos, len), Drain(m, s.nxt))
    ensures s.nxt <= Drain(m, s.nxt).nxt
  {
    var acc' := acc + Bytes(pos, len);
    assert forall x :: s.nxt <= x ==> (x in acc' <==> Covers(m, x));
    if m != [] && m[0].lo == s.nxt {
      RunsTail(m);
      assert Drain(m, s.nxt) == Drain(m[1..], m[0].hi) == Stream(m[0].hi, m[1..]);
      FirstRunStands(base, acc', s.nxt, m);
    } else {
      assert Above(m, s.nxt);
      assert !Covers(m, s.nxt);
      assert Drain(m, s.nxt) == Stream(s.nxt, m);
    }
  }
}
