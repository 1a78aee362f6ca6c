/** The learner's two searches for separating words and the characterizing set built from
    the second: one shortest separating word per pair of states, then a greedy cover. */
module Separation {
  import opened Machines
  import opened Options
  import opened Search
  import opened WMethod

  ghost function AllPairs(n: nat, m: nat): set<Pair> {
    set x, y | x in Below(n) && y in Below(m) :: (x, y)
  }

  /** Extending an access word by an input on which the reached states emit differently. */
  lemma {:induction false} ExtendSeparates(a: Mealy, p: nat, b: Mealy, q: nat, w: Word, c: nat)
    requires a.k == b.k && p < a.n && q < b.n && Over(a.k, w) && c < a.k
    requires a.o[Reach(a, p, w)][c] != b.o[Reach(b, q, w)][c]
    ensures Separates(a, p, b, q, w + [c])
  {
    assert (w + [c])[..|w|] == w;
    RunAt(a, p, w + [c], |w|);
    RunAt(b, q, w + [c], |w|);
  }

  /** The graph both searches walk: pairs of states, one from each machine; `order` puts the
      smaller state first. */
  function PairGraph(a: Mealy, p: nat, b: Mealy, q: nat, order: bool): (g: Graph)
    requires a.k == b.k && p < a.n && q < b.n
  {
    Graph(
      a.k,
      (p, q),
      (v: Pair, c: int) =>
        if 0 <= v.0 < a.n && 0 <= v.1 < b.n && 0 <= c < a.k then
          var x, y := a.d[v.0][c], b.d[v.1][c];
          if order && x > y then (y, x) else (x, y)
        else
          (p, q),
      (v: Pair, c: int) => 0 <= v.0 < a.n && 0 <= v.1 < b.n && 0 <= c < a.k && a.o[v.0][c] != b.o[v.1][c])
  }

  lemma PairGraphClosed(a: Mealy, p: nat, b: Mealy, q: nat, order: bool)
    requires a.k == b.k && p < a.n && q < b.n && (order ==> a == b)
    ensures ClosedIn(PairGraph(a, p, b, q, order), AllPairs(a.n, b.n))
  {
  }

  /** A walk in the pair graph is the two machines run side by side, up to a swap when pairs
      are ordered. */
  lemma {:induction false} WalkIsReach(a: Mealy, p: nat, b: Mealy, q: nat, order: bool, w: Word)
    requires a.k == b.k && p < a.n && q < b.n && (order ==> a == b) && Over(a.k, w)
    ensures var v := Walk(PairGraph(a, p, b, q, order), w);
            var x, y := Reach(a, p, w), Reach(b, q, w);
            v == (x, y) || (order && v == (y, x))
    decreases |w|
  {
    if w != [] {
      var u, c := w[..|w| - 1], w[|w| - 1];
      assert w == u + [c];
      WalkIsReach(a, p, b, q, order, u);
      ReachSnoc(a, p, u, c);
      ReachSnoc(b, q, u, c);
    }
  }

  /** Hits are separating words, and every separating word has a hit as a prefix. */
  lemma HitSeparates(a: Mealy, p: nat, b: Mealy, q: nat, order: bool, w: Word)
    requires a.k == b.k && p < a.n && q < b.n && (order ==> a == b)
    requires Hit(PairGraph(a, p, b, q, order), w)
    ensures Separates(a, p, b, q, w)
  {
    var u, c := w[..|w| - 1], w[|w| - 1];
    assert w == u + [c];
    WalkIsReach(a, p, b, q, order, u);
    ExtendSeparates(a, p, b, q, u, c);
  }

  lemma SeparatorHasHit(a: Mealy, p: nat, b: Mealy, q: nat, order: bool, w: Word) returns (v: Word)
    requires a.k == b.k && p < a.n && q < b.n && (order ==> a == b)
    requires Separates(a, p, b, q, w)
    ensures Hit(PairGraph(a, p, b, q, order), v) && |v| <= |w|
  {
    var i := FirstDifference(a, p, b, q, w);
    v := w[..i + 1];
    assert v[..|v| - 1] == w[..i] && v[|v| - 1] == w[i];
    WalkIsReach(a, p, b, q, order, w[..i]);
  }

  /** A shortest word that separates two states, or none exactly when no word does. */
  method ShortestSeparator(a: Mealy, p: nat, b: Mealy, q: nat, order: bool) returns (r: Option<Word>)
    requires a.k == b.k && p < a.n && q < b.n && (order ==> a == b)
    ensures r.None? <==> Alike(a, p, b, q)
    ensures r.Some? ==> Separates(a, p, b, q, r.value)
    ensures r.Some? ==> forall w: Word :: Separates(a, p, b, q, w) ==> |w| >= |r.value|
  {
    PairGraphClosed(a, p, b, q, order);
    r := BreadthFirst(PairGraph(a, p, b, q, order), AllPairs(a.n, b.n));
    if r.Some? {
      HitSeparates(a, p, b, q, order, r.value);
    }
    forall w: Word | Separates(a, p, b, q, w)
      ensures r.Some? && |w| >= |r.value|
    {
      var v := SeparatorHasHit(a, p, b, q, order, w);
    }
  }

  /** The exact equivalence oracle: hypothesis against reference, from their initial states. */
  method EqPerfect(h: Mealy, m: Mealy) returns (r: Option<Word>)
    requires h.k == m.k
    ensures r.None? <==> Alike(h, 0, m, 0)
    ensures r.Some? ==> Separates(h, 0, m, 0, r.value)
    ensures r.Some? ==> forall w: Word :: Separates(h, 0, m, 0, w) ==> |w| >= |r.value|
  {
    r := ShortestSeparator(h, 0, m, 0, false);
  }

  // ------------------------------------------------------------ characterizing set

  /** Some word of `ws` separates p from q. */
  ghost predicate Told(h: Mealy, ws: set<Word>, p: nat, q: nat)
    requires p < h.n && q < h.n
  {
    exists w :: w in ws && Separates(h, p, h, q, w)
  }

  ghost predicate Decided(h: Mealy, ws: set<Word>, p: nat, q: nat)
    requires p < h.n && q < h.n
  {
    Alike(h, p, h, q) || Told(h, ws, p, q)
  }

  lemma DecidedGrows(h: Mealy, ws: set<Word>, more: set<Word>, p: nat, q: nat)
    requires p < h.n && q < h.n && ws <= more && Decided(h, ws, p, q)
    ensures Decided(h, more, p, q)
  {
  }

  /** One separating word for every distinguishable pair p < q. */
  method Candidates(h: Mealy) returns (cand: set<Word>)
    ensures forall w :: w in cand ==> Over(h.k, w)
    ensures forall p, q :: 0 <= p < q < h.n ==> Decided(h, cand, p, q)
  {
    cand := {};
    for p := 0 to h.n
      invariant forall w :: w in cand ==> Over(h.k, w)
      invariant forall x, y :: 0 <= x < p && x < y < h.n ==> Decided(h, cand, x, y)
    {
      var more := CandidatesFrom(h, p);
      forall x, y | 0 <= x < p && x < y < h.n
        ensures Decided(h, cand + more, x, y)
      {
        DecidedGrows(h, cand, cand + more, x, y);
      }
      forall y | p < y < h.n
        ensures Decided(h, cand + more, p, y)
      {
        DecidedGrows(h, more, cand + more, p, y);
      }
      cand := cand + more;
    }
  }

  method CandidatesFrom(h: Mealy, p: nat) returns (cand: set<Word>)
    requires p < h.n
    ensures forall w :: w in cand ==> Over(h.k, w)
    ensures forall q :: p < q < h.n ==> Decided(h, cand, p, q)
  {
    cand := {};
    for q := p + 1 to h.n
      invariant forall w :: w in cand ==> Over(h.k, w)
      invariant forall y :: p < y < q ==> Decided(h, cand, p, y)
    {
      var found := SeparatingWord(h, p, q);
      forall y | p < y < q + 1
        ensures Decided(h, cand + found, p, y)
      {
        DecidedGrows(h, if y < q then cand else found, cand + found, p, y);
      }
      cand := cand + found;
    }
  }

  /** The pairwise search: at most one word, which decides the pair. */
  method SeparatingWord(h: Mealy, p: nat, q: nat) returns (found: set<Word>)
    requires p < h.n && q < h.n
    ensures forall w :: w in found ==> Over(h.k, w)
    ensures Decided(h, found, p, q)
  {
    var r := ShortestSeparator(h, p, h, q, true);
    found := if r.Some? then {r.value} else {};
  }

  /** The pairs of `need` that w tells apart. */
  function Covers(h: Mealy, need: set<Pair>, w: Word): set<Pair>
    requires Over(h.k, w) && forall v :: v in need ==> 0 <= v.0 < h.n && 0 <= v.1 < h.n
  {
    set v | v in need && Run(h, v.0, w) != Run(h, v.1, w)
  }

  /** A word of the pool that tells apart the most pairs of `need`; none if no word tells any. */
  method BestCover(h: Mealy, pool: set<Word>, need: set<Pair>) returns (best: Option<Word>, cov: set<Pair>)
    requires forall w :: w in pool ==> Over(h.k, w)
    requires forall v :: v in need ==> 0 <= v.0 < h.n && 0 <= v.1 < h.n
    ensures best.Some? ==> best.value in pool && cov == Covers(h, need, best.value) && cov != {}
    ensures forall w :: w in pool ==> |Covers(h, need, w)| <= |cov|
    ensures best.None? ==> cov == {}
  {
    best, cov := None, {};
    var rest := pool;
    while rest != {}
      invariant rest <= pool
      invariant best.Some? ==> best.value in pool && cov == Covers(h, need, best.value) && cov != {}
      invariant best.None? ==> cov == {}
      invariant forall w :: w in pool - rest ==> |Covers(h, need, w)| <= |cov|
    {
      var w :| w in rest;
      rest := rest - {w};
      var c := Covers(h, need, w);
      if |c| > |cov| {
        best, cov := Some(w), c;
      }
    }
  }

  /** Some word of W separates p from q. */
  ghost predicate ToldBy(h: Mealy, W: seq<Word>, p: nat, q: nat)
    requires p < h.n && q < h.n
  {
    exists w :: w in W && Separates(h, p, h, q, w)
  }

  lemma ToldByGrows(h: Mealy, W: seq<Word>, w: Word, p: nat, q: nat)
    requires p < h.n && q < h.n && (ToldBy(h, W, p, q) || Separates(h, p, h, q, w))
    ensures ToldBy(h, W + [w], p, q)
  {
    if ToldBy(h, W, p, q) {
      var v :| v in W && Separates(h, p, h, q, v);
      assert v in W + [w];
    } else {
      assert w in W + [w];
    }
  }

  /** The characterizing set tells two states apart exactly when some word does. */
  method CharacterizingSet(h: Mealy) returns (W: seq<Word>)
    ensures Characterizes(h, W)
  {
    var pool := Candidates(h);
    var need := set p, q | 0 <= p < h.n && p < q < h.n :: (p, q);
    W := [];
    while need != {}
      invariant forall v :: v in need ==> 0 <= v.0 < v.1 < h.n
      invariant WordsOver(h.k, W)
      invariant forall p, q :: 0 <= p < q < h.n && (p, q) !in need ==> ToldBy(h, W, p, q)
      decreases need
    {
      var best, cov := BestCover(h, pool, need);
      if best.None? {
        forall p, q | 0 <= p < q < h.n && (p, q) in need
          ensures Alike(h, p, h, q)
        {
          UncoveredAlike(h, pool, need, p, q);
        }
        break;
      }
      forall p, q | 0 <= p < q < h.n && (p, q) !in need - cov
        ensures ToldBy(h, W + [best.value], p, q)
      {
        ToldByGrows(h, W, best.value, p, q);
      }
      W := W + [best.value];
      need := need - cov;
    }
    CoverCharacterizes(h, W);
  }

  lemma UncoveredAlike(h: Mealy, pool: set<Word>, need: set<Pair>, p: nat, q: nat)
    requires forall w :: w in pool ==> Over(h.k, w)
    requires forall v :: v in need ==> 0 <= v.0 < h.n && 0 <= v.1 < h.n
    requires (p, q) in need && Decided(h, pool, p, q)
    requires forall w :: w in pool ==> |Covers(h, need, w)| <= 0
    ensures Alike(h, p, h, q)
  {
    forall w | w in pool
      ensures !Separates(h, p, h, q, w)
    {
      assert (p, q) !in Covers(h, need, w);
    }
  }

  lemma CoverCharacterizes(h: Mealy, W: seq<Word>)
    requires WordsOver(h.k, W)
    requires forall p, q :: 0 <= p < q < h.n ==> ToldBy(h, W, p, q) || Alike(h, p, h, q)
    ensures Characterizes(h, W)
  {
    forall p, q | 0 <= p < h.n && 0 <= q < h.n && !Alike(h, p, h, q)
      ensures exists w :: w in W && Separates(h, p, h, q, w)
    {
      if p < q {
        assert ToldBy(h, W, p, q);
      } else {
        assert Alike(h, q, h, p) ==> Alike(h, p, h, q);
        assert q < p && ToldBy(h, W, q, p);
        var w :| w in W && Separates(h, q, h, p, w);
        assert Separates(h, p, h, q, w);
      }
    }
  }
}
