/** Mealy machines as the learner stores them: a table of next states and a table of outputs
    over states 0..n-1 and inputs 0..k-1, together with what it means for two states
    (of one machine or of two) to be indistinguishable. */
module Machines {
  type Word = seq<int>
  type OutWord = seq<int>

  datatype Table = Table(n: nat, k: nat, d: seq<seq<int>>, o: seq<seq<int>>)

  predicate WellFormed(m: Table) {
    && m.n >= 1
    && |m.d| == m.n
    && |m.o| == m.n
    && (forall s :: 0 <= s < m.n ==> |m.d[s]| == m.k && |m.o[s]| == m.k)
    && (forall s, a :: 0 <= s < m.n && 0 <= a < m.k ==> 0 <= m.d[s][a] < m.n)
  }

  type Mealy = m: Table | WellFormed(m) witness Table(1, 0, [[]], [[]])

  /** A word over the alphabet 0..k-1. */
  predicate Over(k: nat, w: Word) {
    forall i :: 0 <= i < |w| ==> 0 <= w[i] < k
  }

  function Reach(m: Mealy, s: nat, w: Word): (t: nat)
    requires s < m.n && Over(m.k, w)
    ensures t < m.n
    decreases |w|
  {
    if w == [] then s else Reach(m, m.d[s][w[0]], w[1..])
  }

  function Run(m: Mealy, s: nat, w: Word): (r: OutWord)
    requires s < m.n && Over(m.k, w)
    ensures |r| == |w|
    decreases |w|
  {
    if w == [] then [] else [m.o[s][w[0]]] + Run(m, m.d[s][w[0]], w[1..])
  }

  lemma {:induction false} ReachConcat(m: Mealy, s: nat, u: Word, v: Word)
    requires s < m.n && Over(m.k, u) && Over(m.k, v)
    ensures Over(m.k, u + v)
    ensures Reach(m, s, u + v) == Reach(m, Reach(m, s, u), v)
    decreases |u|
  {
    if u == [] {
      assert u + v == v;
    } else {
      assert (u + v)[1..] == u[1..] + v;
      ReachConcat(m, m.d[s][u[0]], u[1..], v);
    }
  }

  lemma {:induction false} ReachSnoc(m: Mealy, s: nat, w: Word, c: nat)
    requires s < m.n && Over(m.k, w) && c < m.k
    ensures Over(m.k, w + [c]) && Reach(m, s, w + [c]) == m.d[Reach(m, s, w)][c]
  {
    ReachConcat(m, s, w, [c]);
    assert Reach(m, Reach(m, s, w), [c]) == m.d[Reach(m, s, w)][c];
  }

  lemma {:induction false} RunConcat(m: Mealy, s: nat, u: Word, v: Word)
    requires s < m.n && Over(m.k, u) && Over(m.k, v)
    ensures Over(m.k, u + v)
    ensures Run(m, s, u + v) == Run(m, s, u) + Run(m, Reach(m, s, u), v)
    decreases |u|
  {
    if u == [] {
      assert u + v == v;
    } else {
      assert (u + v)[1..] == u[1..] + v;
      RunConcat(m, m.d[s][u[0]], u[1..], v);
    }
  }

  /** The output at position i is what the transition taken at position i emits. */
  lemma {:induction false} RunAt(m: Mealy, s: nat, w: Word, i: nat)
    requires s < m.n && Over(m.k, w) && i < |w|
    ensures Run(m, s, w)[i] == m.o[Reach(m, s, w[..i])][w[i]]
    ensures Run(m, s, w)[..i] == Run(m, s, w[..i])
  {
    RunConcat(m, s, w[..i], w[i..]);
    assert w == w[..i] + w[i..];
  }

  /** No input word tells state p of a from state q of b. */
  ghost predicate Alike(a: Mealy, p: nat, b: Mealy, q: nat)
    requires a.k == b.k && p < a.n && q < b.n
  {
    forall w: Word :: Over(a.k, w) ==> Run(a, p, w) == Run(b, q, w)
  }

  /** Word w tells state p of a from state q of b. */
  predicate Separates(a: Mealy, p: nat, b: Mealy, q: nat, w: Word)
    requires a.k == b.k && p < a.n && q < b.n
  {
    Over(a.k, w) && Run(a, p, w) != Run(b, q, w)
  }

  /** Indistinguishable states emit the same and move to indistinguishable states. */
  lemma AlikeStep(a: Mealy, p: nat, b: Mealy, q: nat, c: nat)
    requires a.k == b.k && p < a.n && q < b.n && c < a.k
    requires Alike(a, p, b, q)
    ensures a.o[p][c] == b.o[q][c]
    ensures Alike(a, a.d[p][c], b, b.d[q][c])
  {
    assert Run(a, p, [c])[0] == Run(b, q, [c])[0];
    forall w: Word | Over(a.k, w)
      ensures Run(a, a.d[p][c], w) == Run(b, b.d[q][c], w)
    {
      var cw := [c] + w;
      assert cw[1..] == w;
      assert Run(a, p, cw)[1..] == Run(b, q, cw)[1..];
    }
  }

  lemma {:induction false} AlikeReach(a: Mealy, p: nat, b: Mealy, q: nat, w: Word)
    requires a.k == b.k && p < a.n && q < b.n && Over(a.k, w)
    requires Alike(a, p, b, q)
    ensures Alike(a, Reach(a, p, w), b, Reach(b, q, w))
    decreases |w|
  {
    if w != [] {
      AlikeStep(a, p, b, q, w[0]);
      AlikeReach(a, a.d[p][w[0]], b, b.d[q][w[0]], w[1..]);
    }
  }

  /** Two different sequences of one length differ at a first position. */
  lemma {:induction false} FirstMismatchAt(x: OutWord, y: OutWord) returns (i: nat)
    requires |x| == |y| && x != y
    ensures i < |x| && x[..i] == y[..i] && x[i] != y[i]
    decreases |x|
  {
    if x[0] != y[0] {
      i := 0;
    } else {
      assert x == [x[0]] + x[1..] && y == [y[0]] + y[1..];
      var j := FirstMismatchAt(x[1..], y[1..]);
      i := j + 1;
      assert x[..i] == [x[0]] + x[1..][..j] && y[..i] == [y[0]] + y[1..][..j];
    }
  }

  /** A word that separates two states does so at a first position: the outputs before it agree,
      and the states reached there emit different outputs on the symbol there. */
  lemma FirstDifference(a: Mealy, p: nat, b: Mealy, q: nat, w: Word) returns (i: nat)
    requires a.k == b.k && p < a.n && q < b.n
    requires Separates(a, p, b, q, w)
    ensures i < |w| && Over(a.k, w[..i])
    ensures Run(a, p, w)[..i] == Run(b, q, w)[..i] && Run(a, p, w[..i]) == Run(b, q, w[..i])
    ensures a.o[Reach(a, p, w[..i])][w[i]] != b.o[Reach(b, q, w[..i])][w[i]]
  {
    i := FirstMismatchAt(Run(a, p, w), Run(b, q, w));
    RunAt(a, p, w, i);
    RunAt(b, q, w, i);
  }

  /** The numbers below n. */
  ghost function Below(n: nat): (r: set<nat>)
    ensures forall s: nat :: s in r <==> s < n
    ensures |r| == n
  {
    if n == 0 then {} else Below(n - 1) + {n - 1}
  }

  ghost function AllStates(m: Mealy): set<nat> {
    Below(m.n)
  }

  /** The states the initial state 0 can reach. */
  ghost function Reachable(m: Mealy): set<nat> {
    set s | s in AllStates(m) && exists w: Word :: Over(m.k, w) && Reach(m, 0, w) == s
  }

  lemma ReachableClosed(m: Mealy, s: nat, c: nat)
    requires s in Reachable(m) && c < m.k
    ensures m.d[s][c] in Reachable(m)
  {
    var w: Word :| Over(m.k, w) && Reach(m, 0, w) == s;
    ReachConcat(m, 0, w, [c]);
    assert Reach(m, s, [c]) == m.d[s][c];
  }

  lemma {:induction false} ReachIsReachable(m: Mealy, w: Word)
    requires Over(m.k, w)
    ensures Reach(m, 0, w) in Reachable(m)
  {
  }

  /** The least member of each class of indistinguishable states among those in X.
      Its size is the number of classes. */
  ghost function Representatives(m: Mealy, X: set<nat>): (R: set<nat>)
    requires X <= AllStates(m)
    ensures R <= X
  {
    set s | s in X && forall t :: t in X && t < s ==> !Alike(m, t, m, s)
  }

  /** Every state in X is indistinguishable from its class's representative. */
  lemma {:induction false} HasRepresentative(m: Mealy, X: set<nat>, s: nat) returns (r: nat)
    requires X <= AllStates(m) && s in X
    ensures r in Representatives(m, X) && Alike(m, r, m, s)
    decreases s
  {
    if s in Representatives(m, X) {
      r := s;
    } else {
      var t :| t in X && t < s && Alike(m, t, m, s);
      r := HasRepresentative(m, X, t);
    }
  }

  /** Distinct representatives are distinguishable. */
  lemma RepresentativesApart(m: Mealy, X: set<nat>, p: nat, q: nat)
    requires X <= AllStates(m)
    requires p in Representatives(m, X) && q in Representatives(m, X) && p != q
    ensures !Alike(m, p, m, q)
  {
    assert p < q ==> !Alike(m, p, m, q);
    assert q < p ==> !Alike(m, q, m, p);
    assert Alike(m, p, m, q) ==> Alike(m, q, m, p);
  }

  /** The number of reachable states that no word can tell apart, up to that relation. */
  ghost function Target(m: Mealy): nat {
    |Representatives(m, Reachable(m))|
  }

  /** The representative of the class of s. */
  ghost function RepresentativeOf(m: Mealy, X: set<nat>, s: nat): (r: nat)
    requires X <= AllStates(m) && s in X
    ensures r in Representatives(m, X) && Alike(m, r, m, s)
  {
    SomeRepresentative(m, X, s);
    var r :| r in Representatives(m, X) && Alike(m, r, m, s);
    r
  }

  lemma SomeRepresentative(m: Mealy, X: set<nat>, s: nat)
    requires X <= AllStates(m) && s in X
    ensures exists r :: r in Representatives(m, X) && Alike(m, r, m, s)
  {
    var r := HasRepresentative(m, X, s);
  }

  lemma AlikeVia(h: Mealy, i: nat, m: Mealy, r: nat, s: nat)
    requires h.k == m.k && i < h.n && r < m.n && s < m.n && Alike(h, i, m, r) && Alike(h, i, m, s)
    ensures Alike(m, r, m, s)
  {
  }
}
