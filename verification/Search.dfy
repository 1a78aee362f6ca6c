/** Breadth-first search over pairs of states for a shortest word that ends on an input where
    the pair's outputs differ. Both searches of the learner (the product search behind its
    exact equivalence oracle and the pairwise search behind its characterizing set) are this
    search on different graphs. */
module Search {
  import opened Machines
  import opened Options

  type Pair = (int, int)

  /** A deterministic graph over pairs with inputs 0..k-1; `differs` marks the goal. */
  datatype Graph = Graph(k: nat, start: Pair, next: (Pair, int) -> Pair, differs: (Pair, int) -> bool)

  datatype Entry = Entry(at: Pair, w: Word)

  /** The pair a word leads to. */
  ghost function Walk(g: Graph, w: Word): Pair
    decreases |w|
  {
    if w == [] then g.start else g.next(Walk(g, w[..|w| - 1]), w[|w| - 1])
  }

  ghost predicate ClosedIn(g: Graph, V: set<Pair>) {
    g.start in V && forall v, c :: v in V && 0 <= c < g.k ==> g.next(v, c) in V
  }

  /** The word's last input is the first goal along it. */
  ghost predicate Hit(g: Graph, w: Word) {
    w != [] && Over(g.k, w) && g.differs(Walk(g, w[..|w| - 1]), w[|w| - 1])
  }

  ghost predicate Queued(Q: seq<Entry>, v: Pair) {
    exists i :: 0 <= i < |Q| && Q[i].at == v
  }

  /** No goal on the first `upto` inputs of v, and their successors are recorded at most one
      level deeper. */
  ghost predicate Expanded(g: Graph, depth: map<Pair, nat>, v: Pair, upto: nat)
    requires v in depth
  {
    forall c :: 0 <= c < upto ==>
      !g.differs(v, c) && g.next(v, c) in depth && depth[g.next(v, c)] <= depth[v] + 1
  }

  /** The queue holds access words of lengths L and L+1, in order. */
  ghost predicate InOrder(g: Graph, Q: seq<Entry>, depth: map<Pair, nat>, L: nat) {
    && (forall i :: 0 <= i < |Q| ==>
          && Over(g.k, Q[i].w) && L <= |Q[i].w| <= L + 1 && Q[i].at == Walk(g, Q[i].w)
          && Q[i].at in depth && depth[Q[i].at] == |Q[i].w|)
    && (forall i, j :: 0 <= i < j < |Q| ==> |Q[i].w| <= |Q[j].w|)
  }

  /** Every recorded pair that is neither queued nor `cur` is fully expanded. */
  ghost predicate Settled(g: Graph, Q: seq<Entry>, depth: map<Pair, nat>, cur: set<Pair>) {
    forall v :: v in depth ==> Queued(Q, v) || v in cur || Expanded(g, depth, v, g.k)
  }

  /** What the search knows while it works at level L. */
  ghost predicate Layered(g: Graph, Q: seq<Entry>, depth: map<Pair, nat>, L: nat, cur: set<Pair>) {
    && g.start in depth && depth[g.start] == 0
    && (forall v :: v in depth ==> depth[v] <= L + 1)
    && (forall v :: v in depth && v in cur ==> depth[v] >= L)
    && InOrder(g, Q, depth, L)
    && Settled(g, Q, depth, cur)
  }

  /** Up to level L every word's pair is recorded, no deeper than the word is long. */
  lemma {:induction false} ShallowSeen(g: Graph, Q: seq<Entry>, depth: map<Pair, nat>, L: nat, cur: set<Pair>, w: Word)
    requires Layered(g, Q, depth, L, cur) && Over(g.k, w) && |w| <= L
    ensures Walk(g, w) in depth && depth[Walk(g, w)] <= |w|
    decreases |w|
  {
    if w != [] {
      var u := w[..|w| - 1];
      ShallowSeen(g, Q, depth, L, cur, u);
      assert Expanded(g, depth, Walk(g, u), g.k);
    }
  }

  lemma NoShortHit(g: Graph, Q: seq<Entry>, depth: map<Pair, nat>, L: nat, cur: set<Pair>, w: Word)
    requires Layered(g, Q, depth, L, cur) && Hit(g, w)
    ensures |w| > L
  {
    if |w| <= L {
      ShallowSeen(g, Q, depth, L, cur, w[..|w| - 1]);
      assert false;
    }
  }

  lemma {:induction false} ExhaustedSeen(g: Graph, depth: map<Pair, nat>, L: nat, w: Word)
    requires Layered(g, [], depth, L, {}) && Over(g.k, w)
    ensures Walk(g, w) in depth && Expanded(g, depth, Walk(g, w), g.k)
    decreases |w|
  {
    if w != [] {
      ExhaustedSeen(g, depth, L, w[..|w| - 1]);
    }
    assert !Queued([], Walk(g, w));
  }

  lemma SettledGrows(g: Graph, Q: seq<Entry>, depth: map<Pair, nat>, cur: set<Pair>, e: Entry, l: nat)
    requires Settled(g, Q, depth, cur) && e.at !in depth
    ensures Settled(g, Q + [e], depth[e.at := l], cur)
  {
    var Q', depth' := Q + [e], depth[e.at := l];
    assert Q'[|Q|].at == e.at;
    forall v | v in depth'
      ensures Queued(Q', v) || v in cur || Expanded(g, depth', v, g.k)
    {
      if v in depth && Queued(Q, v) {
        var i :| 0 <= i < |Q| && Q[i].at == v;
        assert Q'[i].at == v;
      }
    }
  }

  lemma {:induction false} InOrderGrows(g: Graph, Q: seq<Entry>, depth: map<Pair, nat>, L: nat, e: Entry)
    requires InOrder(g, Q, depth, L) && e.at !in depth
    requires Over(g.k, e.w) && |e.w| == L + 1 && e.at == Walk(g, e.w)
    ensures InOrder(g, Q + [e], depth[e.at := L + 1], L)
  {
    var Q', depth' := Q + [e], depth[e.at := L + 1];
    forall i | 0 <= i < |Q'|
      ensures && Over(g.k, Q'[i].w) && L <= |Q'[i].w| <= L + 1 && Q'[i].at == Walk(g, Q'[i].w)
              && Q'[i].at in depth' && depth'[Q'[i].at] == |Q'[i].w|
    {
      assert i < |Q| ==> Q'[i] == Q[i];
    }
  }

  /** The step that records a successor of the pair being expanded. */
  lemma {:induction false} RecordSuccessor(g: Graph, Q: seq<Entry>, depth: map<Pair, nat>, e: Entry, c: nat, s: Entry)
    requires Layered(g, Q, depth, |e.w|, {e.at})
    requires Over(g.k, e.w) && e.at == Walk(g, e.w) && e.at in depth && depth[e.at] == |e.w| && c < g.k
    requires s == Entry(g.next(e.at, c), e.w + [c]) && s.at !in depth
    ensures Layered(g, Q + [s], depth[s.at := |e.w| + 1], |e.w|, {e.at})
  {
    assert s.at == Walk(g, s.w) by {
      assert s.w[..|s.w| - 1] == e.w;
    }
    InOrderGrows(g, Q, depth, |e.w|, s);
    SettledGrows(g, Q, depth, {e.at}, s, |e.w| + 1);
  }

  lemma {:induction false} FoundShortest(g: Graph, Q: seq<Entry>, depth: map<Pair, nat>, e: Entry, c: nat, w: Word)
    requires Layered(g, Q, depth, |e.w|, {e.at}) && c < g.k && w == e.w + [c]
    requires Over(g.k, e.w) && e.at == Walk(g, e.w) && g.differs(e.at, c)
    ensures Hit(g, w) && forall v: Word :: Hit(g, v) ==> |v| >= |w|
  {
    assert w[..|w| - 1] == e.w;
    forall v: Word | Hit(g, v)
      ensures |v| >= |w|
    {
      NoShortHit(g, Q, depth, |e.w|, {e.at}, v);
    }
  }

  lemma FinishPair(g: Graph, Q: seq<Entry>, depth: map<Pair, nat>, L: nat, v: Pair)
    requires Layered(g, Q, depth, L, {v}) && v in depth && Expanded(g, depth, v, g.k)
    ensures Layered(g, Q, depth, L, {})
  {
  }

  /** Taking the front entry off the queue moves to its level. */
  lemma PopFront(g: Graph, Q: seq<Entry>, depth: map<Pair, nat>, L: nat)
    requires Q != [] && Layered(g, Q, depth, L, {})
    ensures Layered(g, Q[1..], depth, |Q[0].w|, {Q[0].at})
  {
    forall v | v in depth && Queued(Q, v) && v != Q[0].at
      ensures Queued(Q[1..], v)
    {
      var i :| 0 <= i < |Q| && Q[i].at == v;
      assert Q[1..][i - 1].at == v;
    }
  }

  lemma StartSearch(g: Graph)
    ensures Layered(g, [Entry(g.start, [])], map[g.start := 0], 0, {})
  {
    assert [Entry(g.start, [])][0].at == g.start;
    assert Queued([Entry(g.start, [])], g.start);
  }

  /** A shortest word that hits the goal, or none exactly when no word does. */
  method BreadthFirst(g: Graph, ghost V: set<Pair>) returns (r: Option<Word>)
    requires ClosedIn(g, V)
    ensures r.Some? ==> Hit(g, r.value) && forall w: Word :: Hit(g, w) ==> |w| >= |r.value|
    ensures r.None? ==> forall w: Word :: !Hit(g, w)
  {
    var Q, seen := [Entry(g.start, [])], {g.start};
    ghost var depth: map<Pair, nat> := map[g.start := 0];
    ghost var L: nat := 0;
    StartSearch(g);
    while Q != []
      invariant seen == depth.Keys && seen <= V
      invariant Layered(g, Q, depth, L, {})
      decreases V - seen, |Q|
    {
      var e := Q[0];
      PopFront(g, Q, depth, L);
      L := |e.w|;
      r, Q, seen, depth := ExpandFront(g, V, e, Q[1..], seen, depth);
      if r.Some? {
        return;
      }
    }
    forall w: Word
      ensures !Hit(g, w)
    {
      if Hit(g, w) {
        ExhaustedSeen(g, depth, L, w[..|w| - 1]);
      }
    }
    r := None;
  }

  /** One round of the search: tries every input on the front pair. */
  method ExpandFront(g: Graph, ghost V: set<Pair>, e: Entry, Q0: seq<Entry>, seen0: set<Pair>, ghost depth0: map<Pair, nat>)
    returns (r: Option<Word>, Q: seq<Entry>, seen: set<Pair>, ghost depth: map<Pair, nat>)
    requires ClosedIn(g, V) && seen0 <= V && seen0 == depth0.Keys && Layered(g, Q0, depth0, |e.w|, {e.at})
    requires Over(g.k, e.w) && e.at == Walk(g, e.w) && e.at in depth0 && depth0[e.at] == |e.w|
    ensures r.Some? ==> Hit(g, r.value) && forall w: Word :: Hit(g, w) ==> |w| >= |r.value|
    ensures r.None? ==> seen == depth.Keys && Layered(g, Q, depth, |e.w|, {})
    ensures r.None? ==> seen0 <= seen <= V && (seen == seen0 ==> |Q| == |Q0|)
  {
    Q, seen, depth := Q0, seen0, depth0;
    for c: nat := 0 to g.k
      invariant seen == depth.Keys && seen0 <= seen <= V && (seen == seen0 ==> |Q| == |Q0|)
      invariant Layered(g, Q, depth, |e.w|, {e.at})
      invariant e.at in depth && depth[e.at] == |e.w|
      invariant Expanded(g, depth, e.at, c)
    {
      var w: Word := e.w + [c];
      if g.differs(e.at, c) {
        FoundShortest(g, Q, depth, e, c, w);
        r := Some(w);
        return;
      }
      var s := Entry(g.next(e.at, c), w);
      if s.at !in seen {
        RecordSuccessor(g, Q, depth, e, c, s);
        seen, Q, depth := seen + {s.at}, Q + [s], depth[s.at := |e.w| + 1];
      }
    }
    FinishPair(g, Q, depth, |e.w|, e.at);
    r := None;
  }
}
