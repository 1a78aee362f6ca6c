/** Soundness of the W-method test suite S . Sigma^{<= 1+extra} . W: when every test passes and
    the system has at most `extra` more distinguishable reachable states than the hypothesis has,
    the two agree on every word. */
module WMethod {
  import opened Machines

  /** Agreement on Sigma^{<=j} . W: on the words of W now, and for j > 0 also on every output
      and, one level shallower, after every input. */
  ghost predicate Near(a: Mealy, p: nat, b: Mealy, q: nat, W: seq<Word>, j: nat)
    requires a.k == b.k && p < a.n && q < b.n
    requires forall w :: w in W ==> Over(a.k, w)
    decreases j
  {
    && SameOn(a, p, b, q, W)
    && (j > 0 ==> forall c :: 0 <= c < a.k ==>
          a.o[p][c] == b.o[q][c] && Near(a, a.d[p][c], b, b.d[q][c], W, j - 1))
  }

  ghost predicate SameOn(a: Mealy, p: nat, b: Mealy, q: nat, W: seq<Word>)
    requires a.k == b.k && p < a.n && q < b.n
    requires forall w :: w in W ==> Over(a.k, w)
  {
    forall w :: w in W ==> Run(a, p, w) == Run(b, q, w)
  }

  predicate WordsOver(k: nat, W: seq<Word>) {
    forall w :: w in W ==> Over(k, w)
  }

  lemma {:induction false} NearWeaken(a: Mealy, p: nat, b: Mealy, q: nat, W: seq<Word>, j: nat)
    requires a.k == b.k && p < a.n && q < b.n && WordsOver(a.k, W)
    requires Near(a, p, b, q, W, j + 1)
    ensures Near(a, p, b, q, W, j)
    decreases j
  {
    if j > 0 {
      forall c | 0 <= c < a.k
        ensures Near(a, a.d[p][c], b, b.d[q][c], W, j - 1)
      {
        NearWeaken(a, a.d[p][c], b, b.d[q][c], W, j - 1);
      }
    }
  }

  /** Two states near a common third one are near each other. */
  lemma {:induction false} NearJoin(a: Mealy, p: nat, b: Mealy, q: nat, c: Mealy, r: nat, W: seq<Word>, j: nat)
    requires a.k == b.k == c.k && p < a.n && q < b.n && r < c.n && WordsOver(a.k, W)
    requires Near(a, p, b, q, W, j) && Near(a, p, c, r, W, j)
    ensures Near(b, q, c, r, W, j)
    decreases j
  {
    if j > 0 {
      forall x | 0 <= x < a.k
        ensures b.o[q][x] == c.o[r][x] && Near(b, b.d[q][x], c, c.d[r][x], W, j - 1)
      {
        NearJoin(a, a.d[p][x], b, b.d[q][x], c, c.d[r][x], W, j - 1);
      }
    }
  }

  /** Passing the tests x . w for all |x| <= j and w in W gives agreement to depth j. */
  lemma {:induction false} TestsGiveNear(a: Mealy, p: nat, b: Mealy, q: nat, W: seq<Word>, j: nat)
    requires a.k == b.k && p < a.n && q < b.n && WordsOver(a.k, W) && W != []
    requires forall x: Word, w: Word :: Over(a.k, x) && |x| <= j && w in W ==> Agree(a, p, b, q, x, w)
    ensures Near(a, p, b, q, W, j)
    decreases j
  {
    forall w | w in W
      ensures Run(a, p, w) == Run(b, q, w)
    {
      assert Agree(a, p, b, q, [], w);
      assert [] + w == w;
    }
    if j > 0 {
      forall c | 0 <= c < a.k
        ensures a.o[p][c] == b.o[q][c] && Near(a, a.d[p][c], b, b.d[q][c], W, j - 1)
      {
        AgreeAfter(a, p, b, q, c, [], W[0]);
        forall x: Word, w: Word | Over(a.k, x) && |x| <= j - 1 && w in W
          ensures Agree(a, a.d[p][c], b, b.d[q][c], x, w)
        {
          assert Over(a.k, [c] + x);
          assert Agree(a, p, b, q, [c] + x, w);
          AgreeAfter(a, p, b, q, c, x, w);
        }
        TestsGiveNear(a, a.d[p][c], b, b.d[q][c], W, j - 1);
      }
    }
  }

  /** The test x . w passes when started in p and q. */
  ghost predicate Agree(a: Mealy, p: nat, b: Mealy, q: nat, x: Word, w: Word)
    requires a.k == b.k && p < a.n && q < b.n
  {
    Over(a.k, x + w) ==> Run(a, p, x + w) == Run(b, q, x + w)
  }

  lemma AgreeAfter(a: Mealy, p: nat, b: Mealy, q: nat, c: nat, x: Word, w: Word)
    requires a.k == b.k && p < a.n && q < b.n && c < a.k && Over(a.k, x) && Over(a.k, w)
    requires Agree(a, p, b, q, [c] + x, w)
    ensures a.o[p][c] == b.o[q][c] && Agree(a, a.d[p][c], b, b.d[q][c], x, w)
  {
    var t := [c] + x + w;
    assert t[1..] == x + w && t[0] == c && Over(a.k, t);
    assert Run(a, p, t)[0] == Run(b, q, t)[0];
    assert Run(a, p, t)[1..] == Run(b, q, t)[1..];
  }

  /** Depth j already decides depth j+1 on the states in X. */
  ghost predicate Stable(m: Mealy, X: set<nat>, W: seq<Word>, j: nat)
    requires X <= AllStates(m) && WordsOver(m.k, W)
  {
    forall p, q :: p in X && q in X && Near(m, p, m, q, W, j) ==> Near(m, p, m, q, W, j + 1)
  }

  ghost predicate Closed(m: Mealy, X: set<nat>) {
    X <= AllStates(m) && forall s, c :: s in X && 0 <= c < m.k ==> m.d[s][c] in X
  }

  lemma StableNext(m: Mealy, X: set<nat>, W: seq<Word>, j: nat)
    requires Closed(m, X) && WordsOver(m.k, W) && Stable(m, X, W, j)
    ensures Stable(m, X, W, j + 1)
  {
  }

  /** At a stable depth agreement is agreement on every word. */
  lemma {:induction false} StableRun(m: Mealy, X: set<nat>, W: seq<Word>, j: nat, p: nat, q: nat, w: Word)
    requires Closed(m, X) && WordsOver(m.k, W) && Stable(m, X, W, j)
    requires p in X && q in X && Near(m, p, m, q, W, j) && Over(m.k, w)
    ensures Run(m, p, w) == Run(m, q, w)
    decreases |w|
  {
    if w != [] {
      assert Near(m, p, m, q, W, j + 1);
      StableRun(m, X, W, j, m.d[p][w[0]], m.d[q][w[0]], w[1..]);
    }
  }

  ghost predicate Equivalence(X: set<nat>, r: (nat, nat) -> bool) {
    && (forall x :: x in X ==> r(x, x))
    && (forall x, y :: x in X && y in X && r(x, y) ==> r(y, x))
    && (forall x, y, z :: x in X && y in X && z in X && r(x, y) && r(y, z) ==> r(x, z))
  }

  ghost predicate PairwiseUnrelated(T: set<nat>, r: (nat, nat) -> bool) {
    forall x, y :: x in T && y in T && x != y ==> !r(x, y)
  }

  /** A finer relation that splits the class of p and q has one more class. */
  lemma FinerHasMoreClasses(X: set<nat>, T: set<nat>, r: (nat, nat) -> bool, finer: (nat, nat) -> bool, p: nat, q: nat)
    returns (T': set<nat>)
    requires T <= X && Equivalence(X, r) && Equivalence(X, finer) && PairwiseUnrelated(T, r)
    requires forall x, y :: x in X && y in X && finer(x, y) ==> r(x, y)
    requires p in X && q in X && r(p, q) && !finer(p, q)
    ensures T' <= X && PairwiseUnrelated(T', finer) && |T'| >= |T| + 1
  {
    var rest := OutsideMembers(X, T, r, p, q);
    assert finer(q, p) ==> finer(p, q);
    T' := AddPair(X, rest, r, finer, p, q);
  }

  lemma OutsideMembers(X: set<nat>, T: set<nat>, r: (nat, nat) -> bool, p: nat, q: nat) returns (rest: set<nat>)
    requires T <= X && Equivalence(X, r) && PairwiseUnrelated(T, r) && p in X && q in X && r(p, q)
    ensures rest <= T && |rest| >= |T| - 1
    ensures forall t :: t in rest ==> t != p && t != q && !r(t, p) && !r(p, t) && !r(t, q) && !r(q, t)
  {
    var K := ClassMembers(X, T, r, p);
    rest := T - K;
    forall t | t in rest
      ensures t != p && t != q && !r(t, p) && !r(p, t) && !r(t, q) && !r(q, t)
    {
      OutsideClass(X, r, t, p, q);
    }
  }

  lemma AddPair(X: set<nat>, rest: set<nat>, r: (nat, nat) -> bool, finer: (nat, nat) -> bool, p: nat, q: nat)
    returns (T': set<nat>)
    requires rest <= X && p in X && q in X && p != q && PairwiseUnrelated(rest, r)
    requires forall t :: t in rest ==> t != p && t != q && !r(t, p) && !r(p, t) && !r(t, q) && !r(q, t)
    requires forall x, y :: x in X && y in X && finer(x, y) ==> r(x, y)
    requires !finer(p, q) && !finer(q, p)
    ensures T' <= X && PairwiseUnrelated(T', finer) && |T'| == |rest| + 2
  {
    T' := rest + {p, q};
  }

  lemma OutsideClass(X: set<nat>, r: (nat, nat) -> bool, t: nat, p: nat, q: nat)
    requires Equivalence(X, r) && t in X && p in X && q in X && r(p, q) && !r(t, p)
    ensures t != p && t != q && !r(p, t) && !r(t, q) && !r(q, t)
  {
    assert r(p, p) && r(q, p);
    assert r(t, q) && r(q, p) ==> r(t, p);
  }

  /** A pairwise unrelated set has at most one member in the class of p. */
  lemma ClassMembers(X: set<nat>, T: set<nat>, r: (nat, nat) -> bool, p: nat) returns (K: set<nat>)
    requires T <= X && Equivalence(X, r) && PairwiseUnrelated(T, r) && p in X
    ensures K <= T && |K| <= 1
    ensures forall t :: t in T ==> (t in K <==> r(t, p))
  {
    K := set t | t in T && r(t, p);
    forall s, t | s in K && t in K
      ensures s == t
    {
      assert r(p, t) && r(s, t);
    }
    AtMostOne(K);
  }

  lemma NearEquivalence(m: Mealy, X: set<nat>, W: seq<Word>, j: nat)
    requires X <= AllStates(m) && WordsOver(m.k, W)
    ensures Equivalence(X, NearRelation(m, W, j))
  {
    var r := NearRelation(m, W, j);
    forall x | x in X
      ensures r(x, x)
    {
      NearSelf(m, x, W, j);
    }
    forall x, y | x in X && y in X && r(x, y)
      ensures r(y, x)
    {
      NearSym(m, x, m, y, W, j);
    }
    forall x, y, z | x in X && y in X && z in X && r(x, y) && r(y, z)
      ensures r(x, z)
    {
      NearSym(m, x, m, y, W, j);
      NearJoin(m, y, m, x, m, z, W, j);
    }
  }

  ghost function NearRelation(m: Mealy, W: seq<Word>, j: nat): (nat, nat) -> bool
    requires WordsOver(m.k, W)
  {
    (x: nat, y: nat) => x < m.n && y < m.n && Near(m, x, m, y, W, j)
  }

  /** The states in T are told apart pairwise at depth j. */
  ghost predicate Apart(m: Mealy, T: set<nat>, W: seq<Word>, j: nat)
    requires WordsOver(m.k, W)
  {
    PairwiseUnrelated(T, NearRelation(m, W, j))
  }

  type Relation = (nat, nat) -> bool

  /** Relation j of the family already decides relation j+1 on X. */
  ghost predicate StableAt(X: set<nat>, fam: nat -> Relation, j: nat) {
    forall x, y :: x in X && y in X && fam(j)(x, y) ==> fam(j + 1)(x, y)
  }

  /** A family of equivalences on X, each refining the one before, that never splits again
      once a step splits nothing. */
  ghost predicate Refining(X: set<nat>, fam: nat -> Relation) {
    && (forall j: nat :: Equivalence(X, fam(j)))
    && (forall j: nat, x, y :: x in X && y in X && fam(j + 1)(x, y) ==> fam(j)(x, y))
    && (forall j: nat :: !StableAt(X, fam, j + 1) ==> !StableAt(X, fam, j))
  }

  /** Each unstable step costs a class: from T, unrelated at step 0, an unstable step j forces
      |T| + j + 1 pairwise unrelated members of X. */
  lemma {:induction false} UnstableNeedsClasses(X: set<nat>, T: set<nat>, fam: nat -> Relation, j: nat)
    returns (T': set<nat>)
    requires T <= X && Refining(X, fam) && PairwiseUnrelated(T, fam(0)) && !StableAt(X, fam, j)
    ensures T' <= X && PairwiseUnrelated(T', fam(j + 1)) && |T'| >= |T| + j + 1
    decreases j
  {
    var base := T;
    if j > 0 {
      var i: nat := j - 1;
      assert !StableAt(X, fam, i + 1) ==> !StableAt(X, fam, i);
      base := UnstableNeedsClasses(X, T, fam, j - 1);
    }
    var p, q :| p in X && q in X && fam(j)(p, q) && !fam(j + 1)(p, q);
    T' := FinerHasMoreClasses(X, base, fam(j), fam(j + 1), p, q);
  }

  lemma {:induction false} NearSym(a: Mealy, p: nat, b: Mealy, q: nat, W: seq<Word>, j: nat)
    requires a.k == b.k && p < a.n && q < b.n && WordsOver(a.k, W)
    requires Near(a, p, b, q, W, j)
    ensures Near(b, q, a, p, W, j)
    decreases j
  {
    if j > 0 {
      forall c | 0 <= c < a.k
        ensures Near(b, b.d[q][c], a, a.d[p][c], W, j - 1)
      {
        NearSym(a, a.d[p][c], b, b.d[q][c], W, j - 1);
      }
    }
  }

  lemma {:induction false} NearSelf(m: Mealy, p: nat, W: seq<Word>, j: nat)
    requires p < m.n && WordsOver(m.k, W)
    ensures Near(m, p, m, p, W, j)
    decreases j
  {
    if j > 0 {
      forall c | 0 <= c < m.k
        ensures Near(m, m.d[p][c], m, m.d[p][c], W, j - 1)
      {
        NearSelf(m, m.d[p][c], W, j - 1);
      }
    }
  }

  lemma AtMostOne(K: set<nat>)
    requires forall s, t :: s in K && t in K ==> s == t
    ensures |K| <= 1
  {
    if K != {} {
      var s :| s in K;
      assert K == {s};
    }
  }

  lemma NearFiner(m: Mealy, X: set<nat>, W: seq<Word>, j: nat)
    requires X <= AllStates(m) && WordsOver(m.k, W)
    ensures forall x, y :: x in X && y in X && NearRelation(m, W, j + 1)(x, y) ==> NearRelation(m, W, j)(x, y)
  {
    forall x, y | x in X && y in X && NearRelation(m, W, j + 1)(x, y)
      ensures NearRelation(m, W, j)(x, y)
    {
      NearWeaken(m, x, m, y, W, j);
    }
  }

  lemma NearStaysStable(m: Mealy, X: set<nat>, W: seq<Word>, j: nat)
    requires Closed(m, X) && WordsOver(m.k, W)
    ensures StableAt(X, NearFamily(m, W), j) ==> StableAt(X, NearFamily(m, W), j + 1)
  {
    StableIsStableAt(m, X, W, j);
    StableIsStableAt(m, X, W, j + 1);
    if Stable(m, X, W, j) {
      StableNext(m, X, W, j);
    }
  }

  lemma NearRefining(m: Mealy, X: set<nat>, W: seq<Word>)
    requires Closed(m, X) && WordsOver(m.k, W)
    ensures Refining(X, NearFamily(m, W))
  {
    var fam := NearFamily(m, W);
    forall j: nat
      ensures Equivalence(X, fam(j))
    {
      NearEquivalence(m, X, W, j);
    }
    forall j: nat, x, y | x in X && y in X && fam(j + 1)(x, y)
      ensures fam(j)(x, y)
    {
      NearFiner(m, X, W, j);
    }
    forall j: nat
      ensures !StableAt(X, fam, j + 1) ==> !StableAt(X, fam, j)
    {
      NearStaysStable(m, X, W, j);
    }
  }

  /** Agreement at every depth. */
  ghost function NearFamily(m: Mealy, W: seq<Word>): nat -> Relation
    requires WordsOver(m.k, W)
  {
    (j: nat) => NearRelation(m, W, j)
  }

  lemma StableIsStableAt(m: Mealy, X: set<nat>, W: seq<Word>, j: nat)
    requires X <= AllStates(m) && WordsOver(m.k, W)
    ensures Stable(m, X, W, j) <==> StableAt(X, NearFamily(m, W), j)
  {
    var fam := NearFamily(m, W);
    assert forall x, y :: x in X && y in X ==> (fam(j)(x, y) <==> Near(m, x, m, y, W, j));
    assert forall x, y :: x in X && y in X ==> (fam(j + 1)(x, y) <==> Near(m, x, m, y, W, j + 1));
  }

  lemma SubsetSize(A: set<nat>, B: set<nat>)
    requires A <= B
    ensures |A| <= |B|
  {
    assert B == A + (B - A);
  }

  /** Indistinguishable states agree to every depth. */
  lemma {:induction false} AlikeNear(a: Mealy, p: nat, b: Mealy, q: nat, W: seq<Word>, j: nat)
    requires a.k == b.k && p < a.n && q < b.n && WordsOver(a.k, W) && Alike(a, p, b, q)
    ensures Near(a, p, b, q, W, j)
    decreases j
  {
    if j > 0 {
      forall c | 0 <= c < a.k
        ensures a.o[p][c] == b.o[q][c] && Near(a, a.d[p][c], b, b.d[q][c], W, j - 1)
      {
        AlikeStep(a, p, b, q, c);
        AlikeNear(a, a.d[p][c], b, b.d[q][c], W, j - 1);
      }
    }
  }

  /** States told apart pairwise are no more than there are distinguishable ones. */
  lemma ApartFits(m: Mealy, T: set<nat>, W: seq<Word>, j: nat)
    requires T <= Reachable(m) && WordsOver(m.k, W) && Apart(m, T, W, j)
    ensures |T| <= Target(m)
  {
    var X := Reachable(m);
    var f := (s: nat) => if s in X then RepresentativeOf(m, X, s) else 0;
    forall s, t | s in T && t in T && s != t
      ensures f(s) != f(t)
    {
      ApartRepresentatives(m, s, t, W, j);
    }
    InjectionSize(T, Representatives(m, X), f);
  }

  lemma ApartRepresentatives(m: Mealy, s: nat, t: nat, W: seq<Word>, j: nat)
    requires s in Reachable(m) && t in Reachable(m) && WordsOver(m.k, W) && !NearRelation(m, W, j)(s, t)
    ensures RepresentativeOf(m, Reachable(m), s) != RepresentativeOf(m, Reachable(m), t)
  {
    if RepresentativeOf(m, Reachable(m), s) == RepresentativeOf(m, Reachable(m), t) {
      AlikeVia(m, RepresentativeOf(m, Reachable(m), s), m, s, t);
      AlikeNear(m, s, m, t, W, j);
    }
  }

  lemma InjectionSize(A: set<nat>, B: set<nat>, f: nat -> nat)
    requires forall x :: x in A ==> f(x) in B
    requires forall x, y :: x in A && y in A && x != y ==> f(x) != f(y)
    ensures |A| <= |B|
  {
    assert Spread(A, f, (x, y) => false);
    var T := SpreadImage(A, f, (x, y) => false, B);
    SubsetSize(T, B);
  }

  /** Stability within the budget of distinguishable states. */
  lemma StableWithinBudget(m: Mealy, T: set<nat>, W: seq<Word>, extra: nat)
    requires T <= Reachable(m) && WordsOver(m.k, W) && Apart(m, T, W, 0)
    requires Target(m) <= |T| + extra
    ensures Closed(m, Reachable(m)) && Stable(m, Reachable(m), W, extra)
  {
    forall s, c | s in Reachable(m) && 0 <= c < m.k
      ensures m.d[s][c] in Reachable(m)
    {
      ReachableClosed(m, s, c);
    }
    if !Stable(m, Reachable(m), W, extra) {
      StableIsStableAt(m, Reachable(m), W, extra);
      NearRefining(m, Reachable(m), W);
      var T' := UnstableNeedsClasses(Reachable(m), T, NearFamily(m, W), extra);
      ApartFits(m, T', W, extra + 1);
    }
  }

  /** S[i] is an access word of state i of h. */
  ghost predicate StateCover(h: Mealy, S: seq<Word>) {
    && |S| == h.n
    && (forall i :: 0 <= i < |S| ==> Over(h.k, S[i]) && Reach(h, 0, S[i]) == i)
    && S[0] == []
  }

  /** Every test of the suite gives the same outputs on h and on m. */
  ghost predicate SuitePasses(h: Mealy, m: Mealy, S: seq<Word>, W: seq<Word>, extra: nat)
    requires h.k == m.k
  {
    forall i, x: Word, w: Word :: 0 <= i < |S| && Over(h.k, x) && |x| <= 1 + extra && w in W ==>
      Agree(h, 0, m, 0, S[i] + x, w)
  }

  /** The words of W tell apart exactly the distinguishable states of h. */
  ghost predicate Characterizes(h: Mealy, W: seq<Word>) {
    && WordsOver(h.k, W)
    && forall p, q :: 0 <= p < h.n && 0 <= q < h.n ==>
         ((exists w :: w in W && Separates(h, p, h, q, w)) <==> !Alike(h, p, h, q))
  }

  /** A test that starts with an access word is a test of the state it reaches. */
  lemma {:induction false} TestOfAccessedState(h: Mealy, m: Mealy, u: Word, x: Word, w: Word)
    requires h.k == m.k && Over(h.k, u) && Over(h.k, x) && Over(h.k, w)
    requires Agree(h, 0, m, 0, u + x, w)
    ensures Agree(h, Reach(h, 0, u), m, Reach(m, 0, u), x, w)
  {
    var t := x + w;
    assert u + x + w == u + t;
    RunConcat(h, 0, u, t);
    RunConcat(m, 0, u, t);
    assert Run(h, 0, u + t)[|u|..] == Run(h, Reach(h, 0, u), t);
    assert Run(m, 0, u + t)[|u|..] == Run(m, Reach(m, 0, u), t);
  }

  lemma {:induction false} CoveredStateNear(h: Mealy, m: Mealy, S: seq<Word>, W: seq<Word>, extra: nat, i: nat)
    requires h.k == m.k && StateCover(h, S) && WordsOver(h.k, W) && W != []
    requires SuitePasses(h, m, S, W, extra) && i < h.n
    ensures Near(h, i, m, Reach(m, 0, S[i]), W, 1 + extra)
  {
    forall x: Word, w: Word | Over(h.k, x) && |x| <= 1 + extra && w in W
      ensures Agree(h, i, m, Reach(m, 0, S[i]), x, w)
    {
      TestOfAccessedState(h, m, S[i], x, w);
    }
    TestsGiveNear(h, i, m, Reach(m, 0, S[i]), W, 1 + extra);
  }

  /** The walk that carries the proof: whatever word is run, the system stays
      indistinguishable from the access word of the hypothesis state. */
  lemma {:induction false} LockStep(h: Mealy, m: Mealy, S: seq<Word>, W: seq<Word>, extra: nat, i: nat, s: nat, w: Word)
    requires h.k == m.k && StateCover(h, S) && WordsOver(h.k, W) && W != []
    requires SuitePasses(h, m, S, W, extra)
    requires Closed(m, Reachable(m)) && Stable(m, Reachable(m), W, extra)
    requires i < h.n && s in Reachable(m) && Near(m, Reach(m, 0, S[i]), m, s, W, extra)
    requires Over(h.k, w)
    ensures Run(h, i, w) == Run(m, s, w)
    decreases |w|
  {
    if w != [] {
      var c, r := w[0], Reach(m, 0, S[i]);
      var i' := h.d[i][c];
      var r' := Reach(m, 0, S[i']);
      ReachIsReachable(m, S[i]);
      ReachIsReachable(m, S[i']);
      CoveredStateNear(h, m, S, W, extra, i);
      assert Near(h, i', m, m.d[r][c], W, extra);
      CoveredStateNear(h, m, S, W, extra, i');
      NearWeaken(h, i', m, r', W, extra);
      NearJoin(h, i', m, r', m, m.d[r][c], W, extra);
      assert Near(m, r, m, s, W, extra + 1);
      assert Near(m, m.d[r][c], m, m.d[s][c], W, extra);
      NearSym(m, r', m, m.d[r][c], W, extra);
      NearJoin(m, m.d[r][c], m, r', m, m.d[s][c], W, extra);
      LockStep(h, m, S, W, extra, i', m.d[s][c], w[1..]);
    }
  }

  /** Soundness from any pairwise distinguished family of access words. */
  lemma SoundFromApart(h: Mealy, m: Mealy, S: seq<Word>, W: seq<Word>, extra: nat, T: set<nat>)
    requires h.k == m.k && StateCover(h, S) && WordsOver(h.k, W) && W != []
    requires SuitePasses(h, m, S, W, extra)
    requires T <= Reachable(m) && Apart(m, T, W, 0) && Target(m) <= |T| + extra
    ensures Alike(h, 0, m, 0)
  {
    StableWithinBudget(m, T, W, extra);
    assert Reach(m, 0, S[0]) == 0;
    ReachIsReachable(m, []);
    NearSelf(m, 0, W, extra);
    forall w: Word | Over(h.k, w)
      ensures Run(h, 0, w) == Run(m, 0, w)
    {
      LockStep(h, m, S, W, extra, 0, 0, w);
    }
  }

  lemma {:induction false} AccessPairApart(h: Mealy, m: Mealy, S: seq<Word>, W: seq<Word>, extra: nat, p: nat, q: nat)
    requires h.k == m.k && StateCover(h, S) && WordsOver(h.k, W) && W != []
    requires SuitePasses(h, m, S, W, extra)
    requires p < h.n && q < h.n && exists w :: w in W && Separates(h, p, h, q, w)
    ensures Reach(m, 0, S[p]) != Reach(m, 0, S[q])
    ensures !Near(m, Reach(m, 0, S[p]), m, Reach(m, 0, S[q]), W, 0)
    ensures !Near(m, Reach(m, 0, S[q]), m, Reach(m, 0, S[p]), W, 0)
  {
    var w :| w in W && Separates(h, p, h, q, w);
    CoveredStateNear(h, m, S, W, extra, p);
    CoveredStateNear(h, m, S, W, extra, q);
    assert Run(m, Reach(m, 0, S[p]), w) != Run(m, Reach(m, 0, S[q]), w);
  }

  /** f sends the members of R to pairwise distinct, pairwise unrelated values. */
  ghost predicate Spread(R: set<nat>, f: nat -> nat, r: (nat, nat) -> bool) {
    forall p, q :: p in R && q in R && p != q ==> f(p) != f(q) && !r(f(p), f(q))
  }

  lemma {:induction false} ImageUnrelated(R: set<nat>, f: nat -> nat, r: (nat, nat) -> bool)
    requires Spread(R, f, r)
    ensures |Image(R, f)| == |R| && PairwiseUnrelated(Image(R, f), r)
    decreases |R|
  {
    if R != {} {
      var p :| p in R;
      ImageUnrelated(R - {p}, f, r);
      assert Image(R, f) == Image(R - {p}, f) + {f(p)};
    }
  }

  lemma SpreadImage(R: set<nat>, f: nat -> nat, r: (nat, nat) -> bool, X: set<nat>) returns (T: set<nat>)
    requires Spread(R, f, r) && forall p :: p in R ==> f(p) in X
    ensures T <= X && |T| == |R| && PairwiseUnrelated(T, r)
  {
    ImageUnrelated(R, f, r);
    T := Image(R, f);
  }

  ghost function Image(R: set<nat>, f: nat -> nat): set<nat> {
    set p | p in R :: f(p)
  }

  /** Access words of hypothesis states that W tells apart reach system states that W tells
      apart, so the system has one such state for each. */
  lemma AccessStatesApart(h: Mealy, m: Mealy, S: seq<Word>, W: seq<Word>, extra: nat, R: set<nat>)
    returns (T: set<nat>)
    requires h.k == m.k && StateCover(h, S) && WordsOver(h.k, W) && W != []
    requires SuitePasses(h, m, S, W, extra)
    requires R <= AllStates(h)
    requires forall p, q :: p in R && q in R && p != q ==> exists w :: w in W && Separates(h, p, h, q, w)
    ensures T <= Reachable(m) && |T| == |R| && Apart(m, T, W, 0)
  {
    var f := (p: nat) => if p < h.n then Reach(m, 0, S[p]) else 0;
    forall p | p in R
      ensures f(p) in Reachable(m)
    {
      ReachIsReachable(m, S[p]);
    }
    forall p, q | p in R && q in R && p != q
      ensures f(p) != f(q) && !NearRelation(m, W, 0)(f(p), f(q))
    {
      AccessPairApart(h, m, S, W, extra, p, q);
    }
    assert Spread(R, f, NearRelation(m, W, 0));
    T := SpreadImage(R, f, NearRelation(m, W, 0), Reachable(m));
  }

  /** W-method soundness. */
  lemma WMethodSound(h: Mealy, m: Mealy, S: seq<Word>, W: seq<Word>, extra: nat)
    requires h.k == m.k && StateCover(h, S) && Characterizes(h, W) && W != []
    requires SuitePasses(h, m, S, W, extra)
    requires Target(m) <= |Representatives(h, AllStates(h))| + extra
    ensures Alike(h, 0, m, 0)
  {
    var R := Representatives(h, AllStates(h));
    forall p, q | p in R && q in R && p != q
      ensures exists w :: w in W && Separates(h, p, h, q, w)
    {
      RepresentativesApart(h, AllStates(h), p, q);
    }
    var T := AccessStatesApart(h, m, S, W, extra, R);
    SoundFromApart(h, m, S, W, extra, T);
  }

  /** A system that agrees with the hypothesis on every word passes every suite. */
  lemma AlikePasses(h: Mealy, m: Mealy, S: seq<Word>, W: seq<Word>, extra: nat)
    requires h.k == m.k && StateCover(h, S) && WordsOver(h.k, W) && Alike(h, 0, m, 0)
    ensures SuitePasses(h, m, S, W, extra)
  {
    forall i, x: Word, w: Word | 0 <= i < |S| && Over(h.k, x) && |x| <= 1 + extra && w in W
      ensures Agree(h, 0, m, 0, S[i] + x, w)
    {
      assert Over(h.k, S[i] + x + w);
    }
  }

  /** The W-method is exact: within the budget a system passes the suite if and only if it
      agrees with the hypothesis on every word. */
  lemma WMethodExact(h: Mealy, m: Mealy, S: seq<Word>, W: seq<Word>, extra: nat)
    requires h.k == m.k && StateCover(h, S) && Characterizes(h, W) && W != []
    requires Target(m) <= |Representatives(h, AllStates(h))| + extra
    ensures SuitePasses(h, m, S, W, extra) <==> Alike(h, 0, m, 0)
  {
    if SuitePasses(h, m, S, W, extra) {
      WMethodSound(h, m, S, W, extra);
    }
    if Alike(h, 0, m, 0) {
      AlikePasses(h, m, S, W, extra);
    }
  }
}
