/** The observation table of the learner as mathematics: what its rows are on a deterministic
    system, what a hypothesis read off a closed table is, why Rivest-Schapire analysis of a
    counterexample makes progress, and why the table can only have as many rows as the system
    has distinguishable reachable states. */
module Observation {
  import opened Machines
  import opened WMethod

  /** The row of u: the outputs the system gives to each suffix after u. */
  function TrueRow(m: Mealy, E: seq<Word>, u: Word): (r: seq<OutWord>)
    requires Over(m.k, u) && WordsOver(m.k, E)
    ensures |r| == |E|
  {
    seq(|E|, j requires 0 <= j < |E| => Run(m, Reach(m, 0, u), E[j]))
  }

  /** The shape every table keeps: S is a tree of access words rooted at the empty word, and E
      holds non-empty suffixes, the single inputs first. */
  ghost predicate Shape(k: nat, S: seq<Word>, E: seq<Word>) {
    && S != [] && S[0] == []
    && WordsOver(k, S) && WordsOver(k, E)
    && (forall e :: e in E ==> e != [])
    && k <= |E| && (forall a :: 0 <= a < k ==> E[a] == [a])
    && (forall i :: 0 < i < |S| ==> HasParent(k, S, i))
  }

  ghost predicate HasParent(k: nat, S: seq<Word>, i: nat)
    requires i < |S|
  {
    exists j: nat, a: nat :: j < i && a < k && S[i] == S[j] + [a]
  }

  ghost predicate Distinct(m: Mealy, S: seq<Word>, E: seq<Word>)
    requires WordsOver(m.k, S) && WordsOver(m.k, E)
  {
    forall i, j :: 0 <= i < j < |S| ==> TrueRow(m, E, S[i]) != TrueRow(m, E, S[j])
  }

  /** The rows of S at positions i and j are equal only if i == j. */
  lemma DistinctRows(m: Mealy, S: seq<Word>, E: seq<Word>, i: nat, j: nat)
    requires WordsOver(m.k, S) && WordsOver(m.k, E) && Distinct(m, S, E) && i < |S| && j < |S|
    requires TrueRow(m, E, S[i]) == TrueRow(m, E, S[j])
    ensures i == j
  {
  }

  /** h is read off the table: outputs from the single-input columns, successors by row. */
  ghost predicate ReadOff(m: Mealy, S: seq<Word>, E: seq<Word>, h: Mealy)
    requires Shape(m.k, S, E)
  {
    && h.n == |S| && h.k == m.k
    && forall i, a :: 0 <= i < h.n && 0 <= a < h.k ==> ReadOffAt(m, S, E, h, i, a)
  }

  ghost predicate ReadOffAt(m: Mealy, S: seq<Word>, E: seq<Word>, h: Mealy, i: nat, a: nat)
    requires Shape(m.k, S, E) && h.n == |S| && h.k == m.k && i < h.n && a < h.k
  {
    && h.o[i][a] == m.o[Reach(m, 0, S[i])][a]
    && h.d[i][a] < h.n
    && Over(m.k, S[i] + [a])
    && TrueRow(m, E, S[i] + [a]) == TrueRow(m, E, S[h.d[i][a]])
  }

  /** Access words lead the hypothesis to their own states. */
  lemma {:induction false} AccessWords(m: Mealy, S: seq<Word>, E: seq<Word>, h: Mealy, i: nat)
    requires Shape(m.k, S, E) && Distinct(m, S, E) && ReadOff(m, S, E, h) && i < |S|
    ensures Over(h.k, S[i]) && Reach(h, 0, S[i]) == i
    decreases i
  {
    if i > 0 {
      assert HasParent(m.k, S, i);
      var j: nat, a: nat :| j < i && a < m.k && S[i] == S[j] + [a];
      AccessWords(m, S, E, h, j);
      ReachSnoc(h, 0, S[j], a);
      assert ReadOffAt(m, S, E, h, j, a);
      DistinctRows(m, S, E, h.d[j][a], i);
    }
  }

  lemma ReadOffCovers(m: Mealy, S: seq<Word>, E: seq<Word>, h: Mealy)
    requires Shape(m.k, S, E) && Distinct(m, S, E) && ReadOff(m, S, E, h)
    ensures StateCover(h, S)
  {
    forall i | 0 <= i < |S|
      ensures Over(h.k, S[i]) && Reach(h, 0, S[i]) == i
    {
      AccessWords(m, S, E, h, i);
    }
  }

  // ------------------------------------------------------------- counterexample analysis

  /** The hypothesis state after the first i symbols of ce. */
  ghost function StateAt(h: Mealy, ce: Word, i: nat): (q: nat)
    requires Over(h.k, ce) && i <= |ce|
    ensures q < h.n
  {
    Reach(h, 0, ce[..i])
  }

  /** Replacing the first i symbols of ce by the access word of the hypothesis state still
      shows a difference. */
  predicate Differs(m: Mealy, S: seq<Word>, h: Mealy, ce: Word, i: nat)
    requires h.k == m.k && h.n == |S| && WordsOver(m.k, S) && Over(h.k, ce) && i <= |ce|
  {
    var q := Reach(h, 0, ce[..i]);
    Run(m, Reach(m, 0, S[q]), ce[i..]) != Run(h, q, ce[i..])
  }

  lemma DiffersAtEnds(m: Mealy, S: seq<Word>, h: Mealy, ce: Word)
    requires h.k == m.k && h.n == |S| && WordsOver(m.k, S) && Over(h.k, ce) && S[0] == []
    ensures Differs(m, S, h, ce, 0) <==> Separates(h, 0, m, 0, ce)
    ensures !Differs(m, S, h, ce, |ce|)
  {
    assert ce[..0] == [] && ce[0..] == ce && ce[|ce|..] == [];
  }

  /** One step along ce splits off one output and moves to the successor. */
  lemma {:induction false} StepAlong(m: Mealy, s: nat, ce: Word, i: nat)
    requires s < m.n && Over(m.k, ce) && i < |ce|
    ensures Run(m, s, ce[i..]) == [m.o[s][ce[i]]] + Run(m, m.d[s][ce[i]], ce[i + 1..])
  {
    assert ce[i..][1..] == ce[i + 1..];
  }

  lemma StateAtNext(h: Mealy, ce: Word, i: nat)
    requires Over(h.k, ce) && i < |ce|
    ensures StateAt(h, ce, i + 1) == h.d[StateAt(h, ce, i)][ce[i]]
  {
    assert ce[..i + 1] == ce[..i] + [ce[i]];
    ReachSnoc(h, 0, ce[..i], ce[i]);
  }

  /** At a position where the difference disappears, the suffix after it is non-empty and new,
      the first outputs agree, and the suffix tells the row of S[q].a from the row it was
      equated with. */
  lemma {:induction false} DifferenceVanishes(m: Mealy, S: seq<Word>, E: seq<Word>, h: Mealy, ce: Word, i: nat)
    requires Shape(m.k, S, E) && ReadOff(m, S, E, h) && Over(h.k, ce) && i < |ce|
    requires Differs(m, S, h, ce, i) && !Differs(m, S, h, ce, i + 1)
    ensures var q, a := StateAt(h, ce, i), ce[i];
            && Run(m, Reach(m, 0, S[q]), ce[i..])[0] == Run(h, q, ce[i..])[0]
            && Over(m.k, S[q] + [a])
            && Run(m, Reach(m, 0, S[q] + [a]), ce[i + 1..]) != Run(m, Reach(m, 0, S[h.d[q][a]]), ce[i + 1..])
            && ce[i + 1..] != [] && ce[i + 1..] !in E
  {
    var q, a, v := StateAt(h, ce, i), ce[i], ce[i + 1..];
    var s := Reach(m, 0, S[q]);
    assert ReadOffAt(m, S, E, h, q, a);
    StepAlong(m, s, ce, i);
    StepAlong(h, q, ce, i);
    StateAtNext(h, ce, i);
    ReachSnoc(m, 0, S[q], a);
    assert Run(h, h.d[q][a], v) == Run(m, Reach(m, 0, S[h.d[q][a]]), v);
    EqualRowsAgree(m, E, S[q] + [a], S[h.d[q][a]], v);
  }

  lemma {:induction false} EqualRowsAgree(m: Mealy, E: seq<Word>, u: Word, v: Word, e: Word)
    requires Over(m.k, u) && Over(m.k, v) && WordsOver(m.k, E) && TrueRow(m, E, u) == TrueRow(m, E, v)
    requires Over(m.k, e)
    ensures e in E ==> Run(m, Reach(m, 0, u), e) == Run(m, Reach(m, 0, v), e)
  {
    if e in E {
      var j :| 0 <= j < |E| && E[j] == e;
      assert TrueRow(m, E, u)[j] == TrueRow(m, E, v)[j];
    }
  }

  lemma {:induction false} RowsWiden(m: Mealy, E: seq<Word>, e: Word, u: Word, v: Word)
    requires Over(m.k, u) && Over(m.k, v) && WordsOver(m.k, E) && Over(m.k, e)
    ensures WordsOver(m.k, E + [e])
    ensures TrueRow(m, E + [e], u) == TrueRow(m, E + [e], v) <==>
            TrueRow(m, E, u) == TrueRow(m, E, v) && Run(m, Reach(m, 0, u), e) == Run(m, Reach(m, 0, v), e)
  {
    var E' := E + [e];
    assert TrueRow(m, E', u) == TrueRow(m, E, u) + [Run(m, Reach(m, 0, u), e)];
    assert TrueRow(m, E', v) == TrueRow(m, E, v) + [Run(m, Reach(m, 0, v), e)];
    if TrueRow(m, E', u) == TrueRow(m, E', v) {
      assert TrueRow(m, E', u)[..|E|] == TrueRow(m, E, u) && TrueRow(m, E', v)[..|E|] == TrueRow(m, E, v);
      assert TrueRow(m, E', u)[|E|] == TrueRow(m, E', v)[|E|];
    }
  }

  /** Rivest-Schapire progress: with the suffix added, S stays distinct and the row of S[q].a
      is no longer any row of S, so the table is open. */
  lemma {:induction false} SuffixOpensTable(m: Mealy, S: seq<Word>, E: seq<Word>, h: Mealy, q: nat, a: nat, e: Word)
    requires Shape(m.k, S, E) && Distinct(m, S, E) && ReadOff(m, S, E, h) && Over(m.k, e)
    requires q < |S| && a < m.k && Over(m.k, S[q] + [a])
    requires Run(m, Reach(m, 0, S[q] + [a]), e) != Run(m, Reach(m, 0, S[h.d[q][a]]), e)
    ensures WordsOver(m.k, E + [e]) && Distinct(m, S, E + [e])
    ensures forall j :: 0 <= j < |S| ==> TrueRow(m, E + [e], S[q] + [a]) != TrueRow(m, E + [e], S[j])
  {
    assert ReadOffAt(m, S, E, h, q, a);
    assert WordsOver(m.k, E + [e]);
    forall i, j | 0 <= i < j < |S|
      ensures TrueRow(m, E + [e], S[i]) != TrueRow(m, E + [e], S[j])
    {
      RowsWiden(m, E, e, S[i], S[j]);
    }
    forall j | 0 <= j < |S|
      ensures TrueRow(m, E + [e], S[q] + [a]) != TrueRow(m, E + [e], S[j])
    {
      RowsWiden(m, E, e, S[q] + [a], S[j]);
      if TrueRow(m, E, S[q] + [a]) == TrueRow(m, E, S[j]) {
        DistinctRows(m, S, E, h.d[q][a], j);
      }
    }
  }

  // ---------------------------------------------------------------------- the state bound

  /** The states the access words lead to, told apart pairwise by E. */
  lemma AccessStates(m: Mealy, S: seq<Word>, E: seq<Word>) returns (T: set<nat>)
    requires WordsOver(m.k, S) && WordsOver(m.k, E) && Distinct(m, S, E)
    ensures T <= Reachable(m) && |T| == |S| && Apart(m, T, E, 0)
  {
    AccessSpread(m, S, E);
    T := SpreadImage(Below(|S|), AccessMap(m, S), NearRelation(m, E, 0), Reachable(m));
  }

  ghost function AccessMap(m: Mealy, S: seq<Word>): nat -> nat
    requires WordsOver(m.k, S)
  {
    (i: nat) => if i < |S| then Reach(m, 0, S[i]) else 0
  }

  lemma {:induction false} AccessSpread(m: Mealy, S: seq<Word>, E: seq<Word>)
    requires WordsOver(m.k, S) && WordsOver(m.k, E) && Distinct(m, S, E)
    ensures Spread(Below(|S|), AccessMap(m, S), NearRelation(m, E, 0))
    ensures forall i :: i in Below(|S|) ==> AccessMap(m, S)(i) in Reachable(m)
  {
    var f := AccessMap(m, S);
    forall i, j | i in Below(|S|) && j in Below(|S|) && i != j
      ensures f(i) != f(j) && !NearRelation(m, E, 0)(f(i), f(j))
    {
      AccessPair(m, S, E, i, j);
    }
    forall i | i in Below(|S|)
      ensures f(i) in Reachable(m)
    {
      ReachIsReachable(m, S[i]);
    }
  }

  lemma AccessPair(m: Mealy, S: seq<Word>, E: seq<Word>, i: nat, j: nat)
    requires WordsOver(m.k, S) && WordsOver(m.k, E) && Distinct(m, S, E) && i < |S| && j < |S| && i != j
    ensures AccessMap(m, S)(i) != AccessMap(m, S)(j)
    ensures !NearRelation(m, E, 0)(AccessMap(m, S)(i), AccessMap(m, S)(j))
  {
    DistinctApart(m, S, E, i, j);
  }

  lemma {:induction false} DistinctApart(m: Mealy, S: seq<Word>, E: seq<Word>, i: nat, j: nat)
    requires WordsOver(m.k, S) && WordsOver(m.k, E) && Distinct(m, S, E) && i < |S| && j < |S| && i != j
    ensures !Near(m, Reach(m, 0, S[i]), m, Reach(m, 0, S[j]), E, 0)
    ensures Reach(m, 0, S[i]) != Reach(m, 0, S[j])
  {
    var x, y := TrueRow(m, E, S[i]), TrueRow(m, E, S[j]);
    assert x != y;
    var c :| 0 <= c < |E| && x[c] != y[c];
    assert E[c] in E;
  }

  /** Distinct rows come from distinguishable reachable states. */
  lemma DistinctBound(m: Mealy, S: seq<Word>, E: seq<Word>)
    requires WordsOver(m.k, S) && WordsOver(m.k, E) && Distinct(m, S, E)
    ensures |S| <= Target(m)
  {
    var T := AccessStates(m, S, E);
    ApartFits(m, T, E, 0);
  }

  /** The hypothesis state that a word leading the system to r leads to. */
  ghost function StateFor(m: Mealy, h: Mealy, r: nat): (i: nat)
    requires h.k == m.k && r in Reachable(m)
    ensures i < h.n
    ensures Alike(h, 0, m, 0) ==> Alike(h, i, m, r)
  {
    var w: Word :| Over(m.k, w) && Reach(m, 0, w) == r;
    AlikeAfter(h, m, w);
    Reach(h, 0, w)
  }

  lemma {:induction false} AlikeAfter(h: Mealy, m: Mealy, w: Word)
    requires h.k == m.k && Over(m.k, w)
    ensures Alike(h, 0, m, 0) ==> Alike(h, Reach(h, 0, w), m, Reach(m, 0, w))
  {
    if Alike(h, 0, m, 0) {
      AlikeReach(h, 0, m, 0, w);
    }
  }

  lemma StatesApart(m: Mealy, h: Mealy, r: nat, s: nat)
    requires h.k == m.k && Alike(h, 0, m, 0) && r != s
    requires r in Representatives(m, Reachable(m)) && s in Representatives(m, Reachable(m))
    ensures r in Reachable(m) && s in Reachable(m) && StateFor(m, h, r) != StateFor(m, h, s)
  {
    RepresentativesApart(m, Reachable(m), r, s);
    assert Alike(h, StateFor(m, h, r), m, r) && Alike(h, StateFor(m, h, s), m, s);
    if StateFor(m, h, r) == StateFor(m, h, s) {
      AlikeVia(h, StateFor(m, h, r), m, r, s);
    }
  }

  /** A hypothesis equivalent to the system has at least as many states as the system has
      distinguishable reachable ones. */
  lemma EquivalentIsLarge(m: Mealy, h: Mealy)
    requires h.k == m.k && Alike(h, 0, m, 0)
    ensures Target(m) <= h.n
  {
    var R := Representatives(m, Reachable(m));
    var f := (r: nat) => if r in Reachable(m) then StateFor(m, h, r) else 0;
    forall r, s | r in R && s in R && r != s
      ensures f(r) != f(s)
    {
      StatesApart(m, h, r, s);
    }
    InjectionSize(R, Below(h.n), f);
  }
}
