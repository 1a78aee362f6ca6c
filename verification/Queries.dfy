/** Counting membership queries: what filling rows costs, how often a search halves, and the
    bound of a whole run. */
module Queries {
  import opened Machines
  import opened WMethod
  import opened Observation
  import opened Tables

  // ------------------------------------------------------------------------- arithmetic

  /** n times c, by repeated addition. */
  function Times(n: nat, c: nat): nat {
    if n == 0 then 0 else Times(n - 1, c) + c
  }

  lemma {:induction false} TimesIs(n: nat, c: nat)
    ensures Times(n, c) == n * c
    decreases n
  {
    if n > 0 {
      TimesIs(n - 1, c);
      assert n * c == (n - 1) * c + c;
    }
  }

  lemma {:induction false} TimesMonotone(n: nat, c: nat, n': nat, c': nat)
    requires n <= n' && c <= c'
    ensures Times(n, c) <= Times(n', c')
    decreases n'
  {
    if n' > 0 {
      TimesMonotone(if n < n' then n else n - 1, c, n' - 1, c');
    }
  }

  lemma {:induction false} TimesAdds(a: nat, b: nat, c: nat)
    ensures Times(a + b, c) == Times(a, c) + Times(b, c)
    decreases b
  {
    if b > 0 {
      TimesAdds(a, b - 1, c);
    }
  }

  /** What n of i rows in turn may have cost. */
  function Past(n: nat, i: nat, c: nat): nat {
    Times(if i <= n then 0 else i - n, c)
  }

  lemma PastStep(n: nat, i: nat, c: nat, cost: nat)
    requires cost <= if i < n then 0 else c
    ensures Past(n, i, c) + cost <= Past(n, i + 1, c)
  {
  }

  /** From s0 to s1 things, at most c queries each. */
  predicate Within(mq0: nat, mq1: nat, s0: nat, s1: nat, c: nat) {
    s0 <= s1 && mq0 <= mq1 <= mq0 + Times(s1 - s0, c)
  }

  lemma WithinStep(mq0: nat, mq1: nat, mq2: nat, s0: nat, s1: nat, c: nat)
    requires Within(mq0, mq1, s0, s1, c) && mq1 <= mq2 <= mq1 + c
    ensures Within(mq0, mq2, s0, s1 + 1, c)
  {
    assert Times(s1 + 1 - s0, c) == Times(s1 - s0, c) + c;
  }

  lemma WithinOne(mq0: nat, mq1: nat, s0: nat, s1: nat, c: nat)
    requires Within(mq0, mq1, s0, s1, c) && s1 == s0 + 1
    ensures mq0 <= mq1 <= mq0 + c
  {
    assert Times(1, c) == Times(0, c) + c;
  }

  /** How often n must be halved, rounding up, to get to one. */
  function Halvings(n: nat): nat {
    if n <= 1 then 0 else 1 + Halvings((n + 1) / 2)
  }

  function Pow2(h: nat): nat {
    if h == 0 then 1 else 2 * Pow2(h - 1)
  }

  /** That is the binary logarithm, rounded up. */
  lemma {:induction false} HalvingsIsLog(n: nat)
    requires n >= 1
    ensures n <= Pow2(Halvings(n)) && (n > 1 ==> Pow2(Halvings(n) - 1) < n)
    decreases n
  {
    if n > 1 {
      HalvingsIsLog((n + 1) / 2);
    }
  }

  lemma {:induction false} HalvingsMonotone(a: nat, b: nat)
    requires a <= b
    ensures Halvings(a) <= Halvings(b)
    decreases b
  {
    if a > 1 {
      HalvingsMonotone((a + 1) / 2, (b + 1) / 2);
    }
  }

  /** One step of a binary search over a gap of d. */
  lemma {:induction false} HalvingsStep(d: nat, d': nat)
    requires d > 1 && d' <= (d + 1) / 2
    ensures Halvings(d') + 1 <= Halvings(d)
  {
    HalvingsMonotone(d', (d + 1) / 2);
  }

  // --------------------------------------------------------------------- what rows have

  /** The first f cells of the row of u have been asked for. */
  ghost predicate Has(row: Rows, u: Word, f: nat) {
    f == 0 || (u in row && f <= |row[u]| && forall j :: 0 <= j < f ==> row[u][j] != [])
  }

  ghost predicate HasAround(k: nat, row: Rows, s: Word, f: nat) {
    Has(row, s, f) && forall a :: 0 <= a < k ==> Has(row, s + [a], f)
  }

  /** No cell is lost. */
  ghost predicate Gains(n: nat, before: Rows, after: Rows) {
    forall u, f: nat :: f <= n && Has(before, u, f) ==> Has(after, u, f)
  }

  ghost predicate NonEmpty(E: seq<Word>) {
    forall e :: e in E ==> e != []
  }

  lemma TrueRowHas(m: Mealy, E: seq<Word>, row: Rows, u: Word)
    requires WordsOver(m.k, E) && NonEmpty(E) && Filled(m, E, row, u)
    ensures Has(row, u, |E|)
  {
    forall j | 0 <= j < |E|
      ensures row[u][j] != []
    {
      assert E[j] in E;
    }
  }

  lemma GainsFill(m: Mealy, E: seq<Word>, row: Rows, u: Word)
    requires WordsOver(m.k, E) && NonEmpty(E) && Over(m.k, u)
    ensures Gains(|E|, row, row[u := TrueRow(m, E, u)])
  {
    var after := row[u := TrueRow(m, E, u)];
    TrueRowHas(m, E, after, u);
  }

  lemma GainsAround(n: nat, k: nat, before: Rows, after: Rows, s: Word, f: nat)
    requires Gains(n, before, after) && HasAround(k, before, s, f) && f <= n
    ensures HasAround(k, after, s, f)
  {
  }

  lemma FilledHasAround(m: Mealy, E: seq<Word>, row: Rows, s: Word)
    requires WordsOver(m.k, E) && NonEmpty(E) && FilledAround(m, E, row, s)
    ensures HasAround(m.k, row, s, |E|)
  {
    TrueRowHas(m, E, row, s);
    forall a | 0 <= a < m.k
      ensures Has(row, s + [a], |E|)
    {
      TrueRowHas(m, E, row, s + [a]);
    }
  }

  /** The first n access words have all cells around them, the others at least f each. */
  ghost predicate HasAll(k: nat, S: seq<Word>, row: Rows, n: nat, full: nat, f: nat)
    requires n <= |S|
  {
    forall i :: 0 <= i < |S| ==> HasAround(k, row, S[i], if i < n then full else f)
  }

  lemma GainsAll(k: nat, S: seq<Word>, before: Rows, after: Rows, n: nat, full: nat, f: nat)
    requires n <= |S| && f <= full && Gains(full, before, after) && HasAll(k, S, before, n, full, f)
    ensures HasAll(k, S, after, n, full, f)
  {
    forall i | 0 <= i < |S|
      ensures HasAround(k, after, S[i], if i < n then full else f)
    {
      GainsAround(full, k, before, after, S[i], if i < n then full else f);
    }
  }

  /** Rows filled stay filled and no cell is lost. */
  ghost predicate Improves(m: Mealy, E: seq<Word>, before: Rows, after: Rows)
    requires WordsOver(m.k, E)
  {
    Keeps(m, E, before, after) && Gains(|E|, before, after)
  }

  lemma ImprovesFill(m: Mealy, E: seq<Word>, row: Rows, u: Word)
    requires WordsOver(m.k, E) && NonEmpty(E) && Over(m.k, u)
    ensures var after := row[u := TrueRow(m, E, u)]; Improves(m, E, row, after) && Filled(m, E, after, u)
  {
    KeepsFill(m, E, row, u);
    GainsFill(m, E, row, u);
  }

  lemma ImprovesTrans(m: Mealy, E: seq<Word>, r0: Rows, r1: Rows, r2: Rows)
    requires WordsOver(m.k, E) && Improves(m, E, r0, r1) && Improves(m, E, r1, r2)
    ensures Improves(m, E, r0, r2)
  {
    KeepsTrans(m, E, r0, r1, r2);
  }

  /** The loop over the extensions of s: the first a are filled, and nothing is lost since r0. */
  ghost predicate AroundAt(m: Mealy, E: seq<Word>, r0: Rows, row: Rows, s: Word, a: nat)
    requires WordsOver(m.k, E)
  {
    FilledUpto(m, E, row, s, a) && Improves(m, E, r0, row)
  }

  lemma AroundStart(m: Mealy, E: seq<Word>, r0: Rows, row: Rows, s: Word)
    requires WordsOver(m.k, E) && Filled(m, E, row, s) && Improves(m, E, r0, row)
    ensures AroundAt(m, E, r0, row, s, 0)
  {
  }

  lemma AroundStep(m: Mealy, E: seq<Word>, r0: Rows, r1: Rows, r2: Rows, s: Word, a: nat)
    requires WordsOver(m.k, E) && AroundAt(m, E, r0, r1, s, a) && Filled(m, E, r2, s + [a]) && Improves(m, E, r1, r2)
    ensures AroundAt(m, E, r0, r2, s, a + 1)
  {
    FillNext(m, E, r1, r2, s, a);
    ImprovesTrans(m, E, r0, r1, r2);
  }

  lemma AroundDone(m: Mealy, E: seq<Word>, r0: Rows, row: Rows, s: Word)
    requires WordsOver(m.k, E) && AroundAt(m, E, r0, row, s, m.k)
    ensures FilledAround(m, E, row, s) && Improves(m, E, r0, row)
  {
  }

  lemma ExtensionHas(m: Mealy, E: seq<Word>, r0: Rows, r1: Rows, s: Word, a: nat, f: nat)
    requires WordsOver(m.k, E) && AroundAt(m, E, r0, r1, s, a) && HasAround(m.k, r0, s, f) && f <= |E| && a < m.k
    ensures Has(r1, s + [a], f)
  {
    assert Has(r0, s + [a], f);
  }

  /** The loop over access words: the first i are filled, and all have what they had. */
  ghost predicate FillingAt(m: Mealy, S: seq<Word>, E: seq<Word>, row: Rows, n: nat, f: nat, i: nat) {
    && SoundTable(m, S, E, row) && n <= |S| && i <= |S| && f <= |E|
    && FilledFirst(m, S, E, row, i) && HasAll(m.k, S, row, n, |E|, f)
  }

  lemma FillingStart(m: Mealy, S: seq<Word>, E: seq<Word>, row: Rows, n: nat, f: nat)
    requires SoundTable(m, S, E, row) && n <= |S| && f <= |E| && HasAll(m.k, S, row, n, |E|, f)
    ensures FillingAt(m, S, E, row, n, f, 0)
  {
  }

  lemma FillingStep(m: Mealy, S: seq<Word>, E: seq<Word>, before: Rows, after: Rows, n: nat, f: nat, i: nat)
    requires i < |S| && FillingAt(m, S, E, before, n, f, i) && SoundTable(m, S, E, after)
    requires Improves(m, E, before, after) && FilledAround(m, E, after, S[i])
    ensures FillingAt(m, S, E, after, n, f, i + 1)
  {
    FillFirstNext(m, S, E, before, after, i);
    GainsAll(m.k, S, before, after, n, |E|, f);
  }

  /** What filling access word i needs. */
  lemma FillingHas(m: Mealy, S: seq<Word>, E: seq<Word>, row: Rows, n: nat, f: nat, i: nat)
    requires i < |S| && FillingAt(m, S, E, row, n, f, i)
    ensures Over(m.k, S[i]) && HasAround(m.k, row, S[i], if i < n then |E| else f)
  {
    assert S[i] in S;
  }

  lemma FillingDone(m: Mealy, S: seq<Word>, E: seq<Word>, row: Rows, n: nat, f: nat)
    requires FillingAt(m, S, E, row, n, f, |S|)
    ensures SoundTable(m, S, E, row) && AllFilled(m, S, E, row)
  {
  }

  /** A filled table, with one more access word whose rows may be missing. */
  lemma AccessHas(m: Mealy, S: seq<Word>, E: seq<Word>, row: Rows, u: Word)
    requires WordsOver(m.k, E) && NonEmpty(E) && AllFilled(m, S, E, row)
    ensures HasAll(m.k, S + [u], row, |S|, |E|, 0)
  {
    forall i | 0 <= i < |S + [u]|
      ensures HasAround(m.k, row, (S + [u])[i], if i < |S| then |E| else 0)
    {
      if i < |S| {
        FilledHasAround(m, E, row, S[i]);
      }
    }
  }

  /** A filled table, read with one more suffix. */
  lemma SuffixHas(m: Mealy, S: seq<Word>, E: seq<Word>, row: Rows)
    requires WordsOver(m.k, E) && NonEmpty(E) && AllFilled(m, S, E, row)
    ensures HasAll(m.k, S, row, 0, |E| + 1, |E|)
  {
    forall i | 0 <= i < |S|
      ensures HasAround(m.k, row, S[i], |E|)
    {
      FilledHasAround(m, E, row, S[i]);
    }
  }

  // ------------------------------------------------------------------------ the bound

  /** Filling the rows around one access word, d cells each. */
  function RowCost(k: nat, d: nat): nat {
    Times(k + 1, d)
  }

  /** What one more access word costs at most, over the whole run. */
  ghost function AccessCost(m: Mealy): nat {
    RowCost(m.k, m.k + Target(m))
  }

  /** What one more round costs at most: the counterexample's analysis and one more suffix. */
  ghost function RoundCost(m: Mealy): nat {
    Times(Target(m), RowCost(m.k, 1)) + Halvings(Times(Target(m), m.n)) + 2
  }

  ghost function Spend(m: Mealy, s: nat, r: nat): nat {
    Times(s, AccessCost(m)) + Times(r, RoundCost(m))
  }

  /** The bound of a run. */
  ghost function QueryBound(m: Mealy): nat {
    Spend(m, Target(m), Target(m))
  }

  /** In closed form: with t distinguishable states, k inputs and n states,
      t (k+1) (k+t) + t (t (k+1) + log (t n) + 2). */
  lemma {:induction false} QueryBoundIs(m: Mealy, t: nat, k: nat, n: nat)
    requires t == Target(m) && k == m.k && n == m.n
    ensures QueryBound(m) == t * ((k + 1) * (k + t)) + t * (t * (k + 1) + Halvings(Times(t, n)) + 2) && Times(t, n) == t * n
  {
    AccessCostIs(m, t, k);
    TimesIs(t, AccessCost(m));
    RoundCostIs(m, t, k, n);
    TimesIs(t, RoundCost(m));
    TimesIs(t, n);
  }

  lemma AccessCostIs(m: Mealy, t: nat, k: nat)
    requires t == Target(m) && k == m.k
    ensures AccessCost(m) == (k + 1) * (k + t)
  {
    TimesIs(k + 1, k + t);
  }

  lemma {:induction false} RoundCostIs(m: Mealy, t: nat, k: nat, n: nat)
    requires t == Target(m) && k == m.k && n == m.n
    ensures RoundCost(m) == t * (k + 1) + Halvings(Times(t, n)) + 2
  {
    TimesIs(k + 1, 1);
    TimesIs(t, RowCost(k, 1));
  }

  lemma SpendGrows(m: Mealy, s: nat, r: nat, s': nat, r': nat)
    requires s <= s' && r <= r'
    ensures Spend(m, s, r) <= Spend(m, s', r')
  {
    TimesMonotone(s, AccessCost(m), s', AccessCost(m));
    TimesMonotone(r, RoundCost(m), r', RoundCost(m));
  }

  /** Closing the table stays within what the access words may cost. */
  lemma SpendClose(m: Mealy, start: nat, mq0: nat, mq1: nat, s0: nat, s1: nat, r: nat, e: nat)
    requires mq0 <= start + Spend(m, s0, r) && e <= m.k + Target(m) && Within(mq0, mq1, s0, s1, RowCost(m.k, e))
    ensures mq1 <= start + Spend(m, s1, r)
  {
    TimesMonotone(m.k + 1, e, m.k + 1, m.k + Target(m));
    TimesMonotone(s1 - s0, RowCost(m.k, e), s1 - s0, AccessCost(m));
    TimesAdds(s0, s1 - s0, AccessCost(m));
  }

  /** Since mq0, with s0 access words then: a counterexample of length len analysed, a suffix
      added, and the table closed with s1 access words and e suffixes. */
  predicate Repaired(k: nat, mq0: nat, mq1: nat, s0: nat, s1: nat, e: nat, len: nat) {
    s0 <= s1 && mq1 <= mq0 + Halvings(len) + 2 + Times(s0, RowCost(k, 1)) + Times(s1 - s0, RowCost(k, e))
  }

  lemma {:induction false} RepairedBy(k: nat, mq0: nat, mq1: nat, mq2: nat, mq3: nat, s0: nat, s1: nat, e: nat, len: nat)
    requires mq1 <= mq0 + Halvings(len) + 2 && Within(mq1, mq2, 0, s0, RowCost(k, 1)) && Within(mq2, mq3, s0, s1, RowCost(k, e))
    ensures Repaired(k, mq0, mq3, s0, s1, e, len)
  {
  }

  /** Analysing a counterexample, adding its suffix and closing stays within what a round and the
      new access words may cost. */
  lemma {:induction false} SpendRound(m: Mealy, start: nat, mq0: nat, mq1: nat, s0: nat, s1: nat, r: nat, e: nat, len: nat)
    requires mq0 <= start + Spend(m, s0, r) && s0 <= Target(m) && len <= Times(s0, m.n) && e <= m.k + Target(m)
    requires Repaired(m.k, mq0, mq1, s0, s1, e, len)
    ensures mq1 <= start + Spend(m, s1, r + 1)
  {
    var mid := mq0 + Halvings(len) + 2 + Times(s0, RowCost(m.k, 1));
    TimesMonotone(s0, m.n, Target(m), m.n);
    HalvingsMonotone(len, Times(Target(m), m.n));
    TimesMonotone(s0, RowCost(m.k, 1), Target(m), RowCost(m.k, 1));
    assert mid <= start + Spend(m, s0, r + 1);
    if mq1 >= mid {
      SpendClose(m, start, mid, mq1, s0, s1, r + 1, e);
    } else {
      SpendGrows(m, s0, r + 1, s1, r + 1);
    }
  }

  lemma {:induction false} TimesZero(n: nat)
    ensures Times(n, 0) == 0
    decreases n
  {
    if n > 0 {
      TimesZero(n - 1);
    }
  }

  // ------------------------------------------------- how long a counterexample can be

  /** A word that no shorter separating word exists for. */
  ghost predicate Shortest(a: Mealy, b: Mealy, w: Word)
    requires a.k == b.k
  {
    Separates(a, 0, b, 0, w) && forall v: Word :: Separates(a, 0, b, 0, v) ==> |v| >= |w|
  }

  /** Cutting out the part of a word between two positions with the same pair of states. */
  lemma {:induction false} CutSeparates(a: Mealy, b: Mealy, w: Word, i: nat, j: nat)
    requires a.k == b.k && i < j < |w| && Over(a.k, w) && Separates(a, 0, b, 0, w)
    requires Reach(a, 0, w[..i]) == Reach(a, 0, w[..j]) && Reach(b, 0, w[..i]) == Reach(b, 0, w[..j])
    ensures Separates(a, 0, b, 0, w[..i] + w[j..]) || Separates(a, 0, b, 0, w[..j])
  {
    assert w == w[..j] + w[j..];
    RunConcat(a, 0, w[..j], w[j..]);
    RunConcat(b, 0, w[..j], w[j..]);
    RunConcat(a, 0, w[..i], w[j..]);
    RunConcat(b, 0, w[..i], w[j..]);
    if Run(a, 0, w[..j]) == Run(b, 0, w[..j]) {
      var p, q := Run(a, Reach(a, 0, w[..j]), w[j..]), Run(b, Reach(b, 0, w[..j]), w[j..]);
      assert p != q;
      assert Run(a, 0, w[..i] + w[j..])[i..] == p && Run(b, 0, w[..i] + w[j..])[i..] == q;
    }
  }

  /** A shortest word meets no pair of states twice. */
  lemma {:induction false} PairsDiffer(a: Mealy, b: Mealy, w: Word, i: nat, j: nat)
    requires a.k == b.k && Shortest(a, b, w) && i < j < |w|
    ensures Reach(a, 0, w[..i]) != Reach(a, 0, w[..j]) || Reach(b, 0, w[..i]) != Reach(b, 0, w[..j])
  {
    if Reach(a, 0, w[..i]) == Reach(a, 0, w[..j]) && Reach(b, 0, w[..i]) == Reach(b, 0, w[..j]) {
      CutSeparates(a, b, w, i, j);
    }
  }

  /** Pairs numbered row by row. */
  function Code(x: nat, y: nat, n: nat): nat {
    Times(x, n) + y
  }

  lemma {:induction false} CodeInjective(x: nat, y: nat, x': nat, y': nat, n: nat)
    requires y < n && y' < n && Code(x, y, n) == Code(x', y', n)
    ensures x == x' && y == y'
  {
    if x < x' {
      TimesMonotone(x + 1, n, x', n);
    } else if x' < x {
      TimesMonotone(x' + 1, n, x, n);
    }
  }

  lemma {:induction false} CodeBound(x: nat, y: nat, m: nat, n: nat)
    requires x < m && y < n
    ensures Code(x, y, n) < Times(m, n)
  {
    TimesMonotone(x + 1, n, m, n);
  }

  ghost function PairAt(a: Mealy, b: Mealy, w: Word, i: nat): nat
    requires a.k == b.k && Over(a.k, w) && i <= |w|
  {
    Code(Reach(a, 0, w[..i]), Reach(b, 0, w[..i]), b.n)
  }

  lemma PairAtDiffers(a: Mealy, b: Mealy, w: Word, i: nat, j: nat)
    requires a.k == b.k && Shortest(a, b, w) && i < |w| && j < |w| && i != j
    ensures PairAt(a, b, w, i) != PairAt(a, b, w, j)
  {
    if i < j {
      PairsDiffer(a, b, w, i, j);
    } else {
      PairsDiffer(a, b, w, j, i);
    }
    if PairAt(a, b, w, i) == PairAt(a, b, w, j) {
      CodeInjective(Reach(a, 0, w[..i]), Reach(b, 0, w[..i]), Reach(a, 0, w[..j]), Reach(b, 0, w[..j]), b.n);
    }
  }

  lemma PairBound(a: Mealy, b: Mealy, w: Word, i: nat, n: nat)
    requires a.k == b.k && Over(a.k, w) && i < |w| && n == Times(a.n, b.n)
    ensures PairAt(a, b, w, i) < n
  {
    CodeBound(Reach(a, 0, w[..i]), Reach(b, 0, w[..i]), a.n, b.n);
  }

  ghost function PairMap(a: Mealy, b: Mealy, w: Word): nat -> nat
    requires a.k == b.k && Over(a.k, w)
  {
    (i: nat) => if i < |w| then PairAt(a, b, w, i) else 0
  }

  /** A shortest counterexample is no longer than there are pairs of states. */
  lemma ShortestIsShort(a: Mealy, b: Mealy, w: Word, n: nat)
    requires a.k == b.k && Shortest(a, b, w) && n == Times(a.n, b.n)
    ensures |w| <= n
  {
    var f, len := PairMap(a, b, w), |w|;
    forall i: nat | i < len
      ensures f(i) < n
    {
      PairBound(a, b, w, i, n);
    }
    forall i: nat, j: nat | i < len && j < len && i != j
      ensures f(i) != f(j)
    {
      PairAtDiffers(a, b, w, i, j);
    }
    Pigeonhole(len, n, f);
  }

  lemma Pigeonhole(len: nat, n: nat, f: nat -> nat)
    requires forall i: nat :: i < len ==> f(i) < n
    requires forall i: nat, j: nat :: i < len && j < len && i != j ==> f(i) != f(j)
    ensures len <= n
  {
    InjectionSize(Below(len), Below(n), f);
  }
}
