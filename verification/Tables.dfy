/** The learner's stored rows, and the steps of its run as facts about tables: what growing S
    or E keeps, what a counterexample's analysis yields, and what passing a W-method suite
    proves. */
module Tables {
  import opened Machines
  import opened Options
  import opened WMethod
  import opened Observation

  type Rows = map<Word, seq<OutWord>>

  /** A cell is empty (not asked yet) or holds the system's answer. */
  ghost predicate CellSound(m: Mealy, E: seq<Word>, u: Word, j: nat, cell: OutWord)
    requires Over(m.k, u) && WordsOver(m.k, E) && j < |E|
  {
    cell == [] || cell == Run(m, Reach(m, 0, u), E[j])
  }

  ghost predicate RowSound(m: Mealy, E: seq<Word>, u: Word, r: seq<OutWord>)
    requires WordsOver(m.k, E)
  {
    Over(m.k, u) && |r| <= |E| && forall j :: 0 <= j < |r| ==> CellSound(m, E, u, j, r[j])
  }

  ghost predicate RowsSound(m: Mealy, E: seq<Word>, row: Rows)
    requires WordsOver(m.k, E)
  {
    forall u :: u in row ==> RowSound(m, E, u, row[u])
  }

  ghost predicate Filled(m: Mealy, E: seq<Word>, row: Rows, u: Word)
    requires WordsOver(m.k, E)
  {
    Over(m.k, u) && u in row && row[u] == TrueRow(m, E, u)
  }

  /** The rows of an access word and of its one-input extensions are filled. */
  ghost predicate FilledAround(m: Mealy, E: seq<Word>, row: Rows, s: Word)
    requires WordsOver(m.k, E)
  {
    Filled(m, E, row, s) && forall a :: 0 <= a < m.k ==> Filled(m, E, row, s + [a])
  }

  ghost predicate AllFilled(m: Mealy, S: seq<Word>, E: seq<Word>, row: Rows)
    requires WordsOver(m.k, E)
  {
    forall i :: 0 <= i < |S| ==> FilledAround(m, E, row, S[i])
  }

  /** A tree of access words whose cells are the system's answers. */
  ghost predicate SoundTable(m: Mealy, S: seq<Word>, E: seq<Word>, row: Rows) {
    Shape(m.k, S, E) && RowsSound(m, E, row)
  }

  /** And filled, with pairwise distinct rows. */
  ghost predicate ReadyTable(m: Mealy, S: seq<Word>, E: seq<Word>, row: Rows) {
    SoundTable(m, S, E, row) && AllFilled(m, S, E, row) && Distinct(m, S, E)
  }

  /** The row of u is the row of some access word. */
  ghost predicate RowKnown(m: Mealy, S: seq<Word>, E: seq<Word>, u: Word)
    requires WordsOver(m.k, S) && WordsOver(m.k, E)
  {
    Over(m.k, u) && exists j :: 0 <= j < |S| && TrueRow(m, E, u) == TrueRow(m, E, S[j])
  }

  ghost predicate TableClosed(m: Mealy, S: seq<Word>, E: seq<Word>)
    requires WordsOver(m.k, S) && WordsOver(m.k, E)
  {
    forall i :: 0 <= i < |S| ==> ExtensionsKnown(m, S, E, i)
  }

  ghost predicate ExtensionsKnown(m: Mealy, S: seq<Word>, E: seq<Word>, i: nat)
    requires WordsOver(m.k, S) && WordsOver(m.k, E) && i < |S|
  {
    forall a :: 0 <= a < m.k ==> RowKnown(m, S, E, S[i] + [a])
  }

  lemma TrueRowSound(m: Mealy, E: seq<Word>, row: Rows, u: Word)
    requires WordsOver(m.k, E) && RowsSound(m, E, row) && Over(m.k, u)
    ensures RowsSound(m, E, row[u := TrueRow(m, E, u)])
  {
  }

  /** Rows filled before are filled after. */
  ghost predicate Keeps(m: Mealy, E: seq<Word>, before: Rows, after: Rows)
    requires WordsOver(m.k, E)
  {
    forall u :: Filled(m, E, before, u) ==> Filled(m, E, after, u)
  }

  lemma KeepsFill(m: Mealy, E: seq<Word>, row: Rows, u: Word)
    requires WordsOver(m.k, E) && Over(m.k, u)
    ensures Keeps(m, E, row, row[u := TrueRow(m, E, u)]) && Filled(m, E, row[u := TrueRow(m, E, u)], u)
  {
  }

  lemma KeepsTrans(m: Mealy, E: seq<Word>, r0: Rows, r1: Rows, r2: Rows)
    requires WordsOver(m.k, E) && Keeps(m, E, r0, r1) && Keeps(m, E, r1, r2)
    ensures Keeps(m, E, r0, r2)
  {
  }

  lemma KeepsAround(m: Mealy, E: seq<Word>, before: Rows, after: Rows, s: Word)
    requires WordsOver(m.k, E) && Keeps(m, E, before, after) && FilledAround(m, E, before, s)
    ensures FilledAround(m, E, after, s)
  {
  }

  /** The rows of s and of its first n extensions are filled. */
  ghost predicate FilledUpto(m: Mealy, E: seq<Word>, row: Rows, s: Word, n: nat)
    requires WordsOver(m.k, E)
  {
    Filled(m, E, row, s) && forall a :: 0 <= a < n ==> Filled(m, E, row, s + [a])
  }

  lemma FillNext(m: Mealy, E: seq<Word>, before: Rows, after: Rows, s: Word, n: nat)
    requires WordsOver(m.k, E) && FilledUpto(m, E, before, s, n) && Keeps(m, E, before, after)
    requires Filled(m, E, after, s + [n])
    ensures FilledUpto(m, E, after, s, n + 1)
  {
  }

  /** The first n access words have their rows filled around them. */
  ghost predicate FilledFirst(m: Mealy, S: seq<Word>, E: seq<Word>, row: Rows, n: nat)
    requires WordsOver(m.k, E) && n <= |S|
  {
    forall i :: 0 <= i < n ==> FilledAround(m, E, row, S[i])
  }

  lemma FillFirstNext(m: Mealy, S: seq<Word>, E: seq<Word>, before: Rows, after: Rows, n: nat)
    requires WordsOver(m.k, E) && n < |S| && FilledFirst(m, S, E, before, n) && Keeps(m, E, before, after)
    requires FilledAround(m, E, after, S[n])
    ensures FilledFirst(m, S, E, after, n + 1)
  {
    forall i | 0 <= i < n
      ensures FilledAround(m, E, after, S[i])
    {
      KeepsAround(m, E, before, after, S[i]);
    }
  }

  /** A longer E leaves old cells sound. */
  lemma RowsSoundGrows(m: Mealy, E: seq<Word>, e: Word, row: Rows)
    requires WordsOver(m.k, E) && Over(m.k, e) && RowsSound(m, E, row)
    ensures WordsOver(m.k, E + [e]) && RowsSound(m, E + [e], row)
  {
    forall u | u in row
      ensures RowSound(m, E + [e], u, row[u])
    {
      assert forall j :: 0 <= j < |row[u]| ==> CellSound(m, E, u, j, row[u][j]);
    }
  }

  /** Extending S by a word one input longer than a member keeps the tree shape. */
  lemma ShapeGrows(k: nat, S: seq<Word>, E: seq<Word>, i: nat, a: nat)
    requires Shape(k, S, E) && i < |S| && a < k
    ensures Shape(k, S + [S[i] + [a]], E)
  {
    var T := S + [S[i] + [a]];
    assert S[i] in S && Over(k, S[i] + [a]);
    forall j | 0 < j < |T|
      ensures HasParent(k, T, j)
    {
      if j < |S| {
        assert HasParent(k, S, j);
        var p: nat, b: nat :| p < j && b < k && S[j] == S[p] + [b];
        assert T[j] == T[p] + [b];
      } else {
        assert T[j] == T[i] + [a];
      }
    }
  }

  /** ks holds exactly the rows of the access words. */
  ghost predicate KeySet(m: Mealy, S: seq<Word>, E: seq<Word>, ks: set<seq<OutWord>>)
    requires WordsOver(m.k, S) && WordsOver(m.k, E)
  {
    forall u {:trigger RowKnown(m, S, E, u)} :: Over(m.k, u) ==> (TrueRow(m, E, u) in ks <==> RowKnown(m, S, E, u))
  }

  ghost predicate KnownUpto(m: Mealy, S: seq<Word>, E: seq<Word>, n: nat)
    requires WordsOver(m.k, S) && WordsOver(m.k, E) && n <= |S|
  {
    n > 0 ==> ExtensionsKnown(m, S, E, n - 1) && KnownUpto(m, S, E, n - 1)
  }

  lemma {:induction false} KnownUptoAll(m: Mealy, S: seq<Word>, E: seq<Word>, n: nat)
    requires WordsOver(m.k, S) && WordsOver(m.k, E) && n <= |S| && KnownUpto(m, S, E, n)
    ensures forall i :: 0 <= i < n ==> ExtensionsKnown(m, S, E, i)
    decreases n
  {
    if n > 0 {
      KnownUptoAll(m, S, E, n - 1);
    }
  }

  /** Extension a of S[i] is the first, in the order of S and of the inputs, whose row no access
      word has. */
  ghost predicate FirstOpen(m: Mealy, S: seq<Word>, E: seq<Word>, i: nat, a: nat)
    requires WordsOver(m.k, S) && WordsOver(m.k, E)
  {
    && i < |S| && a < m.k && !RowKnown(m, S, E, S[i] + [a])
    && (forall b :: 0 <= b < a ==> RowKnown(m, S, E, S[i] + [b]))
    && (forall j :: 0 <= j < i ==> ExtensionsKnown(m, S, E, j))
  }

  /** The first extension whose row is unknown, or none exactly when the table is closed. */
  method FindOpen(m: Mealy, S: seq<Word>, E: seq<Word>, row: Rows) returns (r: Option<Word>, ghost i: nat, ghost a: nat)
    requires Shape(m.k, S, E) && Distinct(m, S, E) && AllFilled(m, S, E, row)
    ensures r.Some? ==> FirstOpen(m, S, E, i, a) && r.value == S[i] + [a]
    ensures r.Some? ==> Shape(m.k, S + [r.value], E) && Distinct(m, S + [r.value], E)
    ensures r.None? <==> TableClosed(m, S, E)
  {
    var ks := Keys(m, S, E, row);
    for x: nat := 0 to |S|
      invariant KnownUpto(m, S, E, x)
    {
      var c, open := FindOpenAt(m, S, E, row, ks, x);
      if open {
        KnownUptoAll(m, S, E, x);
        ShapeGrows(m.k, S, E, x, c);
        DistinctGrows(m, S, E, S[x] + [c]);
        assert !ExtensionsKnown(m, S, E, x);
        return Some(S[x] + [c]), x, c;
      }
    }
    KnownUptoAll(m, S, E, |S|);
    r, i, a := None, 0, 0;
  }

  method FindOpenAt(m: Mealy, S: seq<Word>, E: seq<Word>, row: Rows, ks: set<seq<OutWord>>, i: nat) returns (a: nat, open: bool)
    requires WordsOver(m.k, S) && WordsOver(m.k, E) && AllFilled(m, S, E, row) && i < |S|
    requires KeySet(m, S, E, ks)
    ensures open ==> a < m.k && Over(m.k, S[i] + [a]) && !RowKnown(m, S, E, S[i] + [a])
    ensures open ==> forall b :: 0 <= b < a ==> RowKnown(m, S, E, S[i] + [b])
    ensures !open ==> ExtensionsKnown(m, S, E, i)
  {
    assert FilledAround(m, E, row, S[i]);
    for c: nat := 0 to m.k
      invariant forall b :: 0 <= b < c ==> RowKnown(m, S, E, S[i] + [b])
    {
      assert Filled(m, E, row, S[i] + [c]);
      if row[S[i] + [c]] !in ks {
        return c, true;
      }
    }
    return 0, false;
  }

  /** The rows of the access words. */
  method Keys(m: Mealy, S: seq<Word>, E: seq<Word>, row: Rows) returns (ks: set<seq<OutWord>>)
    requires WordsOver(m.k, S) && WordsOver(m.k, E) && AllFilled(m, S, E, row)
    ensures KeySet(m, S, E, ks)
  {
    ks := {};
    for j := 0 to |S|
      invariant forall r :: r in ks <==> exists x :: 0 <= x < j && r == TrueRow(m, E, S[x])
    {
      assert FilledAround(m, E, row, S[j]);
      ks := ks + {row[S[j]]};
    }
  }

  lemma DistinctWidens(m: Mealy, S: seq<Word>, E: seq<Word>, e: Word)
    requires WordsOver(m.k, S) && WordsOver(m.k, E) && Distinct(m, S, E) && Over(m.k, e)
    ensures WordsOver(m.k, E + [e]) && Distinct(m, S, E + [e])
  {
    assert WordsOver(m.k, E + [e]);
    forall i, j | 0 <= i < j < |S|
      ensures TrueRow(m, E + [e], S[i]) != TrueRow(m, E + [e], S[j])
    {
      RowsWiden(m, E, e, S[i], S[j]);
    }
  }

  lemma ShapeWidens(k: nat, S: seq<Word>, E: seq<Word>, e: Word)
    requires Shape(k, S, E) && Over(k, e) && e != []
    ensures Shape(k, S, E + [e])
  {
  }

  // ------------------------------------------------------------------- the hypothesis

  /** idx sends each row of an access word to the last state with that row. */
  ghost predicate Indexes(m: Mealy, S: seq<Word>, E: seq<Word>, idx: map<seq<OutWord>, nat>, n: nat)
    requires WordsOver(m.k, S) && WordsOver(m.k, E) && n <= |S|
  {
    && (forall key :: key in idx ==> idx[key] < n && TrueRow(m, E, S[idx[key]]) == key)
    && (forall i :: 0 <= i < n ==> TrueRow(m, E, S[i]) in idx && i <= idx[TrueRow(m, E, S[i])])
  }

  /** No earlier access word has the row of S[n]. */
  ghost predicate NewRow(m: Mealy, S: seq<Word>, E: seq<Word>, n: nat)
    requires WordsOver(m.k, S) && WordsOver(m.k, E) && n < |S|
  {
    forall i :: 0 <= i < n ==> TrueRow(m, E, S[i]) != TrueRow(m, E, S[n])
  }

  ghost predicate DistinctUpto(m: Mealy, S: seq<Word>, E: seq<Word>, n: nat)
    requires WordsOver(m.k, S) && WordsOver(m.k, E) && n <= |S|
  {
    n > 0 ==> DistinctUpto(m, S, E, n - 1) && NewRow(m, S, E, n - 1)
  }

  lemma {:induction false} DistinctUptoNew(m: Mealy, S: seq<Word>, E: seq<Word>, n: nat, j: nat)
    requires WordsOver(m.k, S) && WordsOver(m.k, E) && j < n <= |S| && DistinctUpto(m, S, E, n)
    ensures NewRow(m, S, E, j)
    decreases n
  {
    if j < n - 1 {
      DistinctUptoNew(m, S, E, n - 1, j);
    }
  }

  lemma {:induction false} NewRowsDistinct(m: Mealy, S: seq<Word>, E: seq<Word>, n: nat)
    requires WordsOver(m.k, S) && WordsOver(m.k, E) && n <= |S| && Distinct(m, S, E)
    ensures DistinctUpto(m, S, E, n)
    decreases n
  {
    if n > 0 {
      NewRowsDistinct(m, S, E, n - 1);
    }
  }

  lemma {:induction false} DistinctUptoAll(m: Mealy, S: seq<Word>, E: seq<Word>)
    requires WordsOver(m.k, S) && WordsOver(m.k, E)
    ensures DistinctUpto(m, S, E, |S|) <==> Distinct(m, S, E)
  {
    if DistinctUpto(m, S, E, |S|) {
      forall i, j | 0 <= i < j < |S|
        ensures TrueRow(m, E, S[i]) != TrueRow(m, E, S[j])
      {
        DistinctUptoNew(m, S, E, |S|, j);
      }
    }
    if Distinct(m, S, E) {
      NewRowsDistinct(m, S, E, |S|);
    }
  }

  lemma NewRowExactly(m: Mealy, S: seq<Word>, E: seq<Word>, idx: map<seq<OutWord>, nat>, n: nat)
    requires WordsOver(m.k, S) && WordsOver(m.k, E) && n < |S| && Indexes(m, S, E, idx, n)
    ensures NewRow(m, S, E, n) <==> TrueRow(m, E, S[n]) !in idx
  {
    var key := TrueRow(m, E, S[n]);
    if key in idx {
      assert TrueRow(m, E, S[idx[key]]) == key;
    }
  }

  lemma IndexNext(m: Mealy, S: seq<Word>, E: seq<Word>, idx: map<seq<OutWord>, nat>, i: nat, n: nat, next: map<seq<OutWord>, nat>)
    requires WordsOver(m.k, S) && WordsOver(m.k, E) && i < |S| && n == i + 1 && Indexes(m, S, E, idx, i)
    requires next == idx[TrueRow(m, E, S[i]) := i]
    ensures Indexes(m, S, E, next, n)
  {
    forall k | k in next
      ensures next[k] < n && TrueRow(m, E, S[next[k]]) == k
    {
    }
    forall j | 0 <= j < n
      ensures TrueRow(m, E, S[j]) in next && j <= next[TrueRow(m, E, S[j])]
    {
    }
  }

  lemma EntrySize<K, V>(idx: map<K, V>, key: K, v: V)
    ensures |idx[key := v]| == |idx| + if key in idx then 0 else 1
  {
    assert idx[key := v].Keys == idx.Keys + {key};
    assert |idx[key := v]| == |idx[key := v].Keys| && |idx| == |idx.Keys|;
  }

  datatype RowIndex = RowIndex(idx: map<seq<OutWord>, nat>, dups: nat)

  function Entered(x: RowIndex, key: seq<OutWord>, i: nat): RowIndex {
    RowIndex(x.idx[key := i], x.dups + if key in x.idx then 1 else 0)
  }

  lemma RowOf(m: Mealy, S: seq<Word>, E: seq<Word>, row: Rows, i: nat)
    requires WordsOver(m.k, E) && AllFilled(m, S, E, row) && i < |S|
    ensures Over(m.k, S[i]) && S[i] in row && row[S[i]] == TrueRow(m, E, S[i])
  {
    assert FilledAround(m, E, row, S[i]);
  }

  function IndexUpto(m: Mealy, S: seq<Word>, E: seq<Word>, n: nat): RowIndex
    requires WordsOver(m.k, S) && WordsOver(m.k, E) && n <= |S|
  {
    if n == 0 then RowIndex(map[], 0) else Entered(IndexUpto(m, S, E, n - 1), TrueRow(m, E, S[n - 1]), n - 1)
  }

  lemma {:induction false} IndexUptoIndexes(m: Mealy, S: seq<Word>, E: seq<Word>, n: nat)
    requires WordsOver(m.k, S) && WordsOver(m.k, E) && n <= |S|
    ensures Indexes(m, S, E, IndexUpto(m, S, E, n).idx, n)
    decreases n
  {
    if n > 0 {
      IndexUptoIndexes(m, S, E, n - 1);
      IndexNext(m, S, E, IndexUpto(m, S, E, n - 1).idx, n - 1, n, IndexUpto(m, S, E, n).idx);
    }
  }

  lemma {:induction false} IndexUptoSize(m: Mealy, S: seq<Word>, E: seq<Word>, n: nat)
    requires WordsOver(m.k, S) && WordsOver(m.k, E) && n <= |S|
    ensures IndexUpto(m, S, E, n).dups + |IndexUpto(m, S, E, n).idx| == n
    decreases n
  {
    if n > 0 {
      IndexUptoSize(m, S, E, n - 1);
      EntrySize(IndexUpto(m, S, E, n - 1).idx, TrueRow(m, E, S[n - 1]), n - 1);
    }
  }

  lemma {:induction false} IndexUptoDistinct(m: Mealy, S: seq<Word>, E: seq<Word>, n: nat)
    requires WordsOver(m.k, S) && WordsOver(m.k, E) && n <= |S|
    ensures IndexUpto(m, S, E, n).dups == 0 <==> DistinctUpto(m, S, E, n)
    decreases n
  {
    if n > 0 {
      IndexUptoDistinct(m, S, E, n - 1);
      NewRowUpto(m, S, E, n - 1);
    }
  }

  lemma {:induction false} NewRowUpto(m: Mealy, S: seq<Word>, E: seq<Word>, n: nat)
    requires WordsOver(m.k, S) && WordsOver(m.k, E) && n < |S|
    ensures NewRow(m, S, E, n) <==> TrueRow(m, E, S[n]) !in IndexUpto(m, S, E, n).idx
  {
    IndexUptoIndexes(m, S, E, n);
    NewRowExactly(m, S, E, IndexUpto(m, S, E, n).idx, n);
  }

  /** Indexes the rows of S; a repeated row is counted and the later state kept. So the count is
      what S has more than rows, and zero exactly if all rows differ. */
  method IndexRows(m: Mealy, S: seq<Word>, E: seq<Word>, row: Rows) returns (idx: map<seq<OutWord>, nat>, dups: nat)
    requires WordsOver(m.k, S) && WordsOver(m.k, E) && AllFilled(m, S, E, row)
    ensures Indexes(m, S, E, idx, |S|) && dups + |idx| == |S|
    ensures dups == 0 <==> Distinct(m, S, E)
  {
    idx, dups := map[], 0;
    for i: nat := 0 to |S|
      invariant RowIndex(idx, dups) == IndexUpto(m, S, E, i)
    {
      RowOf(m, S, E, row, i);
      if row[S[i]] in idx {
        dups := dups + 1;
      }
      idx := idx[row[S[i]] := i];
    }
    IndexUptoIndexes(m, S, E, |S|);
    IndexUptoSize(m, S, E, |S|);
    IndexUptoDistinct(m, S, E, |S|);
    DistinctUptoAll(m, S, E);
  }

  /** Transitions and outputs of state i as the table gives them; an extension whose row is
      unknown stays. */
  ghost predicate BuiltRow(m: Mealy, S: seq<Word>, E: seq<Word>, i: nat, d: seq<int>, o: seq<int>)
    requires Shape(m.k, S, E) && i < |S|
  {
    && |d| == |o| == m.k
    && forall a :: 0 <= a < m.k ==> BuiltCell(m, S, E, i, a, d[a], o[a])
  }

  ghost predicate BuiltCell(m: Mealy, S: seq<Word>, E: seq<Word>, i: nat, a: nat, d: int, o: int)
    requires Shape(m.k, S, E) && i < |S| && a < m.k
  {
    && Over(m.k, S[i]) && Over(m.k, S[i] + [a])
    && 0 <= d < |S| && o == m.o[Reach(m, 0, S[i])][a]
    && (RowKnown(m, S, E, S[i] + [a]) ==> TrueRow(m, E, S[i] + [a]) == TrueRow(m, E, S[d]))
    && (!RowKnown(m, S, E, S[i] + [a]) ==> d == i)
  }

  ghost predicate BuiltUpto(m: Mealy, S: seq<Word>, E: seq<Word>, i: nat, d: seq<int>, o: seq<int>, n: nat)
    requires Shape(m.k, S, E) && i < |S| && n <= m.k
  {
    |d| == |o| == n && forall b :: 0 <= b < n ==> BuiltCell(m, S, E, i, b, d[b], o[b])
  }

  method BuildRow(m: Mealy, S: seq<Word>, E: seq<Word>, row: Rows, idx: map<seq<OutWord>, nat>, i: nat)
    returns (d: seq<int>, o: seq<int>)
    requires Shape(m.k, S, E) && AllFilled(m, S, E, row) && Indexes(m, S, E, idx, |S|) && i < |S|
    ensures BuiltRow(m, S, E, i, d, o)
  {
    d, o := [], [];
    assert FilledAround(m, E, row, S[i]);
    SingleInputCells(m, S, E, S[i]);
    for a: nat := 0 to m.k
      invariant BuiltUpto(m, S, E, i, d, o, a)
    {
      assert Filled(m, E, row, S[i] + [a]);
      var key := row[S[i] + [a]];
      var next := if key in idx then idx[key] else i;
      BuiltHere(m, S, E, idx, i, a, next);
      BuiltNext(m, S, E, i, d, o, a, next, row[S[i]][a][0]);
      d, o := d + [next], o + [row[S[i]][a][0]];
    }
  }

  lemma BuiltNext(m: Mealy, S: seq<Word>, E: seq<Word>, i: nat, d: seq<int>, o: seq<int>, a: nat, next: nat, out: int)
    requires Shape(m.k, S, E) && i < |S| && a < m.k && BuiltUpto(m, S, E, i, d, o, a)
    requires BuiltCell(m, S, E, i, a, next, out)
    ensures BuiltUpto(m, S, E, i, d + [next], o + [out], a + 1)
  {
  }

  lemma {:induction false} BuiltHere(m: Mealy, S: seq<Word>, E: seq<Word>, idx: map<seq<OutWord>, nat>, i: nat, a: nat, next: nat)
    requires Shape(m.k, S, E) && Indexes(m, S, E, idx, |S|) && i < |S| && a < m.k
    requires Over(m.k, S[i]) && Over(m.k, S[i] + [a])
    requires var key := TrueRow(m, E, S[i] + [a]); next == if key in idx then idx[key] else i
    ensures BuiltCell(m, S, E, i, a, next, m.o[Reach(m, 0, S[i])][a])
  {
  }

  lemma BuiltIsReadOff(m: Mealy, S: seq<Word>, E: seq<Word>, h: Mealy)
    requires Shape(m.k, S, E) && h.n == |S| && h.k == m.k && TableClosed(m, S, E)
    requires forall i :: 0 <= i < |S| ==> BuiltRow(m, S, E, i, h.d[i], h.o[i])
    ensures ReadOff(m, S, E, h)
  {
    forall i, a | 0 <= i < h.n && 0 <= a < h.k
      ensures ReadOffAt(m, S, E, h, i, a)
    {
      assert BuiltCell(m, S, E, i, a, h.d[i][a], h.o[i][a]);
      assert ExtensionsKnown(m, S, E, i);
    }
  }

  /** A machine with one state per access word; if the table is closed, the one it describes. */
  ghost predicate HypothesisFor(m: Mealy, S: seq<Word>, E: seq<Word>, h: Mealy)
    requires Shape(m.k, S, E)
  {
    h.n == |S| && h.k == m.k && (TableClosed(m, S, E) ==> ReadOff(m, S, E, h))
  }

  ghost predicate BuiltAll(m: Mealy, S: seq<Word>, E: seq<Word>, h: Mealy)
    requires Shape(m.k, S, E) && h.n == |S|
  {
    forall i :: 0 <= i < |S| ==> BuiltRow(m, S, E, i, h.d[i], h.o[i])
  }

  /** Builds the hypothesis. It is always a machine with one state per access word; with
      distinct rows no duplicate is counted, and if the table is closed the hypothesis is the
      one the table describes. */
  method BuildHypothesis(m: Mealy, S: seq<Word>, E: seq<Word>, row: Rows) returns (h: Mealy, dups: nat)
    requires Shape(m.k, S, E) && AllFilled(m, S, E, row)
    ensures HypothesisFor(m, S, E, h) && BuiltAll(m, S, E, h)
    ensures dups == 0 <==> Distinct(m, S, E)
  {
    var idx;
    idx, dups := IndexRows(m, S, E, row);
    var d, o := BuildRows(m, S, E, row, idx);
    BuiltWellFormed(m, S, E, d, o);
    h := Table(|S|, m.k, d, o);
    BuiltIsHypothesis(m, S, E, h);
  }

  ghost predicate BuiltFirst(m: Mealy, S: seq<Word>, E: seq<Word>, d: seq<seq<int>>, o: seq<seq<int>>, n: nat)
    requires Shape(m.k, S, E) && n <= |S|
  {
    |d| == |o| == n && forall i :: 0 <= i < n ==> BuiltRow(m, S, E, i, d[i], o[i])
  }

  method BuildRows(m: Mealy, S: seq<Word>, E: seq<Word>, row: Rows, idx: map<seq<OutWord>, nat>)
    returns (d: seq<seq<int>>, o: seq<seq<int>>)
    requires Shape(m.k, S, E) && AllFilled(m, S, E, row) && Indexes(m, S, E, idx, |S|)
    ensures BuiltFirst(m, S, E, d, o, |S|)
  {
    d, o := [], [];
    for i: nat := 0 to |S|
      invariant BuiltFirst(m, S, E, d, o, i)
    {
      var di, oi := BuildRow(m, S, E, row, idx, i);
      BuiltFirstNext(m, S, E, d, o, i, di, oi);
      d, o := d + [di], o + [oi];
    }
  }

  lemma BuiltFirstNext(m: Mealy, S: seq<Word>, E: seq<Word>, d: seq<seq<int>>, o: seq<seq<int>>, n: nat, di: seq<int>, oi: seq<int>)
    requires Shape(m.k, S, E) && n < |S| && BuiltFirst(m, S, E, d, o, n) && BuiltRow(m, S, E, n, di, oi)
    ensures BuiltFirst(m, S, E, d + [di], o + [oi], n + 1)
  {
    forall i | 0 <= i < n + 1
      ensures BuiltRow(m, S, E, i, (d + [di])[i], (o + [oi])[i])
    {
      if i < n {
        assert BuiltRow(m, S, E, i, d[i], o[i]);
      }
    }
  }

  lemma BuiltIsHypothesis(m: Mealy, S: seq<Word>, E: seq<Word>, h: Mealy)
    requires Shape(m.k, S, E) && h.n == |S| && h.k == m.k && BuiltFirst(m, S, E, h.d, h.o, |S|)
    ensures HypothesisFor(m, S, E, h) && BuiltAll(m, S, E, h)
  {
    if TableClosed(m, S, E) {
      BuiltIsReadOff(m, S, E, h);
    }
  }

  lemma BuiltWellFormed(m: Mealy, S: seq<Word>, E: seq<Word>, d: seq<seq<int>>, o: seq<seq<int>>)
    requires Shape(m.k, S, E) && BuiltFirst(m, S, E, d, o, |S|)
    ensures WellFormed(Table(|S|, m.k, d, o))
  {
    forall i, a | 0 <= i < |S| && 0 <= a < m.k
      ensures 0 <= d[i][a] < |S|
    {
      assert BuiltCell(m, S, E, i, a, d[i][a], o[i][a]);
    }
  }

  /** The single-input columns hold the outputs of the state reached. */
  lemma {:induction false} SingleInputCells(m: Mealy, S: seq<Word>, E: seq<Word>, u: Word)
    requires Shape(m.k, S, E) && Over(m.k, u)
    ensures forall a :: 0 <= a < m.k ==> TrueRow(m, E, u)[a] == [m.o[Reach(m, 0, u)][a]]
  {
  }

  lemma DistinctGrows(m: Mealy, S: seq<Word>, E: seq<Word>, u: Word)
    requires WordsOver(m.k, S) && WordsOver(m.k, E) && Over(m.k, u) && Distinct(m, S, E)
    requires !RowKnown(m, S, E, u)
    ensures WordsOver(m.k, S + [u]) && Distinct(m, S + [u], E)
  {
  }

  function LastN(o: OutWord, n: nat): OutWord
    requires n <= |o|
  {
    o[|o| - n..]
  }

  lemma {:induction false} LastOfRun(m: Mealy, u: Word, e: Word)
    requires Over(m.k, u) && Over(m.k, e)
    ensures Over(m.k, u + e) && LastN(Run(m, 0, u + e), |e|) == Run(m, Reach(m, 0, u), e)
  {
    RunConcat(m, 0, u, e);
  }

  /** The suffix e tells the row of some S[q].a from the row the hypothesis equates it with. */
  ghost predicate SplitsRow(m: Mealy, S: seq<Word>, h: Mealy, e: Word)
    requires WordsOver(m.k, S) && h.k == m.k && h.n == |S|
  {
    Over(m.k, e) && exists q: nat, a: nat :: q < |S| && a < m.k && SplitsRowAt(m, S, h, e, q, a)
  }

  ghost predicate SplitsRowAt(m: Mealy, S: seq<Word>, h: Mealy, e: Word, q: nat, a: nat)
    requires WordsOver(m.k, S) && h.k == m.k && h.n == |S| && Over(m.k, e) && q < |S| && a < m.k
  {
    && Over(m.k, S[q] + [a])
    && Run(m, Reach(m, 0, S[q] + [a]), e) != Run(m, Reach(m, 0, S[h.d[q][a]]), e)
  }

  /** Adding a suffix that splits a row keeps S distinct and leaves the table open. */
  lemma SplitOpens(m: Mealy, S: seq<Word>, E: seq<Word>, h: Mealy, e: Word)
    requires Shape(m.k, S, E) && Distinct(m, S, E) && ReadOff(m, S, E, h) && SplitsRow(m, S, h, e)
    ensures WordsOver(m.k, E + [e]) && Distinct(m, S, E + [e]) && !TableClosed(m, S, E + [e])
  {
    var q: nat, a: nat :| q < |S| && a < m.k && SplitsRowAt(m, S, h, e, q, a);
    SuffixOpensTable(m, S, E, h, q, a, e);
    assert !RowKnown(m, S, E + [e], S[q] + [a]);
    assert !ExtensionsKnown(m, S, E + [e], q);
  }

  lemma SplitOpensIf(m: Mealy, S: seq<Word>, E: seq<Word>, h: Mealy, e: Word)
    requires Shape(m.k, S, E) && Distinct(m, S, E) && h.k == m.k && h.n == |S| && Over(m.k, e)
    ensures WordsOver(m.k, E + [e]) && Distinct(m, S, E + [e])
    ensures ReadOff(m, S, E, h) && SplitsRow(m, S, h, e) ==> !TableClosed(m, S, E + [e])
  {
    DistinctWidens(m, S, E, e);
    if ReadOff(m, S, E, h) && SplitsRow(m, S, h, e) {
      SplitOpens(m, S, E, h, e);
    }
  }

  /** The position at which the search of a true counterexample stops gives a new suffix that
      splits a row, and neither detector there fires. */
  lemma {:induction false} AnalysisProgress(m: Mealy, S: seq<Word>, E: seq<Word>, h: Mealy, ce: Word, lo: nat)
    requires Shape(m.k, S, E) && ReadOff(m, S, E, h) && Over(h.k, ce) && lo < |ce|
    requires Differs(m, S, h, ce, lo) && !Differs(m, S, h, ce, lo + 1)
    ensures var q := Reach(h, 0, ce[..lo]);
            Run(m, Reach(m, 0, S[q]), ce[lo..])[0] == Run(h, q, ce[lo..])[0]
    ensures ce[lo + 1..] != [] && ce[lo + 1..] !in E && SplitsRow(m, S, h, ce[lo + 1..])
  {
    DifferenceVanishes(m, S, E, h, ce, lo);
    assert SplitsRowAt(m, S, h, ce[lo + 1..], StateAt(h, ce, lo), ce[lo]);
  }

  /** A sound table, a hypothesis with a state for every access word, and a word to analyse. */
  ghost predicate Analysable(m: Mealy, S: seq<Word>, E: seq<Word>, row: Rows, h: Mealy, ce: Word) {
    SoundTable(m, S, E, row) && h.n == |S| && h.k == m.k && Over(m.k, ce)
  }

  /** The difference is there at lo and gone at hi, if ce separates at all. */
  ghost predicate Bracket(m: Mealy, S: seq<Word>, E: seq<Word>, row: Rows, h: Mealy, ce: Word, lo: nat, hi: nat) {
    && Analysable(m, S, E, row, h, ce)
    && lo <= hi <= |ce| && (ce != [] ==> lo < hi)
    && (Separates(h, 0, m, 0, ce) ==> Differs(m, S, h, ce, lo) && !Differs(m, S, h, ce, hi))
  }

  lemma BracketWhole(m: Mealy, S: seq<Word>, E: seq<Word>, row: Rows, h: Mealy, ce: Word)
    requires Analysable(m, S, E, row, h, ce)
    ensures Bracket(m, S, E, row, h, ce, 0, |ce|)
  {
    DiffersAtEnds(m, S, h, ce);
  }

  /** The position a search ends at: the difference disappears there. */
  ghost predicate Boundary(m: Mealy, S: seq<Word>, E: seq<Word>, row: Rows, h: Mealy, ce: Word, lo: nat) {
    && Analysable(m, S, E, row, h, ce) && (if ce == [] then lo == 0 else lo < |ce|)
    && (Separates(h, 0, m, 0, ce) ==> lo < |ce| && Differs(m, S, h, ce, lo) && !Differs(m, S, h, ce, lo + 1))
  }

  /** A bracket of one position is a boundary. */
  lemma BracketCloses(m: Mealy, S: seq<Word>, E: seq<Word>, row: Rows, h: Mealy, ce: Word, lo: nat, hi: nat)
    requires Bracket(m, S, E, row, h, ce, lo, hi) && hi - lo <= 1
    ensures Boundary(m, S, E, row, h, ce, lo)
  {
  }

  /** What the analysis makes of the boundary it found. */
  datatype Verdict = BadOutput | Duplicate | Fresh

  function Judge(sulOut: OutWord, hypOut: OutWord, suffix: Word, E: seq<Word>): (v: Verdict)
    requires |sulOut| == |hypOut|
  {
    if sulOut == [] || sulOut[0] != hypOut[0] || suffix == [] then BadOutput
    else if suffix in E then Duplicate
    else Fresh
  }

  /** At position lo of ce system and hypothesis put out different symbols, or no suffix follows. */
  ghost predicate BadAt(m: Mealy, S: seq<Word>, h: Mealy, ce: Word, lo: nat)
    requires WordsOver(m.k, S) && h.n == |S| && h.k == m.k && Over(m.k, ce) && lo <= |ce|
  {
    lo + 1 >= |ce| || m.o[Reach(m, 0, S[Reach(h, 0, ce[..lo])])][ce[lo]] != h.o[Reach(h, 0, ce[..lo])][ce[lo]]
  }

  /** The suffix after lo is one the table has. */
  ghost predicate RepeatsAt(E: seq<Word>, ce: Word, lo: nat) {
    lo < |ce| && ce[lo + 1..] in E
  }

  lemma {:induction false} VerdictIs(m: Mealy, S: seq<Word>, E: seq<Word>, h: Mealy, ce: Word, lo: nat)
    requires WordsOver(m.k, S) && h.n == |S| && h.k == m.k && Over(m.k, ce) && lo <= |ce|
    ensures var q := Reach(h, 0, ce[..lo]);
            Judge(Run(m, Reach(m, 0, S[q]), ce[lo..]), Run(h, q, ce[lo..]), if lo < |ce| then ce[lo + 1..] else [], E) ==
            if BadAt(m, S, h, ce, lo) then BadOutput else if RepeatsAt(E, ce, lo) then Duplicate else Fresh
  {
  }

  lemma {:induction false} AnalysisVerdict(m: Mealy, S: seq<Word>, E: seq<Word>, h: Mealy, ce: Word, lo: nat, sulOut: OutWord, hypOut: OutWord)
    requires Shape(m.k, S, E) && h.k == m.k && h.n == |S| && Over(h.k, ce) && lo < |ce|
    requires var q := Reach(h, 0, ce[..lo]);
             sulOut == Run(m, Reach(m, 0, S[q]), ce[lo..]) && hypOut == Run(h, q, ce[lo..])
    requires Separates(h, 0, m, 0, ce) ==> Differs(m, S, h, ce, lo) && !Differs(m, S, h, ce, lo + 1)
    ensures ReadOff(m, S, E, h) && Separates(h, 0, m, 0, ce) ==>
              Judge(sulOut, hypOut, ce[lo + 1..], E).Fresh? && SplitsRow(m, S, h, ce[lo + 1..])
  {
    if ReadOff(m, S, E, h) && Separates(h, 0, m, 0, ce) {
      AnalysisProgress(m, S, E, h, ce, lo);
    }
  }

  // ------------------------------------------------------------------- W-method pieces

  /** The words over 0..k-1 of length at most depth. */
  method Middle(k: nat, depth: nat) returns (mid: seq<Word>)
    ensures forall x: Word :: x in mid <==> Over(k, x) && |x| <= depth
  {
    mid := [[]];
    var frontier: seq<Word> := [[]];
    for lvl := 0 to depth
      invariant forall x: Word :: x in mid <==> Over(k, x) && |x| <= lvl
      invariant forall x: Word :: x in frontier <==> Over(k, x) && |x| == lvl
    {
      frontier := Extend(k, frontier, lvl);
      mid := mid + frontier;
    }
  }

  /** Every one-symbol extension of the words of one length. */
  method Extend(k: nat, frontier: seq<Word>, l: nat) returns (nf: seq<Word>)
    requires forall x: Word :: x in frontier <==> Over(k, x) && |x| == l
    ensures forall x: Word :: x in nf <==> Over(k, x) && |x| == l + 1
  {
    nf := [];
    for i := 0 to |frontier|
      invariant forall x :: x in nf ==> Over(k, x) && |x| == l + 1
      invariant forall j, a: nat :: 0 <= j < i && a < k ==> frontier[j] + [a] in nf
    {
      for a: nat := 0 to k
        invariant forall x :: x in nf ==> Over(k, x) && |x| == l + 1
        invariant forall j, b: nat :: 0 <= j < i && b < k ==> frontier[j] + [b] in nf
        invariant forall b: nat :: b < a ==> frontier[i] + [b] in nf
      {
        assert frontier[i] in frontier;
        nf := nf + [frontier[i] + [a]];
      }
    }
    forall x: Word | Over(k, x) && |x| == l + 1
      ensures x in nf
    {
      assert x == x[..l] + [x[l]];
      assert x[..l] in frontier;
      var j :| 0 <= j < |frontier| && frontier[j] == x[..l];
    }
  }

  /** The suite of the W-method. */
  function Suite(S: seq<Word>, mid: seq<Word>, W: seq<Word>): set<Word> {
    set s, x, w | s in S && x in mid && w in W :: s + x + w
  }

  /** A test of the suite: an access word, up to depth inputs, and a word of W. */
  ghost predicate InSuite(k: nat, S: seq<Word>, depth: nat, W: seq<Word>, t: Word) {
    exists s: Word, x: Word, w: Word :: s in S && Over(k, x) && |x| <= depth && w in W && t == s + x + w
  }

  lemma SuiteIs(k: nat, S: seq<Word>, mid: seq<Word>, depth: nat, W: seq<Word>, t: Word)
    requires forall x: Word :: x in mid <==> Over(k, x) && |x| <= depth
    ensures t in Suite(S, mid, W) <==> InSuite(k, S, depth, W, t)
  {
  }

  lemma SuiteOver(k: nat, S: seq<Word>, mid: seq<Word>, W: seq<Word>)
    requires WordsOver(k, S) && WordsOver(k, mid) && WordsOver(k, W)
    ensures forall t :: t in Suite(S, mid, W) ==> Over(k, t)
  {
  }

  lemma {:induction false} SuitePassed(h: Mealy, m: Mealy, S: seq<Word>, mid: seq<Word>, W: seq<Word>, extra: nat)
    requires h.k == m.k
    requires forall x: Word :: x in mid <==> Over(h.k, x) && |x| <= 1 + extra
    requires forall t :: t in Suite(S, mid, W) && Over(h.k, t) ==> Run(h, 0, t) == Run(m, 0, t)
    ensures SuitePasses(h, m, S, W, extra)
  {
    forall i, x: Word, w: Word | 0 <= i < |S| && Over(h.k, x) && |x| <= 1 + extra && w in W
      ensures Agree(h, 0, m, 0, S[i] + x, w)
    {
      assert S[i] in S && x in mid;
      assert S[i] + x + w in Suite(S, mid, W);
    }
  }

  /** With W := E the suite is sound too, and against a larger budget: passing it makes the
      access states pairwise apart, because the rows of S are. */
  lemma SuffixesCharacterize(h: Mealy, m: Mealy, S: seq<Word>, E: seq<Word>, extra: nat)
    requires Shape(m.k, S, E) && Distinct(m, S, E) && ReadOff(m, S, E, h) && E != []
    requires SuitePasses(h, m, S, E, extra) && Target(m) <= |S| + extra
    ensures Alike(h, 0, m, 0)
  {
    ReadOffCovers(m, S, E, h);
    var T := AccessStates(m, S, E);
    SoundFromApart(h, m, S, E, extra, T);
  }

  /** x and y differ first at j, or not at all if j is their length. */
  ghost predicate FirstDiffers(x: OutWord, y: OutWord, j: nat) {
    |x| == |y| && j <= |x| && x[..j] == y[..j] && (j < |x| ==> x[j] != y[j])
  }

  /** The first position at which two outputs of one length differ, or their length. */
  method FirstMismatch(x: OutWord, y: OutWord) returns (j: nat)
    requires |x| == |y|
    ensures FirstDiffers(x, y, j)
  {
    j := 0;
    while j < |x| && x[j] == y[j]
      invariant j <= |x| && x[..j] == y[..j]
    {
      j := j + 1;
    }
  }

  /** Cutting a counterexample after its first difference leaves a counterexample. */
  lemma {:induction false} OutputOfPrefix(m: Mealy, c: Word, u: Word, j: nat)
    requires Over(m.k, c) && j < |c| && u == c[..j + 1]
    ensures Over(m.k, u) && Run(m, 0, u)[j] == Run(m, 0, c)[j]
  {
    assert u[..j] == c[..j] && u[j] == c[j];
    RunAt(m, 0, c, j);
    RunAt(m, 0, u, j);
  }

  lemma {:induction false} TrimmedSeparates(h: Mealy, m: Mealy, c: Word, j: nat)
    requires h.k == m.k && Over(h.k, c) && j < |c| && Run(h, 0, c)[j] != Run(m, 0, c)[j]
    ensures Separates(h, 0, m, 0, c[..j + 1])
  {
    OutputOfPrefix(h, c, c[..j + 1], j);
    OutputOfPrefix(m, c, c[..j + 1], j);
  }

  /** How the W-method oracle picks its suffixes and how many extra states it covers. */
  datatype Plan = Plan(useEAsW: bool, extra: nat)

  /** The system's reachable states are few enough for the suite to be conclusive. */
  ghost predicate WithinBudget(m: Mealy, S: seq<Word>, h: Mealy, plan: Plan) {
    Target(m) <= (if plan.useEAsW then |S| else |Representatives(h, AllStates(h))|) + plan.extra
  }

  /** The suffixes a plan allows. */
  ghost predicate Allowed(E: seq<Word>, h: Mealy, plan: Plan, W: seq<Word>) {
    W != [] && if plan.useEAsW then W == E else Characterizes(h, W)
  }

  /** A passed suite within budget proves equivalence. */
  lemma PassedIsAlike(m: Mealy, S: seq<Word>, E: seq<Word>, h: Mealy, plan: Plan, W: seq<Word>)
    requires Shape(m.k, S, E) && Distinct(m, S, E) && ReadOff(m, S, E, h)
    requires Allowed(E, h, plan, W) && SuitePasses(h, m, S, W, plan.extra) && WithinBudget(m, S, h, plan)
    ensures Alike(h, 0, m, 0)
  {
    if plan.useEAsW {
      SuffixesCharacterize(h, m, S, E, plan.extra);
    } else {
      ReadOffCovers(m, S, E, h);
      WMethodSound(h, m, S, W, plan.extra);
    }
  }

  /** If no word is needed to tell states apart, any word characterizes. */
  lemma EmptyCharacterizes(h: Mealy, w: Word)
    requires Characterizes(h, []) && Over(h.k, w)
    ensures Characterizes(h, [w])
  {
    forall p, q | 0 <= p < h.n && 0 <= q < h.n
      ensures Alike(h, p, h, q) && !Separates(h, p, h, q, w)
    {
    }
  }

  /** The hypothesis a closed table with distinct rows describes is unique. */
  lemma ReadOffUnique(m: Mealy, S: seq<Word>, E: seq<Word>, g: Mealy, h: Mealy)
    requires Shape(m.k, S, E) && Distinct(m, S, E) && ReadOff(m, S, E, g) && ReadOff(m, S, E, h)
    ensures g == h
  {
    forall i | 0 <= i < |S|
      ensures g.d[i] == h.d[i] && g.o[i] == h.o[i]
    {
      forall a | 0 <= a < m.k
        ensures g.d[i][a] == h.d[i][a] && g.o[i][a] == h.o[i][a]
      {
        assert ReadOffAt(m, S, E, g, i, a) && ReadOffAt(m, S, E, h, i, a);
        DistinctRows(m, S, E, g.d[i][a], h.d[i][a]);
      }
    }
  }

  /** A hypothesis read off a table and equivalent to the system is minimal. */
  lemma EquivalentIsMinimal(m: Mealy, S: seq<Word>, E: seq<Word>, h: Mealy)
    requires Shape(m.k, S, E) && Distinct(m, S, E) && h.k == m.k && h.n == |S| && Alike(h, 0, m, 0)
    ensures |S| == Target(m)
  {
    DistinctBound(m, S, E);
    EquivalentIsLarge(m, h);
  }
}
