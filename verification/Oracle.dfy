/** The membership oracle: a deterministic system under learning, the prefix-trie query cache
    in front of it, and the query operation with cache bypass, audits and majority votes. */
module Oracles {
  import opened Machines
  import opened Options

  // ---------------------------------------------------------------- the cache, as a map

  /** The cache's content: the output recorded on the last edge of every non-empty word held. */
  type Edges = map<Word, int>

  /** Words are held together with all their prefixes. */
  ghost predicate PrefixClosed(edge: Edges) {
    [] !in edge && forall w {:trigger Parent(w)} :: w in edge ==> Held(edge, Parent(w))
  }

  /** The word without its last symbol. */
  function Parent(w: Word): Word {
    if w == [] then [] else w[..|w| - 1]
  }

  ghost predicate Held(edge: Edges, w: Word) {
    w == [] || w in edge
  }

  lemma {:induction false} HeldPrefixes(edge: Edges, w: Word, n: nat)
    requires PrefixClosed(edge) && Held(edge, w) && n <= |w|
    ensures Held(edge, w[..n])
    decreases |w| - n
  {
    if n == |w| {
      assert w[..n] == w;
    } else {
      HeldPrefixes(edge, w, n + 1);
      assert Parent(w[..n + 1]) == w[..n];
    }
  }

  /** The first n prefixes of w are held. */
  ghost predicate HeldUpto(edge: Edges, w: Word, n: nat)
    requires n <= |w|
  {
    n > 0 ==> w[..n] in edge && HeldUpto(edge, w, n - 1)
  }

  /** The outputs recorded along the first n symbols of w. */
  ghost function Recorded(edge: Edges, w: Word, n: nat): (r: OutWord)
    requires n <= |w| && HeldUpto(edge, w, n)
    ensures |r| == n
  {
    if n == 0 then [] else Recorded(edge, w, n - 1) + [edge[w[..n]]]
  }

  /** The edges after the first n symbols of w have been inserted with outputs o: known edges
      keep the output they had. */
  ghost function Inserted(edge: Edges, w: Word, o: OutWord, n: nat): Edges
    requires n <= |w| == |o|
  {
    if n == 0 then edge else
    var e := Inserted(edge, w, o, n - 1);
    if w[..n] in e then e else e[w[..n] := o[n - 1]]
  }

  /** How many of the first n symbols meet a known edge with another output. */
  ghost function Clashes(edge: Edges, w: Word, o: OutWord, n: nat): nat
    requires n <= |w| == |o|
  {
    if n == 0 then 0 else
    var e := Inserted(edge, w, o, n - 1);
    Clashes(edge, w, o, n - 1) + if w[..n] in e && e[w[..n]] != o[n - 1] then 1 else 0
  }

  /** How many of the first n symbols meet a known edge. */
  ghost function Met(edge: Edges, w: Word, o: OutWord, n: nat): nat
    requires n <= |w| == |o|
  {
    if n == 0 then 0 else
    Met(edge, w, o, n - 1) + if w[..n] in Inserted(edge, w, o, n - 1) then 1 else 0
  }

  ghost function Prefixes(w: Word, n: nat): set<Word>
    requires n <= |w|
  {
    if n == 0 then {} else Prefixes(w, n - 1) + {w[..n]}
  }

  /** Insertion adds exactly the non-empty prefixes of w. */
  lemma {:induction false} InsertedKeys(edge: Edges, w: Word, o: OutWord, n: nat)
    requires n <= |w| == |o|
    ensures Inserted(edge, w, o, n).Keys == edge.Keys + Prefixes(w, n)
    decreases n
  {
    if n > 0 {
      InsertedKeys(edge, w, o, n - 1);
    }
  }

  /** Insertion changes no output already recorded. */
  lemma {:induction false} InsertedKeeps(edge: Edges, w: Word, o: OutWord, n: nat, v: Word)
    requires n <= |w| == |o| && v in edge
    ensures v in Inserted(edge, w, o, n) && Inserted(edge, w, o, n)[v] == edge[v]
    decreases n
  {
    if n > 0 {
      InsertedKeeps(edge, w, o, n - 1, v);
    }
  }

  /** And a new edge records the output given with it. */
  lemma {:induction false} InsertedNew(edge: Edges, w: Word, o: OutWord, n: nat, i: nat)
    requires 0 < i <= n <= |w| == |o| && w[..i] !in edge
    ensures w[..i] in Inserted(edge, w, o, n) && Inserted(edge, w, o, n)[w[..i]] == o[i - 1]
    decreases n
  {
    if i < n {
      InsertedNew(edge, w, o, n - 1, i);
    } else {
      InsertedOnly(edge, w, o, n - 1, n);
    }
  }

  /** Inserting shorter prefixes says nothing of a longer one. */
  lemma {:induction false} InsertedOnly(edge: Edges, w: Word, o: OutWord, n: nat, i: nat)
    requires n < i <= |w| == |o|
    ensures w[..i] in Inserted(edge, w, o, n) <==> w[..i] in edge
    ensures w[..i] in edge ==> Inserted(edge, w, o, n)[w[..i]] == edge[w[..i]]
    decreases n
  {
    if n > 0 {
      InsertedOnly(edge, w, o, n - 1, i);
      assert |w[..n]| != |w[..i]|;
    }
  }

  /** The prefixes of w among the first n that were known. */
  ghost function KnownPrefixes(edge: Edges, w: Word, n: nat): set<nat>
    requires n <= |w|
  {
    set i: nat | 0 < i <= n && w[..i] in edge
  }

  /** Those whose output differs from the one given. */
  ghost function Disputed(edge: Edges, w: Word, o: OutWord, n: nat): set<nat>
    requires n <= |w| == |o|
  {
    set i: nat | 0 < i <= n && w[..i] in edge && edge[w[..i]] != o[i - 1]
  }

  lemma KnownNext(edge: Edges, w: Word, n: nat)
    requires 0 < n <= |w|
    ensures |KnownPrefixes(edge, w, n)| == |KnownPrefixes(edge, w, n - 1)| + if w[..n] in edge then 1 else 0
  {
    var known := KnownPrefixes(edge, w, n - 1);
    assert n !in known;
    assert KnownPrefixes(edge, w, n) == if w[..n] in edge then known + {n} else known;
  }

  lemma DisputedNext(edge: Edges, w: Word, o: OutWord, n: nat)
    requires 0 < n <= |w| == |o|
    ensures |Disputed(edge, w, o, n)| == |Disputed(edge, w, o, n - 1)| + if w[..n] in edge && edge[w[..n]] != o[n - 1] then 1 else 0
  {
    var disputed := Disputed(edge, w, o, n - 1);
    assert n !in disputed;
    assert Disputed(edge, w, o, n) == if w[..n] in edge && edge[w[..n]] != o[n - 1] then disputed + {n} else disputed;
  }

  /** An insertion audits exactly the prefixes known before it, and the contradictions it counts are
      those of them with another output. */
  lemma {:induction false} AuditedAre(edge: Edges, w: Word, o: OutWord, n: nat)
    requires n <= |w| == |o|
    ensures Met(edge, w, o, n) == |KnownPrefixes(edge, w, n)|
    ensures Clashes(edge, w, o, n) == |Disputed(edge, w, o, n)|
    decreases n
  {
    if n > 0 {
      AuditedAre(edge, w, o, n - 1);
      InsertedOnly(edge, w, o, n - 1, n);
      KnownNext(edge, w, n);
      DisputedNext(edge, w, o, n);
    }
  }

  /** The output the system gives on the last symbol of w. */
  ghost predicate TrueEdge(m: Mealy, w: Word, out: int) {
    w != [] && Over(m.k, w) && out == m.o[Reach(m, 0, w[..|w| - 1])][w[|w| - 1]]
  }

  lemma {:induction false} TrueEdgeOfPrefix(m: Mealy, w: Word, n: nat, out: int)
    requires 0 < n <= |w| && Over(m.k, w)
    ensures TrueEdge(m, w[..n], out) <==> out == Run(m, 0, w)[n - 1]
  {
    RunAt(m, 0, w, n - 1);
    var v := w[..n];
    assert v[..|v| - 1] == w[..n - 1] && v[|v| - 1] == w[n - 1];
  }

  /** Every recorded output is the system's own. */
  ghost predicate Truthful(m: Mealy, edge: Edges) {
    forall w :: w in edge ==> TrueEdge(m, w, edge[w])
  }

  /** Inserting a true answer contradicts nothing and keeps the cache truthful. */
  lemma {:induction false} InsertTruth(m: Mealy, edge: Edges, w: Word, n: nat)
    requires n <= |w| && Over(m.k, w) && Truthful(m, edge)
    ensures Clashes(edge, w, Run(m, 0, w), n) == 0
    ensures Truthful(m, Inserted(edge, w, Run(m, 0, w), n))
    decreases n
  {
    if n > 0 {
      InsertTruth(m, edge, w, n - 1);
      var e := Inserted(edge, w, Run(m, 0, w), n - 1);
      TrueEdgeOfPrefix(m, w, n, Run(m, 0, w)[n - 1]);
      if w[..n] in e {
        TrueEdgeOfPrefix(m, w, n, e[w[..n]]);
      }
    }
  }

  /** A truthful cache answers like the system. */
  lemma {:induction false} RecordedIsRun(m: Mealy, edge: Edges, w: Word, n: nat)
    requires Truthful(m, edge) && Over(m.k, w)
    requires n <= |w| && HeldUpto(edge, w, n)
    ensures Recorded(edge, w, n) == Run(m, 0, w)[..n]
    decreases n
  {
    if n > 0 {
      RecordedIsRun(m, edge, w, n - 1);
      TrueEdgeOfPrefix(m, w, n, edge[w[..n]]);
    }
  }

  // ------------------------------------------------------------- the cache, as a trie

  datatype Node = Node(child: seq<int>, out: seq<int>)

  /** What each node spells, and where each word's node is. */
  datatype Layout = Layout(path: seq<Word>, at: map<Word, nat>)

  ghost predicate Placed(l: Layout, n: nat) {
    && |l.path| == n
    && [] in l.at && l.at[[]] == 0
    && (forall u :: 0 <= u < n ==> l.path[u] in l.at && l.at[l.path[u]] == u)
    && (forall w :: w in l.at ==> l.at[w] < n && l.path[l.at[w]] == w)
  }

  /** The nodes form a trie laid out as l whose edges are `edge`. */
  ghost predicate Trie(k: nat, nodes: seq<Node>, l: Layout, edge: Edges) {
    && Placed(l, |nodes|)
    && Rooted(l, edge)
    && Shaped(k, nodes)
    && (forall u, a :: 0 <= u < |nodes| && 0 <= a < k ==> EdgeAt(nodes, l, edge, u, a))
  }

  ghost predicate Shaped(k: nat, nodes: seq<Node>) {
    forall u :: 0 <= u < |nodes| ==> |nodes[u].child| == |nodes[u].out| == k
  }

  ghost predicate EdgeAt(nodes: seq<Node>, l: Layout, edge: Edges, u: nat, a: nat)
    requires u < |nodes| == |l.path| && a < |nodes[u].child| == |nodes[u].out|
  {
    var c, w := nodes[u].child[a], l.path[u] + [a];
    if c < 0 then w !in edge
    else c < |nodes| && l.path[c] == w && w in edge && edge[w] == nodes[u].out[a]
  }

  lemma TrieClosed(k: nat, nodes: seq<Node>, l: Layout, edge: Edges)
    requires Trie(k, nodes, l, edge)
    ensures PrefixClosed(edge)
  {
  }

  lemma NotHeld(k: nat, nodes: seq<Node>, l: Layout, edge: Edges, w: Word, n: nat)
    requires Trie(k, nodes, l, edge) && n <= |w| && !Held(edge, w[..n])
    ensures !Held(edge, w)
  {
    TrieClosed(k, nodes, l, edge);
    if Held(edge, w) {
      HeldPrefixes(edge, w, n);
    }
  }

  /** Following input w[i] from the node of w[..i]. */
  lemma Descend(k: nat, nodes: seq<Node>, l: Layout, edge: Edges, w: Word, i: nat, u: nat)
    requires Trie(k, nodes, l, edge) && i < |w| && 0 <= w[i] < k && u < |nodes| && l.path[u] == w[..i]
    ensures |nodes[u].child| == |nodes[u].out| == k
    ensures w[..i + 1] == l.path[u] + [w[i]]
    ensures var c := nodes[u].child[w[i]];
            if c < 0 then w[..i + 1] !in edge
            else c < |nodes| && l.path[c] == w[..i + 1] && w[..i + 1] in edge && edge[w[..i + 1]] == nodes[u].out[w[i]]
  {
    assert EdgeAt(nodes, l, edge, u, w[i]);
    PrefixNext(w, i);
  }

  lemma PrefixNext(w: Word, i: nat)
    requires i < |w|
    ensures w[..i + 1] == w[..i] + [w[i]]
  {
  }

  function Leaf(k: nat): Node {
    Node(seq(k, _ => -1), seq(k, _ => -1))
  }

  /** The nodes after a missing edge from u on a, with output o, and its node are added. */
  function Grown(k: nat, nodes: seq<Node>, u: nat, a: nat, o: int): seq<Node>
    requires u < |nodes| && a < |nodes[u].child| == |nodes[u].out|
  {
    nodes[u := Node(nodes[u].child[a := |nodes|], nodes[u].out[a := o])] + [Leaf(k)]
  }

  ghost function GrownLayout(l: Layout, w: Word): Layout {
    Layout(l.path + [w], l.at[w := |l.path|])
  }

  lemma GrownPlaced(l: Layout, n: nat, w: Word)
    requires Placed(l, n) && w !in l.at
    ensures Placed(GrownLayout(l, w), n + 1)
  {
  }

  lemma GrownShaped(k: nat, nodes: seq<Node>, u: nat, a: nat, o: int)
    requires Shaped(k, nodes) && u < |nodes| && a < k
    ensures Shaped(k, Grown(k, nodes, u, a, o)) && |Grown(k, nodes, u, a, o)| == |nodes| + 1
  {
  }

  ghost predicate Rooted(l: Layout, edge: Edges) {
    && [] !in edge
    && (forall w :: w in l.at ==> Held(edge, w))
    && (forall w {:trigger Parent(w)} :: w in edge ==> Parent(w) in l.at)
  }

  lemma GrownHeld(l: Layout, edge: Edges, v: Word, a: nat, o: int)
    requires Rooted(l, edge) && v in l.at
    ensures Rooted(GrownLayout(l, v + [a]), edge[v + [a] := o])
  {
    assert Parent(v + [a]) == v;
  }

  /** Adding a missing edge and its node keeps the trie. */
  lemma GrowTrie(k: nat, nodes: seq<Node>, l: Layout, edge: Edges, u: nat, a: nat, o: int, w: Word)
    requires Trie(k, nodes, l, edge) && u < |nodes| && a < k && nodes[u].child[a] < 0 && w == l.path[u] + [a]
    ensures Trie(k, Grown(k, nodes, u, a, o), GrownLayout(l, w), edge[w := o])
  {
    assert EdgeAt(nodes, l, edge, u, a);
    assert w !in l.at;
    GrownPlaced(l, |nodes|, w);
    GrownHeld(l, edge, l.path[u], a, o);
    GrownShaped(k, nodes, u, a, o);
    var nodes', l', edge' := Grown(k, nodes, u, a, o), GrownLayout(l, w), edge[w := o];
    forall v, b | 0 <= v < |nodes'| && 0 <= b < k
      ensures EdgeAt(nodes', l', edge', v, b)
    {
      GrownEdgeAt(k, nodes, l, edge, u, a, o, w, v, b);
    }
  }

  lemma GrownEdgeAt(k: nat, nodes: seq<Node>, l: Layout, edge: Edges, u: nat, a: nat, o: int, w: Word, v: nat, b: nat)
    requires Trie(k, nodes, l, edge) && u < |nodes| && a < k && w == l.path[u] + [a] && w !in l.at
    requires v <= |nodes| && b < k
    ensures EdgeAt(Grown(k, nodes, u, a, o), GrownLayout(l, w), edge[w := o], v, b)
  {
    if v == |nodes| {
      GrownLeaf(k, nodes, l, edge, w, b);
    } else {
      assert EdgeAt(nodes, l, edge, v, b);
      GrownEdge(k, nodes, l, edge, u, a, o, v, b);
    }
  }

  /** The new node has no edges yet. */
  lemma GrownLeaf(k: nat, nodes: seq<Node>, l: Layout, edge: Edges, w: Word, b: nat)
    requires Trie(k, nodes, l, edge) && w !in l.at
    ensures w + [b] !in edge && w + [b] != w
  {
    var x := w + [b];
    assert Parent(x) == w && |x| != |w|;
  }

  /** Only the edge added spells the word added, so every other edge stays as it was. */
  lemma GrownEdge(k: nat, nodes: seq<Node>, l: Layout, edge: Edges, u: nat, a: nat, o: int, v: nat, b: nat)
    requires Placed(l, |nodes|) && u < |nodes| && v < |nodes|
    requires |nodes[u].child| == |nodes[u].out| == |nodes[v].child| == |nodes[v].out| == k && a < k && b < k
    requires EdgeAt(nodes, l, edge, v, b)
    ensures var w := l.path[u] + [a];
            EdgeAt(Grown(k, nodes, u, a, o), GrownLayout(l, w), edge[w := o], v, b)
  {
    SnocInjective(l.path[v], b, l.path[u], a);
  }

  lemma SnocInjective(x: Word, a: int, y: Word, b: int)
    ensures x + [a] == y + [b] <==> x == y && a == b
  {
    if x + [a] == y + [b] {
      assert (x + [a])[..|x|] == x && (y + [b])[..|y|] == y;
      assert (x + [a])[|x|] == a && (y + [b])[|y|] == b;
    }
  }

  class Cache {
    const k: nat
    var nodes: seq<Node>
    var hits: nat
    var misses: nat
    var hitSymbols: nat
    var prefixAudits: nat
    var contradictions: nat
    ghost var layout: Layout
    ghost var edge: Edges

    ghost predicate Valid()
      reads this`nodes, this`layout, this`edge
    {
      Trie(k, nodes, layout, edge)
    }

    constructor (k: nat)
      ensures Valid() && this.k == k && edge == map[]
      ensures hits == misses == hitSymbols == prefixAudits == contradictions == 0
    {
      this.k := k;
      nodes := [Leaf(k)];
      hits, misses, hitSymbols, prefixAudits, contradictions := 0, 0, 0, 0, 0;
      layout, edge := Layout([[]], map[[] := 0]), map[];
    }

    /** The recorded outputs of w, or none exactly when w is not held. */
    method Lookup(w: Word) returns (r: Option<OutWord>)
      requires Valid() && Over(k, w)
      ensures r.Some? <==> Held(edge, w)
      ensures r.Some? ==> HeldUpto(edge, w, |w|) && r.value == Recorded(edge, w, |w|)
    {
      var u: nat, out: OutWord := 0, [];
      for i := 0 to |w|
        invariant u < |nodes| && layout.path[u] == w[..i]
        invariant HeldUpto(edge, w, i)
        invariant out == Recorded(edge, w, i)
      {
        Descend(k, nodes, layout, edge, w, i, u);
        if nodes[u].child[w[i]] < 0 {
          NotHeld(k, nodes, layout, edge, w, i + 1);
          return None;
        }
        out := out + [nodes[u].out[w[i]]];
        u := nodes[u].child[w[i]];
      }
      assert w[..|w|] == w;
      r := Some(out);
    }

    /** Takes input w[i] from the node of w[..i], adding the edge or checking the known one. */
    method InsertStep(w: Word, i: nat, out: int, u: nat) returns (v: nat)
      requires Valid() && i < |w| && 0 <= w[i] < k && u < |nodes| && layout.path[u] == w[..i]
      modifies this`nodes, this`prefixAudits, this`contradictions, this`layout, this`edge
      ensures Valid() && v < |nodes| && layout.path[v] == w[..i + 1]
      ensures edge == if w[..i + 1] in old(edge) then old(edge) else old(edge)[w[..i + 1] := out]
      ensures contradictions == old(contradictions) + if w[..i + 1] in old(edge) && old(edge)[w[..i + 1]] != out then 1 else 0
      ensures prefixAudits == old(prefixAudits) + if w[..i + 1] in old(edge) then 1 else 0
    {
      Descend(k, nodes, layout, edge, w, i, u);
      if nodes[u].child[w[i]] < 0 {
        GrowTrie(k, nodes, layout, edge, u, w[i], out, w[..i + 1]);
        v := |nodes|;
        nodes := Grown(k, nodes, u, w[i], out);
        layout, edge := GrownLayout(layout, w[..i + 1]), edge[w[..i + 1] := out];
      } else {
        prefixAudits := prefixAudits + 1;
        if nodes[u].out[w[i]] != out {
          contradictions := contradictions + 1;
        }
        v := nodes[u].child[w[i]];
      }
    }

    /** Inserts an answer: the prefixes of w become held, known outputs stay, and every known
        output that disagrees is counted. */
    method Insert(w: Word, o: OutWord)
      requires Valid() && Over(k, w) && |o| == |w|
      modifies this`nodes, this`prefixAudits, this`contradictions, this`layout, this`edge
      ensures Valid()
      ensures edge == Inserted(old(edge), w, o, |w|)
      ensures contradictions == old(contradictions) + Clashes(old(edge), w, o, |w|)
      ensures prefixAudits == old(prefixAudits) + Met(old(edge), w, o, |w|)
    {
      var u: nat := 0;
      for i := 0 to |w|
        invariant Valid() && u < |nodes| && layout.path[u] == w[..i]
        invariant edge == Inserted(old(edge), w, o, i)
        invariant contradictions == old(contradictions) + Clashes(old(edge), w, o, i)
        invariant prefixAudits == old(prefixAudits) + Met(old(edge), w, o, i)
      {
        u := InsertStep(w, i, o[i], u);
      }
    }
  }

  // ------------------------------------------------------------------- the system

  /** A deterministic system under learning. */
  class RefSul {
    const m: Mealy
    var cur: nat
    var resets: nat
    var steps: nat

    ghost predicate Valid()
      reads this`cur
    {
      cur < m.n
    }

    constructor (m: Mealy)
      ensures Valid() && this.m == m && cur == 0 && resets == steps == 0
    {
      this.m := m;
      cur, resets, steps := 0, 0, 0;
    }

    method Reset()
      modifies this
      ensures Valid() && cur == 0 && resets == old(resets) + 1 && steps == old(steps)
    {
      cur, resets := 0, resets + 1;
    }

    method Step(a: nat) returns (out: int)
      requires Valid() && a < m.k
      modifies this
      ensures Valid() && out == m.o[old(cur)][a] && cur == m.d[old(cur)][a]
      ensures resets == old(resets) && steps == old(steps) + 1
    {
      out := m.o[cur][a];
      cur, steps := m.d[cur][a], steps + 1;
    }
  }

  // ------------------------------------------------------------------ majority vote

  function Count(col: seq<int>, v: int): nat {
    multiset(col)[v]
  }

  /** best is the most frequent value of the column, the least of them on a tie. */
  ghost predicate Wins(col: seq<int>, best: int) {
    best in col && forall v :: v in col ==> Count(col, v) < Count(col, best) || (Count(col, v) == Count(col, best) && best <= v)
  }

  /** What the runs put out at position i. */
  function Column(runs: seq<OutWord>, i: nat): seq<int>
    requires forall j :: 0 <= j < |runs| ==> i < |runs[j]|
  {
    seq(|runs|, j requires 0 <= j < |runs| => runs[j][i])
  }

  /** The most frequent value of a column, the least one on a tie, and whether any two runs
      disagree. */
  method Vote(col: seq<int>) returns (best: int, disagree: bool)
    requires col != []
    ensures Wins(col, best)
    ensures disagree <==> exists i :: 0 <= i < |col| && col[i] != col[0]
  {
    best, disagree := col[0], false;
    for i := 0 to |col|
      invariant best in col
      invariant forall j :: 0 <= j < i ==>
        Count(col, col[j]) < Count(col, best) || (Count(col, col[j]) == Count(col, best) && best <= col[j])
      invariant disagree <==> exists j :: 0 <= j < i && col[j] != col[0]
    {
      var v := col[i];
      if Count(col, v) > Count(col, best) || (Count(col, v) == Count(col, best) && v < best) {
        best := v;
      }
      if v != col[0] {
        disagree := true;
      }
    }
  }

  /** Votes position by position over runs of one length. */
  method VoteAll(runs: seq<OutWord>, n: nat) returns (r: OutWord, disagree: bool)
    requires runs != [] && forall j :: 0 <= j < |runs| ==> |runs[j]| == n
    ensures |r| == n
    ensures disagree <==> exists j :: 0 <= j < |runs| && runs[j] != runs[0]
    ensures !disagree ==> r == runs[0]
    ensures forall i :: 0 <= i < n ==> Wins(Column(runs, i), r[i])
  {
    r, disagree := [], false;
    for i: nat := 0 to n
      invariant |r| == i && forall p :: 0 <= p < i ==> Wins(Column(runs, p), r[p])
      invariant disagree <==> exists j :: 0 <= j < |runs| && runs[j][..i] != runs[0][..i]
      invariant !disagree ==> r == runs[0][..i]
    {
      var col := Column(runs, i);
      var best, d := Vote(col);
      AgreeFurther(runs, n, i, col);
      disagree := disagree || d;
      r := r + [best];
    }
    assert forall j :: 0 <= j < |runs| ==> runs[j][..n] == runs[j];
  }

  lemma AgreeFurther(runs: seq<OutWord>, n: nat, i: nat, col: seq<int>)
    requires runs != [] && (forall j :: 0 <= j < |runs| ==> |runs[j]| == n) && i < n
    requires col == Column(runs, i)
    ensures (exists j :: 0 <= j < |runs| && runs[j][..i + 1] != runs[0][..i + 1]) <==>
            (exists j :: 0 <= j < |runs| && runs[j][..i] != runs[0][..i]) || (exists j :: 0 <= j < |col| && col[j] != col[0])
    ensures runs[0][..i + 1] == runs[0][..i] + [col[0]]
  {
    forall j | 0 <= j < |runs|
      ensures runs[j][..i + 1] == runs[j][..i] + [col[j]]
    {
    }
    forall j | 0 <= j < |runs|
      ensures runs[j][..i + 1] == runs[0][..i + 1] <==> runs[j][..i] == runs[0][..i] && col[j] == col[0]
    {
      assert runs[j][..i + 1][..i] == runs[j][..i] && runs[j][..i + 1][i] == col[j];
      assert runs[0][..i + 1][..i] == runs[0][..i] && runs[0][..i + 1][i] == col[0];
    }
  }

  // --------------------------------------------------------------------- the oracle

  class Oracle {
    const sul: RefSul
    const cache: Cache
    const repeats: int
    const bypass: bool
    const auditRate: real
    var mq: nat
    var voteDisagreements: nat
    var auditRuns: nat
    var auditContradictions: nat

    /** Everything cached is what the system answers. */
    ghost predicate Valid()
      reads sul`cur, cache`nodes, cache`layout, cache`edge
    {
      sul.Valid() && cache.Valid() && cache.k == sul.m.k && Truthful(sul.m, cache.edge)
    }

    /** No contradiction has been seen: neither between two answers, nor between an audit and
        the cache, nor between repeated runs. */
    ghost predicate Silent()
      reads this`auditContradictions, this`voteDisagreements, cache`contradictions
    {
      cache.contradictions == 0 && auditContradictions == 0 && voteDisagreements == 0
    }

    /** It answers for system m, truthfully and so far without contradiction. */
    ghost predicate Serves(m: Mealy)
      reads this`auditContradictions, this`voteDisagreements, sul`cur, cache`nodes, cache`layout, cache`edge, cache`contradictions
    {
      Valid() && Silent() && sul.m == m
    }

    constructor (m: Mealy, repeats: int, bypass: bool, auditRate: real)
      ensures Valid() && Silent() && sul.m == m && mq == 0
      ensures fresh(sul) && fresh(cache)
    {
      sul := new RefSul(m);
      cache := new Cache(m.k);
      this.repeats, this.bypass, this.auditRate := repeats, bypass, auditRate;
      mq, voteDisagreements, auditRuns, auditContradictions := 0, 0, 0, 0;
    }

    /** How often the system is run for one answer. */
    function Runs(): nat {
      if repeats <= 1 then 1 else repeats
    }

    /** One run of the system from reset. */
    method Raw(w: Word) returns (r: OutWord)
      requires sul.Valid() && Over(sul.m.k, w)
      modifies sul
      ensures sul.Valid() && r == Run(sul.m, 0, w)
      ensures sul.resets == old(sul.resets) + 1 && sul.steps == old(sul.steps) + |w|
    {
      sul.Reset();
      r := [];
      for i := 0 to |w|
        invariant sul.Valid() && sul.cur == Reach(sul.m, 0, w[..i])
        invariant r == Run(sul.m, 0, w[..i])
        invariant sul.resets == old(sul.resets) + 1 && sul.steps == old(sul.steps) + i
      {
        var out := sul.Step(w[i]);
        r := r + [out];
        RunNext(sul.m, w, i);
      }
      assert w[..|w|] == w;
    }

    /** Repeated runs, voted position by position. */
    method RawVoted(w: Word) returns (r: OutWord)
      requires sul.Valid() && Over(sul.m.k, w)
      modifies sul, this`voteDisagreements
      ensures sul.Valid() && r == Run(sul.m, 0, w)
      ensures voteDisagreements == old(voteDisagreements)
      ensures sul.resets == old(sul.resets) + Runs() && sul.steps == old(sul.steps) + Runs() * |w|
    {
      if repeats <= 1 {
        r := Raw(w);
        return;
      }
      var runs: seq<OutWord> := [];
      for i := 0 to repeats
        invariant sul.Valid() && |runs| == i && voteDisagreements == old(voteDisagreements)
        invariant forall j :: 0 <= j < i ==> runs[j] == Run(sul.m, 0, w)
        invariant sul.resets == old(sul.resets) + i && sul.steps == old(sul.steps) + i * |w|
      {
        var x := Raw(w);
        runs := runs + [x];
      }
      var dis;
      r, dis := VoteAll(runs, |w|);
      voteDisagreements := voteDisagreements + if dis then 1 else 0;
    }

    /** Sends w to the system and records the answer. */
    method Ask(w: Word) returns (r: OutWord)
      requires Valid() && Over(sul.m.k, w)
      modifies sul, cache, this`voteDisagreements
      ensures Valid() && r == Run(sul.m, 0, w)
      ensures cache.edge.Keys == old(cache.edge.Keys) + Prefixes(w, |w|)
      ensures cache.contradictions == old(cache.contradictions)
      ensures cache.misses == old(cache.misses) + 1 && cache.hits == old(cache.hits) && cache.hitSymbols == old(cache.hitSymbols)
      ensures sul.resets == old(sul.resets) + Runs() && auditRuns == old(auditRuns)
      ensures sul.steps == old(sul.steps) + Runs() * |w|
      ensures voteDisagreements == old(voteDisagreements) && auditContradictions == old(auditContradictions) && mq == old(mq)
    {
      cache.misses := cache.misses + 1;
      r := RawVoted(w);
      Record(w, r);
    }

    /** Records a true answer. */
    method Record(w: Word, r: OutWord)
      requires Valid() && Over(sul.m.k, w) && r == Run(sul.m, 0, w)
      modifies cache`nodes, cache`prefixAudits, cache`contradictions, cache`layout, cache`edge
      ensures Valid() && cache.edge.Keys == old(cache.edge.Keys) + Prefixes(w, |w|)
      ensures cache.contradictions == old(cache.contradictions)
    {
      InsertTruth(sul.m, cache.edge, w, |w|);
      InsertedKeys(cache.edge, w, r, |w|);
      cache.Insert(w, r);
    }

    /** Re-runs a cached answer against the system. */
    method Audit(w: Word, hit: OutWord)
      requires sul.Valid() && Over(sul.m.k, w)
      modifies sul, this`auditRuns, this`auditContradictions, this`voteDisagreements
      ensures sul.Valid() && voteDisagreements == old(voteDisagreements)
      ensures auditRuns == old(auditRuns) + 1 && sul.resets == old(sul.resets) + Runs()
      ensures sul.steps == old(sul.steps) + Runs() * |w|
      ensures auditContradictions == old(auditContradictions) + if hit == Run(sul.m, 0, w) then 0 else 1
    {
      auditRuns := auditRuns + 1;
      var again := RawVoted(w);
      if again != hit {
        auditContradictions := auditContradictions + 1;
      }
    }

    /** Accounts for a cache hit, and audits it if the draw falls below the rate: at a rate of one
        or more always, at none never. */
    method Serve(w: Word, hit: OutWord)
      requires Valid() && Over(sul.m.k, w) && hit == Run(sul.m, 0, w)
      modifies sul, cache`hits, cache`hitSymbols, this`auditRuns, this`auditContradictions, this`voteDisagreements
      ensures Valid() && cache.edge == old(cache.edge) && cache.contradictions == old(cache.contradictions)
      ensures cache.hits == old(cache.hits) + 1 && cache.misses == old(cache.misses)
      ensures cache.hitSymbols == old(cache.hitSymbols) + |w|
      ensures old(auditRuns) <= auditRuns <= old(auditRuns) + 1
      ensures (auditRate <= 0.0 ==> auditRuns == old(auditRuns)) && (auditRate >= 1.0 ==> auditRuns == old(auditRuns) + 1)
      ensures sul.resets == old(sul.resets) + if auditRuns > old(auditRuns) then Runs() else 0
      ensures sul.steps == old(sul.steps) + if auditRuns > old(auditRuns) then Runs() * |w| else 0
      ensures voteDisagreements == old(voteDisagreements) && auditContradictions == old(auditContradictions) && mq == old(mq)
    {
      cache.hits, cache.hitSymbols := cache.hits + 1, cache.hitSymbols + |w|;
      var draw: real :| 0.0 <= draw < 1.0;
      if auditRate > 0.0 && draw < auditRate {
        Audit(w, hit);
      }
    }

    /** Answers from the cache where it can, from the system otherwise. */
    method QueryCached(w: Word) returns (r: OutWord)
      requires Valid() && Over(sul.m.k, w)
      modifies sul, cache, this`auditRuns, this`auditContradictions, this`voteDisagreements
      ensures Valid() && r == Run(sul.m, 0, w)
      ensures cache.contradictions == old(cache.contradictions)
      ensures voteDisagreements == old(voteDisagreements) && auditContradictions == old(auditContradictions) && mq == old(mq)
      ensures cache.edge.Keys == old(cache.edge.Keys) + if Held(old(cache.edge), w) then {} else Prefixes(w, |w|)
      ensures cache.hits == old(cache.hits) + if Held(old(cache.edge), w) then 1 else 0
      ensures cache.hitSymbols == old(cache.hitSymbols) + if Held(old(cache.edge), w) then |w| else 0
      ensures old(auditRuns) <= auditRuns <= old(auditRuns) + if Held(old(cache.edge), w) && auditRate > 0.0 then 1 else 0
      ensures Held(old(cache.edge), w) && auditRate >= 1.0 ==> auditRuns == old(auditRuns) + 1
      ensures sul.resets == old(sul.resets) + if Held(old(cache.edge), w) && auditRuns == old(auditRuns) then 0 else Runs()
      ensures sul.steps == old(sul.steps) + if Held(old(cache.edge), w) && auditRuns == old(auditRuns) then 0 else Runs() * |w|
      ensures cache.hits + cache.misses == old(cache.hits) + old(cache.misses) + 1
    {
      var hit := cache.Lookup(w);
      if hit.Some? {
        RecordedIsRun(sul.m, cache.edge, w, |w|);
        r := hit.value;
        Serve(w, r);
      } else {
        r := Ask(w);
      }
    }

    /** Whatever was asked before, the answer is the system's own run, and no contradiction is
        ever counted. The words held grow by exactly the prefixes of a word sent to the system. */
    method Query(w: Word) returns (r: OutWord)
      requires Valid() && Over(sul.m.k, w)
      modifies this, sul, cache
      ensures Valid() && r == Run(sul.m, 0, w)
      ensures mq == old(mq) + 1
      ensures cache.contradictions == old(cache.contradictions)
      ensures auditContradictions == old(auditContradictions) && voteDisagreements == old(voteDisagreements)
      ensures cache.edge.Keys == old(cache.edge.Keys) +
                                 if !bypass && Held(old(cache.edge), w) then {} else Prefixes(w, |w|)
      ensures cache.hits == old(cache.hits) + if !bypass && Held(old(cache.edge), w) then 1 else 0
      ensures cache.hitSymbols == old(cache.hitSymbols) + if !bypass && Held(old(cache.edge), w) then |w| else 0
      ensures old(auditRuns) <= auditRuns <= old(auditRuns) + if !bypass && Held(old(cache.edge), w) && auditRate > 0.0 then 1 else 0
      ensures !bypass && Held(old(cache.edge), w) && auditRate >= 1.0 ==> auditRuns == old(auditRuns) + 1
      ensures sul.resets == old(sul.resets) +
                            if !bypass && Held(old(cache.edge), w) && auditRuns == old(auditRuns) then 0
                            else if repeats <= 1 then 1 else repeats
      ensures sul.steps == old(sul.steps) +
                           if !bypass && Held(old(cache.edge), w) && auditRuns == old(auditRuns) then 0
                           else (if repeats <= 1 then 1 else repeats) * |w|
      ensures cache.hits + cache.misses == old(cache.hits) + old(cache.misses) + 1
    {
      mq := mq + 1;
      if bypass {
        r := Ask(w);
      } else {
        r := QueryCached(w);
      }
    }
  }

  lemma {:induction false} RunNext(m: Mealy, w: Word, i: nat)
    requires Over(m.k, w) && i < |w|
    ensures Run(m, 0, w[..i + 1]) == Run(m, 0, w[..i]) + [m.o[Reach(m, 0, w[..i])][w[i]]]
    ensures Reach(m, 0, w[..i + 1]) == m.d[Reach(m, 0, w[..i])][w[i]]
  {
    PrefixNext(w, i);
    RunConcat(m, 0, w[..i], [w[i]]);
    ReachConcat(m, 0, w[..i], [w[i]]);
    assert Run(m, Reach(m, 0, w[..i]), [w[i]]) == [m.o[Reach(m, 0, w[..i])][w[i]]];
    assert Reach(m, Reach(m, 0, w[..i]), [w[i]]) == m.d[Reach(m, 0, w[..i])][w[i]];
  }
}
