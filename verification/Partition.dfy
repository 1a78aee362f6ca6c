/** Moore partition refinement, as it counts the distinguishable states of a machine. */
module Partition {
  import opened Machines

  /** Position s holds a value that no earlier position holds. */
  ghost predicate IsFirst(cls: seq<nat>, s: nat)
    requires s < |cls|
  {
    forall t: nat :: t < s ==> cls[t] != cls[s]
  }

  ghost function FirstSeen(cls: seq<nat>): (r: set<nat>)
    ensures forall s :: s in r <==> 0 <= s < |cls| && IsFirst(cls, s)
  {
    set s | s in Below(|cls|) && IsFirst(cls, s)
  }

  lemma FirstSeenAppend(cls: seq<nat>, v: nat)
    ensures FirstSeen(cls + [v]) == if v in cls then FirstSeen(cls) else FirstSeen(cls) + {|cls|}
  {
    var more := cls + [v];
    forall s: nat | s < |cls|
      ensures IsFirst(more, s) <==> IsFirst(cls, s)
    {
      assert more[s] == cls[s] && forall t: nat :: t < s ==> more[t] == cls[t];
    }
    assert IsFirst(more, |cls|) <==> v !in cls by {
      assert forall t: nat :: t < |cls| ==> more[t] == cls[t];
    }
  }

  lemma {:induction false} LeastOfClass(cls: seq<nat>, s: nat) returns (r: nat)
    requires s < |cls|
    ensures r in FirstSeen(cls) && cls[r] == cls[s]
    decreases s
  {
    if s in FirstSeen(cls) {
      r := s;
    } else {
      var t: nat :| t < s && cls[t] == cls[s];
      r := LeastOfClass(cls, t);
    }
  }

  /** The classes number 0..c-1 in order of first appearance. */
  ghost predicate Numbered(cls: seq<nat>, c: nat) {
    && |FirstSeen(cls)| == c
    && (forall s :: 0 <= s < |cls| ==> cls[s] < c)
    && (c > 0 ==> c - 1 in cls)
  }

  /** sig records the number of every key met in keys[..|cls|]. */
  ghost predicate Recorded(keys: seq<seq<int>>, sig: map<seq<int>, nat>, cls: seq<nat>) {
    && |cls| <= |keys|
    && (forall t :: 0 <= t < |cls| ==> keys[t] in sig && sig[keys[t]] == cls[t])
    && (forall key :: key in sig ==> sig[key] in cls)
    && (forall x, y :: x in sig && y in sig && sig[x] == sig[y] ==> x == y)
  }

  lemma RecordKnown(keys: seq<seq<int>>, sig: map<seq<int>, nat>, cls: seq<nat>, size: nat)
    requires Recorded(keys, sig, cls) && |cls| < |keys| && Numbered(cls, size) && keys[|cls|] in sig
    ensures Recorded(keys, sig, cls + [sig[keys[|cls|]]]) && Numbered(cls + [sig[keys[|cls|]]], size)
  {
    FirstSeenAppend(cls, sig[keys[|cls|]]);
  }

  lemma NumberNew(cls: seq<nat>, size: nat)
    requires Numbered(cls, size)
    ensures size !in cls && Numbered(cls + [size], size + 1)
  {
    FirstSeenAppend(cls, size);
    assert (cls + [size])[|cls|] == size;
  }

  lemma RecordNew(keys: seq<seq<int>>, sig: map<seq<int>, nat>, cls: seq<nat>, v: nat)
    requires Recorded(keys, sig, cls) && |cls| < |keys| && keys[|cls|] !in sig && v !in cls
    ensures Recorded(keys, sig[keys[|cls|] := v], cls + [v])
  {
    var here, more, sig' := keys[|cls|], cls + [v], sig[keys[|cls|] := v];
    assert more[|cls|] == v;
    forall key | key in sig'
      ensures sig'[key] in more && (key != here ==> sig'[key] != v)
    {
      assert key != here ==> sig'[key] in cls;
    }
    forall t | 0 <= t < |more|
      ensures keys[t] in sig' && sig'[keys[t]] == more[t]
    {
      assert t < |cls| ==> keys[t] in sig && keys[t] != here;
    }
  }

  /** Numbers the keys in order of first appearance. */
  method Number(keys: seq<seq<int>>) returns (cls: seq<nat>, size: nat)
    ensures |cls| == |keys|
    ensures forall s, t :: 0 <= s < |keys| && 0 <= t < |keys| ==> (cls[s] == cls[t] <==> keys[s] == keys[t])
    ensures Numbered(cls, size)
  {
    var sig: map<seq<int>, nat> := map[];
    cls, size := [], 0;
    for s := 0 to |keys|
      invariant |cls| == s && Recorded(keys, sig, cls) && Numbered(cls, size)
    {
      if keys[s] !in sig {
        NumberNew(cls, size);
        RecordNew(keys, sig, cls, size);
        sig, cls, size := sig[keys[s] := size], cls + [size], size + 1;
      } else {
        RecordKnown(keys, sig, cls, size);
        cls := cls + [sig[keys[s]]];
      }
    }
  }

  /** One more than the greatest class number. */
  method ClassCount(cls: seq<nat>) returns (c: nat)
    requires |cls| > 0
    ensures c > 0 && c - 1 in cls && forall s :: 0 <= s < |cls| ==> cls[s] < c
  {
    c := cls[0] + 1;
    for i := 1 to |cls|
      invariant c > 0 && c - 1 in cls
      invariant forall s :: 0 <= s < i ==> cls[s] < c
    {
      if cls[i] >= c {
        c := cls[i] + 1;
      }
    }
  }

  ghost predicate Finer(fine: seq<nat>, coarse: seq<nat>) {
    && |fine| == |coarse|
    && forall s, t :: 0 <= s < |fine| && 0 <= t < |fine| && fine[s] == fine[t] ==> coarse[s] == coarse[t]
  }

  /** A refinement has at least as many classes, and the same number only if it splits none. */
  lemma FinerCount(fine: seq<nat>, coarse: seq<nat>)
    requires Finer(fine, coarse)
    ensures |FirstSeen(coarse)| <= |FirstSeen(fine)|
    ensures |FirstSeen(coarse)| == |FirstSeen(fine)| ==> Finer(coarse, fine)
  {
    var R, R' := FirstSeen(coarse), FirstSeen(fine);
    forall s | s in R
      ensures s in R'
    {
      assert forall t: nat :: t < s && fine[t] == fine[s] ==> coarse[t] == coarse[s];
      assert IsFirst(fine, s);
    }
    assert R' == R + (R' - R);
    if |R| == |R'| {
      assert R == R';
      forall s, t | 0 <= s < |fine| && 0 <= t < |fine| && coarse[s] == coarse[t]
        ensures fine[s] == fine[t]
      {
        var s0 := LeastOfClass(fine, s);
        var t0 := LeastOfClass(fine, t);
        assert coarse[s0] == coarse[t0] && IsFirst(coarse, s0) && IsFirst(coarse, t0);
      }
    }
  }

  lemma FirstSeenSize(cls: seq<nat>)
    ensures |FirstSeen(cls)| <= |cls|
  {
    assert Below(|cls|) == FirstSeen(cls) + (Below(|cls|) - FirstSeen(cls));
  }

  /** Never splits indistinguishable states; never joins states with different outputs. */
  ghost predicate Sound(m: Mealy, cls: seq<nat>) {
    && |cls| == m.n
    && (forall p, q :: 0 <= p < m.n && 0 <= q < m.n && Alike(m, p, m, q) ==> cls[p] == cls[q])
    && (forall p, q :: 0 <= p < m.n && 0 <= q < m.n && cls[p] == cls[q] ==> m.o[p] == m.o[q])
  }

  function Successors(m: Mealy, cls: seq<nat>, s: nat): seq<int>
    requires |cls| == m.n && s < m.n
  {
    [cls[s]] + seq(m.k, a requires 0 <= a < m.k => cls[m.d[s][a]])
  }

  /** nc numbers the states by their class and the classes of their successors. */
  ghost predicate BySuccessors(m: Mealy, cls: seq<nat>, nc: seq<nat>) {
    && |cls| == |nc| == m.n
    && forall s, t :: 0 <= s < m.n && 0 <= t < m.n ==>
         (nc[s] == nc[t] <==> Successors(m, cls, s) == Successors(m, cls, t))
  }

  lemma RefinedSound(m: Mealy, cls: seq<nat>, nc: seq<nat>)
    requires Sound(m, cls) && |nc| == m.n
    requires BySuccessors(m, cls, nc)
    ensures Sound(m, nc) && Finer(nc, cls)
  {
    forall s, t | 0 <= s < m.n && 0 <= t < m.n && nc[s] == nc[t]
      ensures cls[s] == cls[t]
    {
      assert Successors(m, cls, s)[0] == Successors(m, cls, t)[0];
    }
    forall p, q | 0 <= p < m.n && 0 <= q < m.n && Alike(m, p, m, q)
      ensures nc[p] == nc[q]
    {
      forall a | 0 <= a < m.k
        ensures cls[m.d[p][a]] == cls[m.d[q][a]]
      {
        AlikeStep(m, p, m, q, a);
      }
    }
  }

  /** States of one class move to states of one class. */
  ghost predicate Steady(m: Mealy, cls: seq<nat>)
    requires |cls| == m.n
  {
    forall p, q, c :: 0 <= p < m.n && 0 <= q < m.n && cls[p] == cls[q] && 0 <= c < m.k ==>
      cls[m.d[p][c]] == cls[m.d[q][c]]
  }

  lemma UnsplitIsSteady(m: Mealy, cls: seq<nat>, nc: seq<nat>)
    requires |cls| == m.n && |nc| == m.n && Finer(cls, nc)
    requires BySuccessors(m, cls, nc)
    ensures Steady(m, cls)
  {
    forall p, q, c | 0 <= p < m.n && 0 <= q < m.n && cls[p] == cls[q] && 0 <= c < m.k
      ensures cls[m.d[p][c]] == cls[m.d[q][c]]
    {
      assert Successors(m, cls, p)[c + 1] == Successors(m, cls, q)[c + 1];
    }
  }

  lemma {:induction false} SteadyRun(m: Mealy, cls: seq<nat>, p: nat, q: nat, w: Word)
    requires Sound(m, cls) && Steady(m, cls) && p < m.n && q < m.n && cls[p] == cls[q] && Over(m.k, w)
    ensures Run(m, p, w) == Run(m, q, w)
    decreases |w|
  {
    if w != [] {
      assert m.o[p] == m.o[q];
      SteadyRun(m, cls, m.d[p][w[0]], m.d[q][w[0]], w[1..]);
    }
  }

  /** A refinement that splits nothing is exactly indistinguishability. */
  lemma SteadyIsAlike(m: Mealy, cls: seq<nat>, p: nat, q: nat)
    requires Sound(m, cls) && Steady(m, cls) && p < m.n && q < m.n
    ensures cls[p] == cls[q] <==> Alike(m, p, m, q)
  {
    if cls[p] == cls[q] {
      forall w: Word | Over(m.k, w)
        ensures Run(m, p, w) == Run(m, q, w)
      {
        SteadyRun(m, cls, p, q, w);
      }
    }
  }

  lemma ClassesAreRepresentatives(m: Mealy, cls: seq<nat>)
    requires Sound(m, cls) && Steady(m, cls)
    ensures FirstSeen(cls) == Representatives(m, AllStates(m))
  {
    forall s: nat | s < m.n
      ensures IsFirst(cls, s) <==> forall t :: t in AllStates(m) && t < s ==> !Alike(m, t, m, s)
    {
      forall t: nat | t < s
        ensures cls[t] != cls[s] <==> !Alike(m, t, m, s)
      {
        SteadyIsAlike(m, cls, t, s);
      }
    }
  }

  /** One refinement step. It never loses a class, and once it gains none the classes are the
      classes of indistinguishable states. */
  method Refine(m: Mealy, cls: seq<nat>) returns (nc: seq<nat>, sigSize: nat)
    requires Sound(m, cls)
    ensures Sound(m, nc) && Numbered(nc, sigSize) && |FirstSeen(cls)| <= sigSize <= m.n
    ensures sigSize == |FirstSeen(cls)| ==> sigSize == |Representatives(m, AllStates(m))|
  {
    nc, sigSize := NumberSuccessors(m, cls);
    RefinedSound(m, cls, nc);
    RefinedCount(m, cls, nc, sigSize);
  }

  method NumberSuccessors(m: Mealy, cls: seq<nat>) returns (nc: seq<nat>, sigSize: nat)
    requires |cls| == m.n
    ensures BySuccessors(m, cls, nc) && Numbered(nc, sigSize)
  {
    var keys := seq(m.n, s requires 0 <= s < m.n => Successors(m, cls, s));
    nc, sigSize := Number(keys);
  }

  /** Refinement never loses a class; if it gains none the classes are final. */
  lemma RefinedCount(m: Mealy, cls: seq<nat>, nc: seq<nat>, sigSize: nat)
    requires Sound(m, cls) && BySuccessors(m, cls, nc) && Finer(nc, cls) && Numbered(nc, sigSize)
    ensures |FirstSeen(cls)| <= sigSize <= m.n
    ensures sigSize == |FirstSeen(cls)| ==> sigSize == |Representatives(m, AllStates(m))|
  {
    FinerCount(nc, cls);
    FirstSeenSize(nc);
    if sigSize == |FirstSeen(cls)| {
      UnsplitIsSteady(m, cls, nc);
      ClassesAreRepresentatives(m, cls);
    }
  }

  /** The number of classes of states that no input word can tell apart. */
  method MinimalSize(m: Mealy) returns (size: nat)
    ensures size == |Representatives(m, AllStates(m))|
  {
    var cls, count := Number(m.o);
    OutputsSound(m, cls);
    while true
      invariant Sound(m, cls) && Numbered(cls, count)
      decreases m.n - count
    {
      var nc, sigSize := Refine(m, cls);
      var c := ClassCount(cls);
      if sigSize == c {
        size := ClassCount(nc);
        return;
      }
      cls, count := nc, sigSize;
    }
  }

  lemma OutputsSound(m: Mealy, cls: seq<nat>)
    requires |cls| == m.n
    requires forall s, t :: 0 <= s < m.n && 0 <= t < m.n ==> (cls[s] == cls[t] <==> m.o[s] == m.o[t])
    ensures Sound(m, cls)
  {
    forall p, q | 0 <= p < m.n && 0 <= q < m.n && Alike(m, p, m, q)
      ensures m.o[p] == m.o[q]
    {
      forall c | 0 <= c < m.k
        ensures m.o[p][c] == m.o[q][c]
      {
        AlikeStep(m, p, m, q, c);
      }
    }
  }
}
