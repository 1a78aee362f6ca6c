/** Words in the order a sorted set of words keeps them: symbol by symbol, a prefix before its
    extensions. */
module Words {
  import opened Machines

  predicate Less(u: Word, v: Word) {
    v != [] && (u == [] || u[0] < v[0] || (u[0] == v[0] && Less(u[1..], v[1..])))
  }

  lemma {:induction false} LessTransitive(u: Word, v: Word, w: Word)
    requires Less(u, v) && Less(v, w)
    ensures Less(u, w)
    decreases |u|
  {
    if u != [] && u[0] == v[0] == w[0] {
      LessTransitive(u[1..], v[1..], w[1..]);
    }
  }

  lemma {:induction false} LessTotal(u: Word, v: Word)
    ensures Less(u, v) || u == v || Less(v, u)
    decreases |u|
  {
    if u != [] && v != [] && u[0] == v[0] {
      LessTotal(u[1..], v[1..]);
      assert u == [u[0]] + u[1..] && v == [v[0]] + v[1..];
    }
  }

  /** u and v agree up to i, where u ends or has the smaller symbol. */
  ghost predicate LessAt(u: Word, v: Word, i: nat) {
    i <= |u| && i < |v| && u[..i] == v[..i] && (i == |u| || u[i] < v[i])
  }

  lemma HeadsAgree(u: Word, v: Word, i: nat)
    requires LessAt(u, v, i) && i > 0
    ensures u[0] == v[0]
  {
    assert u[..i][0] == u[0] && v[..i][0] == v[0];
  }

  /** The order is that of the first difference, a proper prefix coming first. */
  lemma {:induction false} LessExactly(u: Word, v: Word)
    ensures Less(u, v) <==> exists i :: LessAt(u, v, i)
    decreases |u|
  {
    if u != [] && v != [] && u[0] == v[0] {
      LessExactly(u[1..], v[1..]);
      assert forall i: nat :: i < |u| && i < |v| ==> u[..i + 1] == [u[0]] + u[1..][..i] && v[..i + 1] == [v[0]] + v[1..][..i];
      if Less(u, v) {
        var i: nat :| LessAt(u[1..], v[1..], i);
        assert LessAt(u, v, i + 1);
      }
      forall i: nat | LessAt(u, v, i)
        ensures Less(u, v)
      {
        assert u[1..][..i - 1] == u[..i][1..] && v[1..][..i - 1] == v[..i][1..];
        assert LessAt(u[1..], v[1..], i - 1);
      }
    } else {
      assert v != [] && (u == [] || u[0] < v[0]) ==> LessAt(u, v, 0);
      forall i: nat | LessAt(u, v, i)
        ensures i > 0 ==> u[0] == v[0]
      {
        if i > 0 {
          HeadsAgree(u, v, i);
        }
      }
    }
  }

  ghost predicate Ascending(ts: seq<Word>) {
    forall i, j :: 0 <= i < j < |ts| ==> Less(ts[i], ts[j])
  }

  /** Puts a new word in its place. */
  function Placed(ts: seq<Word>, t: Word): (r: seq<Word>)
    ensures forall u :: u in r <==> u in ts || u == t
  {
    if ts == [] || Less(t, ts[0]) then [t] + ts else [ts[0]] + Placed(ts[1..], t)
  }

  lemma {:induction false} PlacedAscends(ts: seq<Word>, t: Word)
    requires Ascending(ts) && t !in ts
    ensures Ascending(Placed(ts, t))
    decreases |ts|
  {
    if ts == [] {
    } else if Less(t, ts[0]) {
      ConsAscends(t, ts);
    } else {
      LessTotal(t, ts[0]);
      PlacedAscends(ts[1..], t);
      HeadBelow(ts[0], ts[1..], t);
    }
  }

  lemma {:induction false} ConsAscends(t: Word, ts: seq<Word>)
    requires Ascending(ts) && ts != [] && Less(t, ts[0])
    ensures Ascending([t] + ts)
  {
    forall j | 0 <= j < |ts|
      ensures Less(t, ts[j])
    {
      if j > 0 {
        LessTransitive(t, ts[0], ts[j]);
      }
    }
  }

  lemma {:induction false} HeadBelow(u: Word, rest: seq<Word>, t: Word)
    requires Ascending(Placed(rest, t)) && Less(u, t) && forall v :: v in rest ==> Less(u, v)
    ensures Ascending([u] + Placed(rest, t))
  {
    var r := Placed(rest, t);
    forall j | 0 <= j < |r|
      ensures Less(u, r[j])
    {
      assert r[j] in r;
    }
  }

  /** The words of a set in ascending order. */
  method Sorted(ws: set<Word>) returns (ts: seq<Word>)
    ensures Ascending(ts) && forall t :: t in ts <==> t in ws
  {
    ts := [];
    var rest := ws;
    while rest != {}
      invariant rest <= ws && Ascending(ts) && forall t :: t in ts <==> t in ws && t !in rest
    {
      var t :| t in rest;
      PlacedAscends(ts, t);
      ts, rest := Placed(ts, t), rest - {t};
    }
  }
}
