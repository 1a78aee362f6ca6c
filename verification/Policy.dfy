/** The drop policy: byte-offset rules, each with its own budget of drops. */
module LossPolicies {
  import opened SeqSpace

  datatype DropRule = DropRule(lo: u32, hi: u32, times: int, fired: int)

  datatype Policy = Policy(rules: seq<DropRule>, dropped: int)

  predicate Matches(r: DropRule, lo: u32, hi: u32) {
    r.fired < r.times && lo < r.hi && r.lo < hi
  }

  /** The first rule with budget left that overlaps, or the number of rules. */
  function FirstMatch(rules: seq<DropRule>, lo: u32, hi: u32): (k: nat)
    ensures k <= |rules|
    ensures forall i :: 0 <= i < k ==> !Matches(rules[i], lo, hi)
    ensures k < |rules| ==> Matches(rules[k], lo, hi)
  {
    if rules == [] || Matches(rules[0], lo, hi) then 0 else 1 + FirstMatch(rules[1..], lo, hi)
  }

  predicate Drops(p: Policy, rel: u32, len: u32) {
    len != 0 && FirstMatch(p.rules, rel, Wrap(rel + len)) < |p.rules|
  }

  function Fire(r: DropRule): DropRule {
    r.(fired := r.fired + 1)
  }

  /** The policy after judging a segment. */
  function Judged(p: Policy, rel: u32, len: u32): Policy {
    if Drops(p, rel, len) then
      var k := FirstMatch(p.rules, rel, Wrap(rel + len));
      Policy(p.rules[k := Fire(p.rules[k])], p.dropped + 1)
    else p
  }

  // ------------------------------------------------------------------------ budgets

  function Left(r: DropRule): nat {
    if r.fired < r.times then r.times - r.fired else 0
  }

  /** Drops still to come. */
  function Budget(rules: seq<DropRule>): nat {
    if rules == [] then 0 else Left(rules[0]) + Budget(rules[1..])
  }

  function Fired(rules: seq<DropRule>): int {
    if rules == [] then 0 else rules[0].fired + Fired(rules[1..])
  }

  /** Rules fire at most as often as allowed, and every drop is on one rule's account. */
  ghost predicate Accounted(p: Policy) {
    p.dropped == Fired(p.rules) && forall i :: 0 <= i < |p.rules| ==> WithinTimes(p.rules[i])
  }

  ghost predicate WithinTimes(r: DropRule) {
    0 <= r.fired && (r.fired <= r.times || r.fired == 0)
  }

  lemma {:induction false} FireAccounts(rules: seq<DropRule>, k: nat)
    requires k < |rules| && rules[k].fired < rules[k].times
    ensures Budget(rules[k := Fire(rules[k])]) == Budget(rules) - 1
    ensures Fired(rules[k := Fire(rules[k])]) == Fired(rules) + 1
    decreases |rules|
  {
    var after := rules[k := Fire(rules[k])];
    if k == 0 {
      assert after[1..] == rules[1..];
    } else {
      assert after[1..] == rules[1..][k - 1 := Fire(rules[k])];
      FireAccounts(rules[1..], k - 1);
    }
  }

  /** Every drop costs exactly one unit of budget, and only drops do. */
  lemma DropsCostBudget(p: Policy, rel: u32, len: u32)
    ensures Budget(Judged(p, rel, len).rules) == Budget(p.rules) - if Drops(p, rel, len) then 1 else 0
    ensures Drops(p, rel, len) ==> Budget(p.rules) > 0
    ensures Accounted(p) ==> Accounted(Judged(p, rel, len))
    ensures |Judged(p, rel, len).rules| == |p.rules|
  {
    if Drops(p, rel, len) {
      FireAccounts(p.rules, FirstMatch(p.rules, rel, Wrap(rel + len)));
    }
  }

  function JudgeAll(p: Policy, segs: seq<(u32, u32)>): Policy
    decreases |segs|
  {
    if segs == [] then p else JudgeAll(Judged(p, segs[0].0, segs[0].1), segs[1..])
  }

  /** Over any sequence of segments: what is dropped is what the budget lost, and the books
      stay balanced. */
  lemma {:induction false} DropsNeverExceedBudget(p: Policy, segs: seq<(u32, u32)>)
    requires Accounted(p)
    ensures Accounted(JudgeAll(p, segs))
    ensures JudgeAll(p, segs).dropped + Budget(JudgeAll(p, segs).rules) == p.dropped + Budget(p.rules)
    decreases |segs|
  {
    if segs != [] {
      DropsCostBudget(p, segs[0].0, segs[0].1);
      DropsNeverExceedBudget(Judged(p, segs[0].0, segs[0].1), segs[1..]);
    }
  }

  // ------------------------------------------------------------------ what a rule means

  /** A byte is both in the rule and in the segment. */
  ghost predicate Shares(r: DropRule, rel: int, len: int, x: int) {
    r.lo <= x < r.hi && rel <= x < rel + len
  }

  /** Some byte is both in the rule and in the segment. */
  ghost predicate Overlap(r: DropRule, rel: int, len: int) {
    exists x :: Shares(r, rel, len, x)
  }

  /** For a non-empty rule with budget the code's test is overlap, as documented, if and only if
      the segment ends before offset 2^32, or the rule begins below where its wrapped end falls,
      or the rule ends at or below its start. */
  lemma MatchIsOverlapExactly(r: DropRule, rel: u32, len: u32)
    requires len > 0 && r.lo < r.hi && r.fired < r.times
    ensures (Matches(r, rel, Wrap(rel + len)) <==> Overlap(r, rel, len)) <==>
            rel + len < M || r.lo < rel + len - M || r.hi <= rel
  {
    WrappedEnd(rel, len);
    OverlapIs(r, rel, len);
  }

  lemma WrappedEnd(rel: u32, len: u32)
    ensures Wrap(rel + len) == if rel + len < M then rel + len else rel + len - M
  {
    if rel + len < M {
      SmallWrap(rel + len);
    } else {
      WrapShift(rel + len - M, 1);
      SmallWrap(rel + len - M);
    }
  }

  lemma OverlapIs(r: DropRule, rel: int, len: int)
    requires len > 0 && r.lo < r.hi
    ensures Overlap(r, rel, len) <==> rel < r.hi && r.lo < rel + len
  {
    if rel < r.hi && r.lo < rel + len {
      assert Shares(r, rel, len, if r.lo < rel then rel else r.lo);
    }
  }

  /** In particular for every segment that starts below offset 2^31 and is no longer than that,
      as the peer only asks about. */
  lemma MatchIsOverlap(r: DropRule, rel: u32, len: u32)
    requires 0 < len <= HALF && rel < HALF && r.lo < r.hi
    ensures Matches(r, rel, Wrap(rel + len)) <==> r.fired < r.times && Overlap(r, rel, len)
  {
    WrappedEnd(rel, len);
    OverlapIs(r, rel, len);
  }

  /** An empty rule is not inert: it fires on every segment that ends before offset 2^32 and
      strictly surrounds it, and on no other. */
  lemma EmptyRuleFires(r: DropRule, rel: u32, len: u32)
    requires len > 0 && r.lo >= r.hi
    ensures Matches(r, rel, Wrap(rel + len)) <==> r.fired < r.times && rel + len < M && rel < r.hi && r.lo < rel + len
    ensures !Overlap(r, rel, len)
  {
    WrappedEnd(rel, len);
  }

  // --------------------------------------------------------------------- what is charged

  /** A rule with budget left that the bytes rel to rel + len begin before the end of and reach
      beyond the start of. */
  predicate Meets(r: DropRule, rel: int, len: int) {
    r.fired < r.times && rel < r.hi && r.lo < rel + len
  }

  /** A segment that ends before offset 2^32 is dropped if and only if a rule meets it; an empty
      one never is. */
  lemma DropsExactly(p: Policy, rel: u32, len: u32)
    requires rel + len < M
    ensures Drops(p, rel, len) <==> len > 0 && exists k :: 0 <= k < |p.rules| && Meets(p.rules[k], rel, len)
  {
    WrappedEnd(rel, len);
    var k := FirstMatch(p.rules, rel, rel + len);
    if k < |p.rules| {
      assert Meets(p.rules[k], rel, len);
    }
    forall i | 0 <= i < |p.rules| && Meets(p.rules[i], rel, len)
      ensures Matches(p.rules[i], rel, rel + len)
    {
    }
  }

  /** A drop is charged to the first rule that meets the segment, and every other rule, and the
      bounds and budget of this one, stay; a segment that passes is charged to none. */
  lemma DropIsCharged(p: Policy, rel: u32, len: u32)
    requires rel + len < M
    ensures var q := Judged(p, rel, len);
            if Drops(p, rel, len) then
              && |q.rules| == |p.rules| && q.dropped == p.dropped + 1
              && exists k :: && 0 <= k < |p.rules| && Meets(p.rules[k], rel, len)
                             && (forall i :: 0 <= i < k ==> !Meets(p.rules[i], rel, len))
                             && (forall i :: 0 <= i < |p.rules| && i != k ==> q.rules[i] == p.rules[i])
                             && q.rules[k] == DropRule(p.rules[k].lo, p.rules[k].hi, p.rules[k].times, p.rules[k].fired + 1)
            else q == p
  {
    if Drops(p, rel, len) {
      WrappedEnd(rel, len);
      var k := FirstMatch(p.rules, rel, rel + len);
      assert Meets(p.rules[k], rel, len);
      forall i | 0 <= i < k
        ensures !Meets(p.rules[i], rel, len)
      {
        assert !Matches(p.rules[i], rel, rel + len);
      }
    }
  }

  // --------------------------------------------------------------------- the object

  class LossPolicy {
    var rules: seq<DropRule>
    var dropped: int

    constructor ()
      ensures State() == Policy([], 0) && Accounted(State())
    {
      rules, dropped := [], 0;
    }

    function State(): Policy
      reads this
    {
      Policy(rules, dropped)
    }

    method Add(r: DropRule)
      modifies this
      ensures State() == Policy(old(rules) + [r], old(dropped))
    {
      rules := rules + [r];
    }

    method Drop(rel: u32, len: u32) returns (d: bool)
      modifies this
      ensures d == Drops(old(State()), rel, len) && State() == Judged(old(State()), rel, len)
      ensures old(Accounted(State())) ==> Accounted(State())
    {
      DropsCostBudget(State(), rel, len);
      if len == 0 {
        return false;
      }
      var lo, hi := rel, Wrap(rel + len);
      for i := 0 to |rules|
        invariant rules == old(rules) && dropped == old(dropped)
        invariant FirstMatch(rules, lo, hi) >= i
      {
        var r := rules[i];
        if r.fired < r.times && lo < r.hi && r.lo < hi {
          assert Matches(rules[i], lo, hi);
          rules, dropped := rules[i := r.(fired := r.fired + 1)], dropped + 1;
          return true;
        }
      }
      return false;
    }

    /** The rules that never fired, in order. */
    method Unfired() returns (out: seq<nat>)
      ensures forall i :: i in out <==> 0 <= i < |rules| && rules[i].fired == 0
      ensures forall i, j :: 0 <= i < j < |out| ==> out[i] < out[j]
    {
      out := [];
      for i := 0 to |rules|
        invariant forall j :: j in out <==> 0 <= j < i && rules[j].fired == 0
        invariant forall j, k :: 0 <= j < k < |out| ==> out[j] < out[k]
      {
        if rules[i].fired == 0 {
          assert forall j :: 0 <= j < |out| ==> out[j] in out;
          out := out + [i];
        }
      }
    }
  }
}
