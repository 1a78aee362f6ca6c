/** The learner: observation table, hypothesis construction, Rivest-Schapire analysis, the
    equivalence oracles and the main loop, over a deterministic system. */
module Learning {
  import opened Machines
  import opened Options
  import opened WMethod
  import opened Separation
  import opened Oracles
  import opened Observation
  import opened Tables
  import opened Queries
  import opened Runs
  import Words

  class Learner {
    const orc: Oracle
    const ref: Mealy
    const cfg: Config
    var S: seq<Word>
    var E: seq<Word>
    var row: Rows
    var H: Mealy
    var st: Stats
    ghost var start: nat

    /** The oracle answers truthfully and has seen no contradiction, and the table is a tree of
        access words whose cells are the system's answers. */
    ghost predicate Valid()
      reads this`S, this`E, this`row, orc, orc.sul, orc.cache
    {
      orc.Serves(ref) && SoundTable(ref, S, E, row)
    }

    /** Filled and with pairwise distinct rows. */
    ghost predicate Ready()
      reads this`S, this`E, this`row, orc, orc.sul, orc.cache
    {
      orc.Serves(ref) && ReadyTable(ref, S, E, row)
    }

    constructor (orc: Oracle, cfg: Config)
      requires orc.Valid() && orc.Silent()
      ensures Valid() && this.orc == orc && ref == orc.sul.m && this.cfg == cfg
      ensures S == [[]] && |E| == ref.k && st == NoStats()
    {
      this.orc, this.ref, this.cfg := orc, orc.sul.m, cfg;
      S, E := [[]], seq(orc.sul.m.k, (a: nat) => [a]);
      row := map[];
      H := orc.sul.m;
      st := NoStats();
    }

    /** Asks for the missing cells of the row of u. */
    method CompleteRow(u: Word, r0: seq<OutWord>, ghost f: nat) returns (r: seq<OutWord>)
      requires orc.Serves(ref) && WordsOver(ref.k, E)
      requires RowSound(ref, E, u, r0) && f <= |r0| && forall j :: 0 <= j < f ==> r0[j] != []
      modifies orc, orc.sul, orc.cache
      ensures orc.Serves(ref)
      ensures r == TrueRow(ref, E, u) && old(orc.mq) <= orc.mq <= old(orc.mq) + |E| - f
    {
      r := r0 + seq(|E| - |r0|, _ => []);
      for j := 0 to |E|
        invariant orc.Serves(ref)
        invariant |r| == |E|
        invariant forall i :: 0 <= i < j ==> r[i] == Run(ref, Reach(ref, 0, u), E[i])
        invariant forall i :: j <= i < |E| ==> CellSound(ref, E, u, i, r[i])
        invariant forall i :: j <= i < f ==> r[i] != []
        invariant old(orc.mq) <= orc.mq <= old(orc.mq) + if j <= f then 0 else j - f
      {
        if r[j] == [] {
          assert E[j] in E;
          var cell := AskCell(u, E[j]);
          r := r[j := cell];
        }
      }
    }

    method AskCell(u: Word, e: Word) returns (cell: OutWord)
      requires orc.Serves(ref) && Over(ref.k, u) && Over(ref.k, e)
      modifies orc, orc.sul, orc.cache
      ensures orc.Serves(ref)
      ensures cell == Run(ref, Reach(ref, 0, u), e) && orc.mq == old(orc.mq) + 1
    {
      LastOfRun(ref, u, e);
      var o := Answer(u + e);
      cell := LastN(o, |e|);
    }

    /** The system's answer to w. */
    method Answer(w: Word) returns (o: OutWord)
      requires orc.Serves(ref) && Over(ref.k, w)
      modifies orc, orc.sul, orc.cache
      ensures orc.Serves(ref) && o == Run(ref, 0, w) && orc.mq == old(orc.mq) + 1
    {
      o := orc.Query(w);
    }

    /** Fills the row of u, of which the first f cells are known. */
    method FillRow(u: Word, ghost f: nat)
      requires Valid() && Over(ref.k, u) && Has(row, u, f) && f <= |E|
      modifies this`row, orc, orc.sul, orc.cache
      ensures Valid() && row == old(row)[u := TrueRow(ref, E, u)]
      ensures Improves(ref, E, old(row), row) && Filled(ref, E, row, u)
      ensures old(orc.mq) <= orc.mq <= old(orc.mq) + |E| - f
    {
      var r := CompleteRow(u, if u in row then row[u] else [], f);
      TrueRowSound(ref, E, row, u);
      ImprovesFill(ref, E, row, u);
      row := row[u := r];
    }

    /** Fills the row of extension a of s, after the rows of s and of its extensions before. */
    method FillExtension(s: Word, a: nat, ghost r0: Rows, ghost f: nat)
      requires Valid() && Over(ref.k, s) && a < ref.k && AroundAt(ref, E, r0, row, s, a)
      requires HasAround(ref.k, r0, s, f) && f <= |E|
      modifies this`row, orc, orc.sul, orc.cache
      ensures Valid() && AroundAt(ref, E, r0, row, s, a + 1)
      ensures old(orc.mq) <= orc.mq <= old(orc.mq) + |E| - f
    {
      ghost var r1 := row;
      ExtensionHas(ref, E, r0, row, s, a, f);
      FillRow(s + [a], f);
      AroundStep(ref, E, r0, r1, row, s, a);
    }

    /** Fills the row of s and of its one-input extensions. */
    method FillAround(s: Word, ghost f: nat)
      requires Valid() && Over(ref.k, s) && HasAround(ref.k, row, s, f) && f <= |E|
      modifies this`row, orc, orc.sul, orc.cache
      ensures Valid() && FilledAround(ref, E, row, s) && Improves(ref, E, old(row), row)
      ensures old(orc.mq) <= orc.mq <= old(orc.mq) + RowCost(ref.k, |E| - f)
    {
      ghost var r0, mq0, d := row, orc.mq, |E| - f;
      FillRow(s, f);
      AroundStart(ref, E, r0, row, s);
      for a: nat := 0 to ref.k
        invariant Valid() && AroundAt(ref, E, r0, row, s, a)
        invariant Within(mq0, orc.mq, 0, a + 1, d)
      {
        ghost var mq1 := orc.mq;
        FillExtension(s, a, r0, f);
        WithinStep(mq0, mq1, orc.mq, 0, a + 1, d);
      }
      AroundDone(ref, E, r0, row, s);
    }

    /** Fills the rows around access word i. */
    method FillAccess(i: nat, ghost n: nat, ghost f: nat)
      requires orc.Serves(ref) && i < |S| && FillingAt(ref, S, E, row, n, f, i)
      modifies this`row, orc, orc.sul, orc.cache
      ensures orc.Serves(ref) && FillingAt(ref, S, E, row, n, f, i + 1)
      ensures old(orc.mq) <= orc.mq <= old(orc.mq) + if i < n then 0 else RowCost(ref.k, |E| - f)
    {
      TimesZero(ref.k + 1);
      ghost var before := row;
      FillingHas(ref, S, E, row, n, f, i);
      FillAround(S[i], if i < n then |E| else f);
      FillingStep(ref, S, E, before, row, n, f, i);
    }

    /** Fills every row; the first n access words have theirs already, the others f cells each. */
    method FillAll(ghost n: nat, ghost f: nat)
      requires Valid() && n <= |S| && f <= |E| && HasAll(ref.k, S, row, n, |E|, f)
      modifies this`row, orc, orc.sul, orc.cache
      ensures Valid() && AllFilled(ref, S, E, row)
      ensures Within(old(orc.mq), orc.mq, n, |S|, RowCost(ref.k, |E| - f))
    {
      ghost var mq0, c := orc.mq, RowCost(ref.k, |E| - f);
      FillingStart(ref, S, E, row, n, f);
      for i: nat := 0 to |S|
        invariant orc.Serves(ref) && FillingAt(ref, S, E, row, n, f, i) && mq0 <= orc.mq <= mq0 + Past(n, i, c)
      {
        ghost var mq1 := orc.mq;
        FillAccess(i, n, f);
        PastStep(n, i, c, orc.mq - mq1);
      }
      FillingDone(ref, S, E, row, n, f);
    }

    /** Moves the first extension whose row is unknown into S, or reports the table closed. */
    method CloseOnce() returns (grew: bool, ghost i: nat, ghost a: nat)
      requires Ready()
      modifies this`S, this`row, orc, orc.sul, orc.cache
      ensures Ready()
      ensures !grew ==> S == old(S) && TableClosed(ref, S, E)
      ensures grew ==> FirstOpen(ref, old(S), E, i, a) && S == old(S) + [old(S)[i] + [a]]
      ensures old(orc.mq) <= orc.mq <= old(orc.mq) + if grew then RowCost(ref.k, |E|) else 0
    {
      var u;
      u, i, a := FindOpen(ref, S, E, row);
      grew := u.Some?;
      if grew {
        AddAccess(u.value);
      }
    }

    method AddAccess(u: Word)
      requires Valid() && AllFilled(ref, S, E, row) && Shape(ref.k, S + [u], E) && Distinct(ref, S + [u], E)
      modifies this`S, this`row, orc, orc.sul, orc.cache
      ensures Ready() && S == old(S) + [u] && old(orc.mq) <= orc.mq <= old(orc.mq) + RowCost(ref.k, |E|)
    {
      AccessHas(ref, S, E, row, u);
      S := S + [u];
      FillAll(|S| - 1, 0);
      WithinOne(old(orc.mq), orc.mq, |S| - 1, |S|, RowCost(ref.k, |E|));
    }

    /** Builds the hypothesis, counting repeated rows. */
    method BuildHyp()
      requires Ready()
      modifies this`H, this`st
      ensures Ready() && HypothesisFor(ref, S, E, H) && BuiltAll(ref, S, E, H) && st == old(st)
    {
      var h, dups := BuildHypothesis(ref, S, E, row);
      H, st := h, st.(d4 := st.d4 + dups);
    }

    // ------------------------------------------------------------- Rivest-Schapire analysis

    /** ce separates the system from the hypothesis the table describes. */
    ghost predicate TrueCounterexample(ce: Word)
      reads this`S, this`E, this`H
    {
      Shape(ref.k, S, E) && ReadOff(ref, S, E, H) && Separates(H, 0, ref, 0, ce)
    }

    /** e splits a row of the table the hypothesis was read off. */
    ghost predicate Splits(e: Word)
      reads this`S, this`E, this`H
    {
      Shape(ref.k, S, E) && ReadOff(ref, S, E, H) && SplitsRow(ref, S, H, e)
    }

    /** Whether the access word of the hypothesis state after ce[..i], followed by the rest of
        ce, still separates system and hypothesis. */
    method DiffersAt(ce: Word, i: nat) returns (b: bool, sulOut: OutWord, hypOut: OutWord)
      requires Valid() && H.n == |S| && H.k == ref.k && Over(ref.k, ce) && i <= |ce|
      modifies orc, orc.sul, orc.cache
      ensures Valid()
      ensures var q := Reach(H, 0, ce[..i]);
              sulOut == Run(ref, Reach(ref, 0, S[q]), ce[i..]) && hypOut == Run(H, q, ce[i..])
      ensures (b <==> Differs(ref, S, H, ce, i)) && orc.mq == old(orc.mq) + 1
    {
      var q := Reach(H, 0, ce[..i]);
      assert S[q] in S;
      sulOut := AskCell(S[q], ce[i..]);
      hypOut := Run(H, q, ce[i..]);
      b := sulOut != hypOut;
    }

    /** One step of the binary search. */
    method Halve(ce: Word, lo: nat, hi: nat) returns (lo': nat, hi': nat)
      requires orc.Serves(ref) && Bracket(ref, S, E, row, H, ce, lo, hi) && hi - lo > 1
      modifies orc, orc.sul, orc.cache
      ensures orc.Serves(ref) && Bracket(ref, S, E, row, H, ce, lo', hi') && orc.mq == old(orc.mq) + 1
      ensures hi' - lo' < hi - lo && hi' - lo' <= (hi - lo + 1) / 2
    {
      var mid := lo + (hi - lo) / 2;
      var b, _, _ := DiffersAt(ce, mid);
      if b {
        lo', hi' := mid, hi;
      } else {
        lo', hi' := lo, mid;
      }
    }

    /** Binary search for a position at which the difference disappears. */
    method FindBoundary(ce: Word) returns (lo: nat)
      requires orc.Serves(ref) && Analysable(ref, S, E, row, H, ce)
      modifies orc, orc.sul, orc.cache
      ensures orc.Serves(ref) && Boundary(ref, S, E, row, H, ce, lo) && orc.mq <= old(orc.mq) + Halvings(|ce|)
    {
      ghost var bound := orc.mq + Halvings(|ce|);
      var hi: nat;
      lo, hi := 0, |ce|;
      BracketWhole(ref, S, E, row, H, ce);
      while hi - lo > 1
        invariant orc.Serves(ref) && Bracket(ref, S, E, row, H, ce, lo, hi)
        invariant orc.mq + Halvings(hi - lo) <= bound
        decreases hi - lo
      {
        ghost var gap := hi - lo;
        lo, hi := Halve(ce, lo, hi);
        HalvingsStep(gap, hi - lo);
      }
      BracketCloses(ref, S, E, row, H, ce, lo, hi);
    }

    /** What the detectors make of position lo of ce: the first outputs there must agree, and
        the suffix after it must be there and new. */
    ghost function VerdictAt(ce: Word, lo: nat): Verdict
      requires WordsOver(ref.k, S) && H.n == |S| && H.k == ref.k && Over(ref.k, ce) && lo <= |ce|
      reads this`S, this`E, this`H
    {
      var q := Reach(H, 0, ce[..lo]);
      Judge(Run(ref, Reach(ref, 0, S[q]), ce[lo..]), Run(H, q, ce[lo..]), if lo < |ce| then ce[lo + 1..] else [], E)
    }

    method Analyze(ce: Word) returns (v: Verdict, suffix: Word, ghost lo: nat)
      requires Valid() && H.n == |S| && H.k == ref.k && Over(ref.k, ce)
      modifies orc, orc.sul, orc.cache
      ensures Valid() && lo <= |ce| && v == VerdictAt(ce, lo) && orc.mq <= old(orc.mq) + Halvings(|ce|) + 1
      ensures v.Fresh? ==> lo < |ce| && suffix == ce[lo + 1..] && Over(ref.k, suffix) && suffix != [] && suffix !in E
      ensures TrueCounterexample(ce) ==> v.Fresh? && Splits(suffix)
    {
      var at := FindBoundary(ce);
      lo := at;
      var _, b, h := DiffersAt(ce, at);
      if ce == [] {
        return BadOutput, [], 0;
      }
      AnalysisVerdict(ref, S, E, H, ce, at, b, h);
      suffix := ce[at + 1..];
      v := Judge(b, h, suffix, E);
    }

    /** The suffix to add, or none with the detector raised that the boundary lo calls for: D2
        for a bad first output or an empty suffix, D6 for a suffix already there. On a hypothesis
        read off the table a true counterexample raises neither and yields a suffix that splits a
        row. */
    method RivestSchapire(ce: Word) returns (r: Option<Word>, ghost lo: nat)
      requires Ready() && H.n == |S| && H.k == ref.k && Over(ref.k, ce)
      modifies this`st, orc, orc.sul, orc.cache
      ensures Ready() && lo <= |ce| && orc.mq <= old(orc.mq) + Halvings(|ce|) + 1
      ensures r.Some? <==> !BadAt(ref, S, H, ce, lo) && !RepeatsAt(E, ce, lo)
      ensures r.Some? ==> lo < |ce| && r.value == ce[lo + 1..] && Over(ref.k, r.value) && r.value != [] && r.value !in E
      ensures st == if BadAt(ref, S, H, ce, lo) then old(st).(d2 := old(st).d2 + 1)
                    else if RepeatsAt(E, ce, lo) then old(st).(d6 := old(st).d6 + 1) else old(st)
      ensures TrueCounterexample(ce) ==> r.Some? && Splits(r.value)
    {
      var v, suffix, at := Analyze(ce);
      VerdictIs(ref, S, E, H, ce, at);
      lo, st := at, Counted(st, v);
      r := if v.Fresh? then Some(suffix) else None;
    }

    // ------------------------------------------------------------------ equivalence oracles

    /** The suffixes of the W-method suite. */
    method PickSuffixes() returns (W: seq<Word>)
      requires Shape(ref.k, S, E) && H.k == ref.k && ref.k >= 1
      ensures WordsOver(ref.k, W) && Allowed(E, H, cfg.plan, W)
    {
      if cfg.plan.useEAsW {
        W := E;
      } else {
        W := CharacterizingSet(H);
        if W == [] {
          EmptyCharacterizes(H, [0]);
          W := [[0]];
        }
      }
    }

    /** The first n tests pass. */
    ghost predicate FirstPass(ts: seq<Word>, n: nat)
      requires H.k == ref.k && (forall t :: t in ts ==> Over(ref.k, t)) && n <= |ts|
      reads this`H
    {
      forall i :: 0 <= i < n ==> Run(H, 0, ts[i]) == Run(ref, 0, ts[i])
    }

    /** Runs the tests in order until one fails. */
    method RunSuite(ts: seq<Word>) returns (r: Option<Word>, ghost at: nat)
      requires Ready() && H.k == ref.k && forall t :: t in ts ==> Over(ref.k, t)
      modifies orc, orc.sul, orc.cache
      ensures Ready() && at <= |ts| && FirstPass(ts, at)
      ensures if r.Some? then at < |ts| && r.value == ts[at] && Separates(H, 0, ref, 0, r.value) else at == |ts|
      ensures orc.mq == old(orc.mq) + at + if r.Some? then 1 else 0
    {
      for i: nat := 0 to |ts|
        invariant Ready() && FirstPass(ts, i) && orc.mq == old(orc.mq) + i
      {
        assert ts[i] in ts;
        var so := Answer(ts[i]);
        if so != Run(H, 0, ts[i]) {
          return Some(ts[i]), i;
        }
      }
      r, at := None, |ts|;
    }

    /** The tests of the suite in word order. */
    method Tests(W: seq<Word>) returns (ts: seq<Word>, ghost mid: seq<Word>)
      requires Shape(ref.k, S, E) && WordsOver(ref.k, W)
      ensures Words.Ascending(ts) && forall t :: t in ts <==> InSuite(ref.k, S, 1 + cfg.plan.extra, W, t)
      ensures forall t :: t in ts <==> t in Suite(S, mid, W)
      ensures forall t :: t in ts ==> Over(ref.k, t)
      ensures forall x: Word :: x in mid <==> Over(ref.k, x) && |x| <= 1 + cfg.plan.extra
    {
      var m := Middle(ref.k, 1 + cfg.plan.extra);
      mid := m;
      var suite := Suite(S, m, W);
      SuiteOver(ref.k, S, m, W);
      ts := Words.Sorted(suite);
      forall t: Word
        ensures t in suite <==> InSuite(ref.k, S, 1 + cfg.plan.extra, W, t)
      {
        SuiteIs(ref.k, S, m, 1 + cfg.plan.extra, W, t);
      }
    }

    /** The W-method: the first failing test of the suite in word order, or none, which within the
        budget proves equivalence. */
    method EqWMethod() returns (r: Option<Word>, ghost W: seq<Word>, ghost ts: seq<Word>, ghost at: nat)
      requires Ready() && ReadOff(ref, S, E, H) && ref.k >= 1
      modifies orc, orc.sul, orc.cache
      ensures Ready() && Allowed(E, H, cfg.plan, W)
      ensures Words.Ascending(ts) && forall t :: t in ts <==> InSuite(ref.k, S, 1 + cfg.plan.extra, W, t)
      ensures (forall t :: t in ts ==> Over(ref.k, t)) && at <= |ts| && FirstPass(ts, at)
      ensures if r.Some? then at < |ts| && r.value == ts[at] && Separates(H, 0, ref, 0, r.value) else at == |ts|
      ensures r.None? && WithinBudget(ref, S, H, cfg.plan) ==> Alike(H, 0, ref, 0)
      ensures orc.mq == old(orc.mq) + at + if r.Some? then 1 else 0
    {
      var suffixes := PickSuffixes();
      var tests, mid := Tests(suffixes);
      W, ts := suffixes, tests;
      r, at := RunSuite(tests);
      if r.None? {
        SuitePassed(H, ref, S, mid, W, cfg.plan.extra);
        if WithinBudget(ref, S, H, cfg.plan) {
          PassedIsAlike(ref, S, E, H, cfg.plan, W);
        }
      }
    }

    /** Random walks of up to 60 symbols: a failing one, or none after all tests, which proves
        nothing. */
    method EqRandomWalk() returns (r: Option<Word>)
      requires Ready() && H.k == ref.k && ref.k >= 1
      modifies orc, orc.sul, orc.cache
      ensures Ready()
      ensures r.Some? ==> Separates(H, 0, ref, 0, r.value) && 1 <= |r.value| <= 60
      ensures if r.Some? then old(orc.mq) < orc.mq <= old(orc.mq) + cfg.rwTests else orc.mq == old(orc.mq) + cfg.rwTests
    {
      r := None;
      for t := 0 to cfg.rwTests
        invariant Ready() && r.None? && orc.mq == old(orc.mq) + t
      {
        var w := SomeWalk(ref.k);
        var so := Answer(w);
        if so != Run(H, 0, w) {
          return Some(w);
        }
      }
    }

    /** The configured oracle: a true counterexample, or none. */
    method Equivalence() returns (r: Option<Word>)
      requires Ready() && ReadOff(ref, S, E, H) && (cfg.perfectEq || ref.k >= 1)
      modifies orc, orc.sul, orc.cache
      ensures Ready()
      ensures r.Some? ==> Separates(H, 0, ref, 0, r.value)
      ensures r.None? && Conclusive(ref, cfg, S, H) ==> Alike(H, 0, ref, 0)
      ensures cfg.perfectEq ==> orc.mq == old(orc.mq) && (r.Some? ==> |r.value| <= Times(H.n, ref.n))
      ensures cfg.perfectEq && r.Some? ==> forall w: Word :: Separates(H, 0, ref, 0, w) ==> |r.value| <= |w|
      ensures !cfg.perfectEq && cfg.randomWalkEq && r.None? ==> orc.mq == old(orc.mq) + cfg.rwTests
    {
      if cfg.perfectEq {
        r := EqPerfect(H, ref);
        if r.Some? {
          ShortestIsShort(H, ref, r.value, Times(H.n, ref.n));
        }
      } else if cfg.randomWalkEq {
        r := EqRandomWalk();
      } else {
        var found, _, _, _ := EqWMethod();
        r := found;
      }
    }

    /** Cuts a counterexample after its first difference. */
    method Trim(ce: Word) returns (c: Word, ghost at: nat)
      requires Ready() && H.k == ref.k && Over(ref.k, ce)
      modifies orc, orc.sul, orc.cache
      ensures Ready() && Over(ref.k, c) && orc.mq == old(orc.mq) + 1
      ensures FirstDiffers(Run(ref, 0, ce), Run(H, 0, ce), at) && c == if at < |ce| then ce[..at + 1] else ce
      ensures TrueCounterexample(ce) ==> TrueCounterexample(c)
    {
      var so := Answer(ce);
      var ho := Run(H, 0, ce);
      var j := FirstMismatch(so, ho);
      c, at := ce, j;
      if j < |ce| {
        TrimmedSeparates(H, ref, ce, j);
        c := ce[..j + 1];
      }
    }

    // ----------------------------------------------------------------------------- the run

    /** One step of closing. */
    method Grow() returns (grew: bool)
      requires Ready()
      modifies this`S, this`row, orc, orc.sul, orc.cache
      ensures Ready()
      ensures if grew then |S| == |old(S)| + 1 else S == old(S) && TableClosed(ref, S, E)
      ensures old(orc.mq) <= orc.mq <= old(orc.mq) + if grew then RowCost(ref.k, |E|) else 0
    {
      var g, _, _ := CloseOnce();
      grew := g;
    }

    /** Closes the table, or stops above the state cap. An open table always grows. */
    method CloseLoop()
      requires Ready()
      modifies this`S, this`row, orc, orc.sul, orc.cache
      ensures Ready() && (TableClosed(ref, S, E) || |S| > cfg.maxStates)
      ensures Within(old(orc.mq), orc.mq, |old(S)|, |S|, RowCost(ref.k, |E|))
      ensures !TableClosed(ref, old(S), E) ==> |S| > |old(S)|
      ensures |S| <= 1 + if |old(S)| > cfg.maxStates then |old(S)| else cfg.maxStates
    {
      var more := Grow();
      if more {
        CloseMore(old(orc.mq), |old(S)|);
      }
    }

    /** One more step, with its cost. */
    method GrowMore(ghost mq0: nat, ghost s0: nat) returns (more: bool)
      requires Ready() && s0 < |S| && Within(mq0, orc.mq, s0, |S|, RowCost(ref.k, |E|))
      modifies this`S, this`row, orc, orc.sul, orc.cache
      ensures Ready() && Within(mq0, orc.mq, s0, |S|, RowCost(ref.k, |E|))
      ensures if more then |S| == |old(S)| + 1 <= Target(ref) else S == old(S) && TableClosed(ref, S, E)
    {
      ghost var mq1 := orc.mq;
      more := Grow();
      DistinctBound(ref, S, E);
      if more {
        WithinStep(mq0, mq1, orc.mq, s0, |S| - 1, RowCost(ref.k, |E|));
      }
    }

    /** Goes on closing after a first step. */
    method CloseMore(ghost mq0: nat, ghost s0: nat)
      requires Ready() && s0 < |S| && Within(mq0, orc.mq, s0, |S|, RowCost(ref.k, |E|))
      modifies this`S, this`row, orc, orc.sul, orc.cache
      ensures Ready() && s0 < |S| && (TableClosed(ref, S, E) || |S| > cfg.maxStates)
      ensures Within(mq0, orc.mq, s0, |S|, RowCost(ref.k, |E|))
      ensures |S| <= if |old(S)| > cfg.maxStates then |old(S)| else cfg.maxStates + 1
    {
      ghost var top := if |S| > cfg.maxStates then |S| else cfg.maxStates + 1;
      var more := true;
      while more && |S| <= cfg.maxStates
        invariant Ready() && s0 < |S| <= top && Within(mq0, orc.mq, s0, |S|, RowCost(ref.k, |E|))
        invariant !more ==> TableClosed(ref, S, E)
        decreases Target(ref) - |S|, more
      {
        more := GrowMore(mq0, s0);
      }
    }

    /** Counts repeated rows among the access words. */
    method CheckRows()
      requires Ready()
      modifies this`st
      ensures Ready() && st == old(st)
    {
      var _, dups := IndexRows(ref, S, E, row);
      st := st.(d4 := st.d4 + dups);
    }

    /** Closes the table, or stops above the state cap, and builds the hypothesis. */
    method Prepare()
      requires Ready()
      modifies this`S, this`row, this`H, this`st, orc, orc.sul, orc.cache
      ensures Ready() && |S| >= |old(S)| && st == old(st)
      ensures HypothesisFor(ref, S, E, H)
      ensures TableClosed(ref, S, E) || |S| > cfg.maxStates
      ensures Within(old(orc.mq), orc.mq, |old(S)|, |S|, RowCost(ref.k, |E|))
    {
      CloseLoop();
      CheckRows();
      BuildHyp();
    }

    ghost function Now(): Moment
      reads this`S, this`E, this`row, this`H, this`st, this`start, orc`mq
    {
      Moment(S, E, row, H, st, start, orc.mq)
    }

    /** The run goes on. */
    ghost predicate Running()
      reads this`S, this`E, this`row, this`H, this`st, this`start, orc, orc.sul, orc.cache
    {
      orc.Serves(ref) && RunningAt(ref, cfg, Now())
    }

    /** The run has ended. */
    ghost predicate Stopped()
      reads this`S, this`E, this`row, this`H, this`st, this`start, orc, orc.sul, orc.cache
    {
      orc.Serves(ref) && StoppedAt(ref, cfg, Now())
    }

    /** The run goes on with a hypothesis to challenge. */
    ghost predicate Opened()
      reads this`S, this`E, this`row, this`H, this`st, this`start, orc, orc.sul, orc.cache
    {
      orc.Serves(ref) && OpenedAt(ref, cfg, Now())
    }

    /** A counterexample has been found. */
    ghost predicate Found(ce: Word)
      reads this`S, this`E, this`row, this`H, this`st, this`start, orc, orc.sul, orc.cache
    {
      orc.Serves(ref) && FoundAt(ref, cfg, Now(), ce)
    }

    /** Counts the round and asks the equivalence oracle. */
    method Consult() returns (r: Option<Word>)
      requires Ready() && ReadOff(ref, S, E, H) && (cfg.perfectEq || ref.k >= 1)
      modifies this`st, orc, orc.sul, orc.cache
      ensures orc.Serves(ref) && Asked(cfg, old(Now()), Now())
      ensures r.Some? ==> Separates(H, 0, ref, 0, r.value) && (cfg.perfectEq ==> |r.value| <= Times(H.n, ref.n))
      ensures r.None? && Conclusive(ref, cfg, S, H) ==> Alike(H, 0, ref, 0)
    {
      r := Equivalence();
      st := st.(rounds := st.rounds + 1);
    }

    /** A cap ends the run. */
    method GiveUp()
      requires Running() && CapExceeded(cfg, Now())
      modifies this`st
      ensures Stopped()
    {
      CapStops(ref, cfg, Now());
      st := st.(d5 := st.d5 + 1);
    }

    /** No counterexample ends the run. */
    method Settle(ghost x: Moment)
      requires orc.Serves(ref) && RunningAt(ref, cfg, x) && !CapExceeded(cfg, x) && Asked(cfg, x, Now()) && Concluded(ref, cfg, Now())
      modifies this`st
      ensures Stopped()
    {
      NoneStops(ref, cfg, x, Now());
      st := st.(terminated := true);
    }

    /** Looks for a counterexample unless a cap is exceeded; without one the run has stopped. */
    method Challenge() returns (r: Option<Word>)
      requires Opened() && (cfg.perfectEq || ref.k >= 1)
      modifies this`st, orc, orc.sul, orc.cache
      ensures if r.None? then Stopped() else Found(r.value)
    {
      ghost var x := Now();
      if |S| > cfg.maxStates || st.rounds > cfg.maxRounds || orc.mq > cfg.maxMq {
        GiveUp();
        return None;
      }
      r := Consult();
      if r.None? {
        Settle(x);
      } else {
        SomeFound(ref, cfg, x, Now(), r.value);
      }
    }

    /** The word to analyse: the counterexample, trimmed if so configured. */
    method Chosen(ce: Word) returns (c: Word, ghost at: nat)
      requires Ready() && H.k == ref.k && Over(ref.k, ce)
      modifies orc, orc.sul, orc.cache
      ensures Ready() && Over(ref.k, c) && orc.mq == old(orc.mq) + if cfg.trimCE then 1 else 0
      ensures cfg.trimCE ==> FirstDiffers(Run(ref, 0, ce), Run(H, 0, ce), at)
      ensures c == if cfg.trimCE && at < |ce| then ce[..at + 1] else ce
      ensures TrueCounterexample(ce) ==> TrueCounterexample(c)
    {
      c, at := ce, 0;
      if cfg.trimCE {
        c, at := Trim(ce);
      }
    }

    /** The suffix to add after a counterexample, cut from the word analysed. */
    method Explain(ce: Word) returns (r: Option<Word>, ghost at: nat, ghost lo: nat)
      requires Ready() && H.n == |S| && H.k == ref.k && Over(ref.k, ce)
      modifies this`st, orc, orc.sul, orc.cache
      ensures Ready()
      ensures cfg.trimCE ==> FirstDiffers(Run(ref, 0, ce), Run(H, 0, ce), at)
      ensures var c := if cfg.trimCE && at < |ce| then ce[..at + 1] else ce;
              r.Some? ==> lo < |c| && r.value == c[lo + 1..]
      ensures r.Some? ==> Over(ref.k, r.value) && r.value != [] && st == old(st)
      ensures TrueCounterexample(ce) ==> r.Some? && Splits(r.value)
      ensures orc.mq <= old(orc.mq) + Halvings(|ce|) + if cfg.trimCE then 2 else 1
    {
      var c;
      c, at := Chosen(ce);
      HalvingsMonotone(|c|, |ce|);
      r, lo := RivestSchapire(c);
    }

    method AddSuffix(e: Word)
      requires Ready() && H.n == |S| && H.k == ref.k && Over(ref.k, e) && e != []
      modifies this`E, this`row, orc, orc.sul, orc.cache
      ensures Ready() && E == old(E) + [e] && st == old(st)
      ensures old(Splits(e)) ==> !TableClosed(ref, S, E)
      ensures Within(old(orc.mq), orc.mq, 0, |S|, RowCost(ref.k, 1))
    {
      SuffixHas(ref, S, E, row);
      SplitOpensIf(ref, S, E, H, e);
      RowsSoundGrows(ref, E, e, row);
      ShapeWidens(ref.k, S, E, e);
      E := E + [e];
      FillAll(0, |E| - 1);
    }

    /** Adds a suffix and closes the table again; D3 if S does not grow. */
    method Widen(e: Word) returns (stop: bool, ghost mid: nat)
      requires Ready() && H.n == |S| && H.k == ref.k && Over(ref.k, e) && e != []
      modifies this`S, this`E, this`row, this`st, orc, orc.sul, orc.cache
      ensures Ready() && |S| >= |old(S)| && |E| == |old(E)| + 1
      ensures Within(old(orc.mq), mid, 0, |old(S)|, RowCost(ref.k, 1))
      ensures Within(mid, orc.mq, |old(S)|, |S|, RowCost(ref.k, |E|))
      ensures st == if stop then old(st).(d3 := old(st).d3 + 1) else old(st)
      ensures stop <==> |S| == |old(S)|
      ensures old(Splits(e)) ==> !stop
    {
      var before := |S|;
      AddSuffix(e);
      mid := orc.mq;
      CloseLoop();
      stop := |S| == before;
      if stop {
        st := st.(d3 := st.d3 + 1);
      }
    }

    /** Adds the suffix that explains a counterexample. On a true one S grows. */
    method Repair(ce: Word) returns (stop: bool)
      requires Ready() && H.n == |S| && H.k == ref.k && Over(ref.k, ce)
      modifies this`S, this`E, this`row, this`st, orc, orc.sul, orc.cache
      ensures Ready()
      ensures old(TrueCounterexample(ce)) ==> !stop && st == old(st) && |S| > |old(S)| && |E| == |old(E)| + 1
      ensures old(TrueCounterexample(ce)) ==> Repaired(ref.k, old(orc.mq), orc.mq, |old(S)|, |S|, |E|, |ce|)
    {
      var suf, _, _ := Explain(ce);
      ghost var mq1 := orc.mq;
      stop := true;
      if suf.Some? {
        var s, mid := Widen(suf.value);
        stop := s;
        RepairedBy(ref.k, old(orc.mq), mq1, mid, orc.mq, |old(S)|, |S|, |E|, |ce|);
      }
    }

    /** Second half of a round. On a true counterexample no detector is raised and S grows. */
    method Refine(ce: Word) returns (stop: bool)
      requires Ready() && H.n == |S| && H.k == ref.k && Over(ref.k, ce)
      modifies this`S, this`E, this`row, this`H, this`st, orc, orc.sul, orc.cache
      ensures Ready()
      ensures old(TrueCounterexample(ce)) ==> !stop && st == old(st) && |S| > |old(S)| && |E| == |old(E)| + 1
      ensures old(TrueCounterexample(ce)) ==> Repaired(ref.k, old(orc.mq), orc.mq, |old(S)|, |S|, |E|, |ce|)
    {
      stop := Repair(ce);
      if !stop {
        BuildHyp();
      }
    }

    /** Prepares a round. */
    method Open()
      requires Running()
      modifies this`S, this`row, this`H, this`st, orc, orc.sul, orc.cache
      ensures Opened() && |S| >= |old(S)|
    {
      ghost var x := Now();
      Prepare();
      ClosingRuns(ref, cfg, x, Now());
    }

    /** Refines after a counterexample. */
    method Advance(ce: Word) returns (stop: bool)
      requires Found(ce)
      modifies this`S, this`E, this`row, this`H, this`st, orc, orc.sul, orc.cache
      ensures !stop && Running() && |S| > |old(S)|
    {
      ghost var x := Now();
      stop := Refine(ce);
      RefiningRuns(ref, cfg, x, Now(), ce);
    }

    /** One round: it stops the run, or S grows. */
    method Round() returns (stop: bool)
      requires Running() && (cfg.perfectEq || ref.k >= 1)
      modifies this`S, this`E, this`row, this`H, this`st, orc, orc.sul, orc.cache
      ensures if stop then Stopped() else Running() && |S| > |old(S)|
    {
      Open();
      var ce := Challenge();
      stop := true;
      if ce.Some? {
        stop := Advance(ce.value);
      }
    }

    /** Builds the hypothesis again, which after termination gives the same one. */
    method Rebuild()
      requires Stopped()
      modifies this`H, this`st
      ensures orc.Serves(ref) && H.n == |S| && H.k == ref.k && st == old(st) && (st.terminated ==> H == old(H))
    {
      ghost var h0 := H;
      BuildHyp();
      if st.terminated {
        ReadOffUnique(ref, S, E, h0, H);
      }
    }

    /** Records the outcome of the run. */
    method Conclude()
      requires Stopped()
      modifies this`H, this`st
      ensures Stopped() && st.finalStates == |S| && H.n == |S| && H.k == ref.k
      ensures st.correct <==> st.terminated && Alike(H, 0, ref, 0)
    {
      ghost var x := Now();
      Rebuild();
      var correct := false;
      if st.terminated {
        var r := EqPerfect(H, ref);
        correct := r.None?;
      }
      st := st.(finalStates := |S|, correct := correct);
      ReportStops(ref, cfg, x, Now());
    }

    /** The first fill. */
    method Begin()
      requires Valid() && S == [[]] && |E| == ref.k && st == NoStats()
      modifies this`row, this`start, orc, orc.sul, orc.cache
      ensures Running() && start == old(orc.mq)
    {
      start := orc.mq;
      FillAll(0, 0);
      BeginsRunning(ref, cfg, Now());
    }

    /** Round after round until the run has ended. */
    method Rounds()
      requires Running() && (cfg.perfectEq || ref.k >= 1)
      modifies this`S, this`E, this`row, this`H, this`st, orc, orc.sul, orc.cache
      ensures Stopped()
    {
      var stop := false;
      while !stop
        invariant if stop then Stopped() else Running()
        decreases if stop then 0 else 1, Target(ref) - |S|
      {
        stop := Round();
        DistinctBound(ref, S, E);
      }
    }

    /** The whole run over a deterministic system. No detector is ever raised and no
        contradiction ever seen. The run ends by a cap or with a hypothesis read off a closed
        table; with the exact oracle, or within the W-method's budget, that hypothesis then
        agrees with the system on every word and has exactly as many states as the system has
        distinguishable reachable ones. With the exact oracle the queries are bounded, so with
        caps at the bounds the run always ends with that hypothesis; and no round begins above a
        cap. */
    method Learn()
      requires Valid() && S == [[]] && |E| == ref.k && st == NoStats()
      requires cfg.perfectEq || ref.k >= 1
      modifies this, orc, orc.sul, orc.cache
      ensures Stopped() && orc.Silent() && H.n == |S| && H.k == ref.k
      ensures st.finalStates == |S| <= Target(ref)
      ensures st.terminated && Conclusive(ref, cfg, S, H) ==> Alike(H, 0, ref, 0) && |S| == Target(ref)
      ensures st.correct <==> st.terminated && Alike(H, 0, ref, 0)
      ensures cfg.maxStates >= Target(ref) && cfg.maxRounds >= Target(ref) ==> st.terminated || orc.mq > cfg.maxMq
      ensures cfg.perfectEq ==> orc.mq <= old(orc.mq) + QueryBound(ref)
      ensures cfg.perfectEq && AmpleCaps(ref, cfg, old(orc.mq)) ==> st.terminated && st.correct
      ensures if st.terminated then |S| <= cfg.maxStates && st.rounds <= cfg.maxRounds + 1 && (cfg.perfectEq ==> orc.mq <= cfg.maxMq)
              else |S| > cfg.maxStates || st.rounds > cfg.maxRounds || orc.mq > cfg.maxMq
      ensures st.rounds <= |S| && (st.rounds == 0 || st.rounds <= cfg.maxRounds + 1)
    {
      Begin();
      Rounds();
      Conclude();
      StoppedMeans(ref, cfg, Now());
    }
  }

  /** A non-empty word of at most 60 symbols, by chance. */
  method SomeWalk(k: nat) returns (w: Word)
    requires k >= 1
    ensures Over(k, w) && 1 <= |w| <= 60
  {
    var a: int :| 0 <= a < k;
    w := [a];
    var more: bool := *;
    while more && |w| < 60
      invariant Over(k, w) && 1 <= |w| <= 60
      decreases 60 - |w|
    {
      var b: int :| 0 <= b < k;
      w := w + [b];
      more := *;
    }
  }
}
