/** A run of the learner in values: its configuration and report, what holds while it goes on and
    when it has ended, and the steps from one to the other. */
module Runs {
  import opened Machines
  import opened WMethod
  import opened Observation
  import opened Tables
  import opened Queries

  datatype Config = Config(
    plan: Plan,
    perfectEq: bool,
    randomWalkEq: bool,
    rwTests: nat,
    trimCE: bool,
    maxStates: int,
    maxRounds: int,
    maxMq: int)

  /** What a run reports. The detectors: D2 a bad first output or an empty suffix, D3 no new
      state, D4 a repeated row, D5 a cap, D6 a suffix already there. */
  datatype Stats = Stats(
    rounds: nat,
    finalStates: nat,
    terminated: bool,
    correct: bool,
    d2: nat,
    d3: nat,
    d4: nat,
    d5: nat,
    d6: nat)
  {
    predicate Quiet() {
      d2 == d3 == d4 == d6 == 0
    }
  }

  function NoStats(): Stats {
    Stats(0, 0, false, false, 0, 0, 0, 0, 0)
  }

  /** The detector a verdict raises: D2 for a bad first output or an empty suffix, D6 for a
      suffix already there. */
  function Counted(st: Stats, v: Verdict): Stats {
    match v
    case BadOutput => st.(d2 := st.d2 + 1)
    case Duplicate => st.(d6 := st.d6 + 1)
    case Fresh => st
  }

  /** The learner at one moment: table, hypothesis, report, and the queries asked by the start of
      the run and by now. */
  datatype Moment = Moment(S: seq<Word>, E: seq<Word>, row: Rows, H: Mealy, st: Stats, start: nat, mq: nat)

  /** No counterexample is proof of equivalence under this configuration. */
  ghost predicate Conclusive(m: Mealy, cfg: Config, S: seq<Word>, H: Mealy) {
    cfg.perfectEq || (!cfg.randomWalkEq && WithinBudget(m, S, H, cfg.plan))
  }

  ghost predicate CapExceeded(cfg: Config, x: Moment) {
    |x.S| > cfg.maxStates || x.st.rounds > cfg.maxRounds || x.mq > cfg.maxMq
  }

  /** Rounds begin only up to the cap. */
  function RoundCap(cfg: Config): nat {
    if cfg.maxRounds < 0 then 0 else cfg.maxRounds + 1
  }

  /** Each counted round began below the caps on states and rounds, and with the exact oracle below
      that on queries. */
  ghost predicate WithinCaps(cfg: Config, x: Moment) {
    |x.S| <= cfg.maxStates && x.st.rounds <= cfg.maxRounds + 1 && (cfg.perfectEq ==> x.mq <= cfg.maxMq)
  }

  /** With the exact oracle the queries stay within what access words and rounds may cost. */
  ghost predicate InBudget(m: Mealy, cfg: Config, x: Moment) {
    |x.E| <= m.k + x.st.rounds && (cfg.perfectEq ==> x.mq <= x.start + Spend(m, |x.S|, x.st.rounds))
  }

  /** The run goes on: no detector raised, no cap hit. */
  ghost predicate RunningAt(m: Mealy, cfg: Config, x: Moment) {
    && ReadyTable(m, x.S, x.E, x.row) && InBudget(m, cfg, x)
    && x.st.Quiet() && x.st.d5 == 0 && !x.st.terminated && x.st.rounds < |x.S| && x.st.rounds <= RoundCap(cfg)
  }

  /** The run has ended, by a cap or because no counterexample was found. */
  ghost predicate StoppedAt(m: Mealy, cfg: Config, x: Moment) {
    && ReadyTable(m, x.S, x.E, x.row) && InBudget(m, cfg, x) && x.st.Quiet() && x.st.rounds <= |x.S|
    && x.st.rounds <= RoundCap(cfg)
    && if x.st.terminated then x.st.d5 == 0 && Concluded(m, cfg, x) && WithinCaps(cfg, x) else x.st.d5 == 1 && CapExceeded(cfg, x)
  }

  /** The hypothesis is read off a closed table, and if that is conclusive it is right. */
  ghost predicate Concluded(m: Mealy, cfg: Config, x: Moment) {
    && Shape(m.k, x.S, x.E) && TableClosed(m, x.S, x.E) && ReadOff(m, x.S, x.E, x.H)
    && (Conclusive(m, cfg, x.S, x.H) ==> Alike(x.H, 0, m, 0))
  }

  /** The run goes on with a hypothesis for its table, which is closed or above the state cap. */
  ghost predicate OpenedAt(m: Mealy, cfg: Config, x: Moment) {
    && RunningAt(m, cfg, x) && HypothesisFor(m, x.S, x.E, x.H)
    && (TableClosed(m, x.S, x.E) || |x.S| > cfg.maxStates)
  }

  /** A counterexample has been found in the round just counted. */
  ghost predicate FoundAt(m: Mealy, cfg: Config, x: Moment, ce: Word) {
    && ReadyTable(m, x.S, x.E, x.row) && x.st.Quiet() && x.st.d5 == 0 && !x.st.terminated
    && 1 <= x.st.rounds <= |x.S| && |x.E| < m.k + x.st.rounds && WithinCaps(cfg, x)
    && ReadOff(m, x.S, x.E, x.H) && Over(m.k, ce) && Separates(x.H, 0, m, 0, ce)
    && (cfg.perfectEq ==> x.mq <= x.start + Spend(m, |x.S|, x.st.rounds - 1) && |ce| <= Times(|x.S|, m.n))
  }

  /** The caps are at or above the bounds of a run that starts after mq0 queries. */
  ghost predicate AmpleCaps(m: Mealy, cfg: Config, mq0: nat) {
    cfg.maxStates >= Target(m) && cfg.maxRounds >= Target(m) && cfg.maxMq >= mq0 + QueryBound(m)
  }

  lemma BeginsRunning(m: Mealy, cfg: Config, x: Moment)
    requires ReadyTable(m, x.S, x.E, x.row) && |x.S| == 1 && |x.E| == m.k && x.st == NoStats()
    requires Within(x.start, x.mq, 0, 1, RowCost(m.k, |x.E|))
    ensures RunningAt(m, cfg, x)
  {
    SpendClose(m, x.start, x.start, x.mq, 0, 1, 0, |x.E|);
  }

  /** Closing the table goes on with the run. */
  lemma ClosingRuns(m: Mealy, cfg: Config, x: Moment, y: Moment)
    requires RunningAt(m, cfg, x) && ReadyTable(m, y.S, y.E, y.row)
    requires y.E == x.E && y.st == x.st && y.start == x.start && Within(x.mq, y.mq, |x.S|, |y.S|, RowCost(m.k, |x.E|))
    ensures RunningAt(m, cfg, y)
  {
    DistinctBound(m, y.S, y.E);
    if cfg.perfectEq {
      SpendClose(m, x.start, x.mq, y.mq, |x.S|, |y.S|, x.st.rounds, |x.E|);
    }
  }

  lemma CapStops(m: Mealy, cfg: Config, x: Moment)
    requires RunningAt(m, cfg, x) && CapExceeded(cfg, x)
    ensures StoppedAt(m, cfg, x.(st := x.st.(d5 := x.st.d5 + 1)))
  {
  }

  /** The round asked: y is x with the round counted and the oracle's queries. */
  ghost predicate Asked(cfg: Config, x: Moment, y: Moment) {
    y == x.(st := x.st.(rounds := x.st.rounds + 1), mq := y.mq) && (cfg.perfectEq ==> y.mq == x.mq)
  }

  lemma NoneStops(m: Mealy, cfg: Config, x: Moment, y: Moment)
    requires RunningAt(m, cfg, x) && !CapExceeded(cfg, x) && Asked(cfg, x, y) && Concluded(m, cfg, y)
    ensures StoppedAt(m, cfg, y.(st := y.st.(terminated := true)))
  {
    SpendGrows(m, |x.S|, x.st.rounds, |x.S|, x.st.rounds + 1);
  }

  lemma SomeFound(m: Mealy, cfg: Config, x: Moment, y: Moment, ce: Word)
    requires RunningAt(m, cfg, x) && !CapExceeded(cfg, x) && Asked(cfg, x, y) && ReadOff(m, x.S, x.E, x.H)
    requires Over(m.k, ce) && Separates(x.H, 0, m, 0, ce) && (cfg.perfectEq ==> |ce| <= Times(|x.S|, m.n))
    ensures FoundAt(m, cfg, y, ce)
  {
  }

  /** Refining goes on with the run, with more access words. */
  lemma RefiningRuns(m: Mealy, cfg: Config, x: Moment, y: Moment, ce: Word)
    requires FoundAt(m, cfg, x, ce) && ReadyTable(m, y.S, y.E, y.row) && y.st == x.st && y.start == x.start
    requires |y.S| > |x.S| && |y.E| == |x.E| + 1 && Repaired(m.k, x.mq, y.mq, |x.S|, |y.S|, |y.E|, |ce|)
    ensures RunningAt(m, cfg, y)
  {
    DistinctBound(m, x.S, x.E);
    DistinctBound(m, y.S, y.E);
    if cfg.perfectEq {
      SpendRound(m, x.start, x.mq, y.mq, |x.S|, |y.S|, x.st.rounds - 1, |y.E|, |ce|);
    }
  }

  /** Reporting changes neither outcome nor budget. */
  lemma ReportStops(m: Mealy, cfg: Config, x: Moment, y: Moment)
    requires StoppedAt(m, cfg, x) && y == x.(H := y.H, st := x.st.(finalStates := y.st.finalStates, correct := y.st.correct))
    requires x.st.terminated ==> y.H == x.H
    ensures StoppedAt(m, cfg, y)
  {
  }

  /** What the end of a run means: the size is bounded, a conclusive end is right and minimal, and
      with the exact oracle the queries are bounded, so that ample caps are never hit. */
  lemma StoppedMeans(m: Mealy, cfg: Config, x: Moment)
    requires StoppedAt(m, cfg, x) && x.H.n == |x.S| && x.H.k == m.k
    ensures |x.S| <= Target(m)
    ensures x.st.terminated && Conclusive(m, cfg, x.S, x.H) ==> Alike(x.H, 0, m, 0) && |x.S| == Target(m)
    ensures cfg.maxStates >= Target(m) && cfg.maxRounds >= Target(m) ==> x.st.terminated || x.mq > cfg.maxMq
    ensures cfg.perfectEq ==> x.mq <= x.start + QueryBound(m)
    ensures cfg.perfectEq && AmpleCaps(m, cfg, x.start) ==> x.st.terminated
    ensures if x.st.terminated then |x.S| <= cfg.maxStates && x.st.rounds <= cfg.maxRounds + 1 && (cfg.perfectEq ==> x.mq <= cfg.maxMq)
            else |x.S| > cfg.maxStates || x.st.rounds > cfg.maxRounds || x.mq > cfg.maxMq
    ensures x.st.rounds <= |x.S| && (x.st.rounds == 0 || x.st.rounds <= cfg.maxRounds + 1)
  {
    DistinctBound(m, x.S, x.E);
    SpendGrows(m, |x.S|, x.st.rounds, Target(m), Target(m));
    if x.st.terminated && Conclusive(m, cfg, x.S, x.H) {
      EquivalentIsMinimal(m, x.S, x.E, x.H);
    }
  }
}
