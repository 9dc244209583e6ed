/** Worked examples of the derivation, one per documented case. Each log is passed as
    a parameter fixed by the precondition, so that the proof steps through the
    grouping one entry at a time. */
module CycleExamples {
  import opened JsMap
  import opened Sequences
  import opened Records
  import opened CycleDerivation

  /** A log of user 1 on `day`, with the given flow and no annotations. */
  function LogOn(id: nat, day: Day, flow: Option<string>): PeriodLog {
    PeriodLog(id, 1, day, flow, None, None, None)
  }

  /** `x`, at most two days after the last entry of `s`, joins the last run. */
  lemma RunsJoin(s: seq<PeriodLog>, x: PeriodLog, t: seq<PeriodLog>,
                 runs: seq<seq<PeriodLog>>, run: seq<PeriodLog>, runs': seq<seq<PeriodLog>>)
    requires s != [] && t == s + [x] && Runs(s) == runs + [run]
    requires x.date - Last(s).date <= 2 && runs' == runs + [run + [x]]
    ensures Runs(t) == runs'
  {
    RunsSnoc(s, x);
    assert (runs + [run])[..|runs|] == runs;
  }

  /** `x`, more than two days after the last entry of `s`, opens a new run. */
  lemma RunsOpen(s: seq<PeriodLog>, x: PeriodLog, t: seq<PeriodLog>,
                 runs: seq<seq<PeriodLog>>, runs': seq<seq<PeriodLog>>)
    requires s != [] && t == s + [x] && Runs(s) == runs
    requires x.date - Last(s).date > 2 && runs' == runs + [[x]]
    ensures Runs(t) == runs'
  {
    RunsSnoc(s, x);
  }

  /** When the qualifying logs are `s` and already in date order, they are grouped as
      they stand. */
  lemma DeriveOfQualifying(logs: seq<PeriodLog>, s: seq<PeriodLog>, userId: int)
    requires QualifyingLogs(logs, userId) == s && SortedBy(s, DateOf)
    ensures Derive(logs, userId) == CyclesFor(userId, Runs(s))
  {
    SortByOfSorted(s, DateOf);
  }

  /** Entries on days 0, 1 and 3 (gaps of one and two days) form a single period. */
  lemma GapOfTwoMerges(a: PeriodLog, b: PeriodLog, c: PeriodLog)
    requires a == LogOn(1, 0, Some("light")) && b == LogOn(2, 1, Some("light"))
    requires c == LogOn(3, 3, Some("light"))
    ensures Derive([a, b, c], 1) == [NewCycle(1, 0, 3, 3, None)]
  {
    DeriveOfOrderedLogs([a, b, c], 1);
    RunsJoin([a], b, [a, b], [], [a], [[a, b]]);
    RunsJoin([a, b], c, [a, b, c], [], [a, b], [[a, b, c]]);
  }

  /** Entries on days 0, 1 and 4 form two periods, {0, 1} and {4}. */
  lemma GapOfThreeSplits(a: PeriodLog, b: PeriodLog, c: PeriodLog)
    requires a == LogOn(1, 0, Some("light")) && b == LogOn(2, 1, Some("light"))
    requires c == LogOn(3, 4, Some("light"))
    ensures Derive([a, b, c], 1) == [NewCycle(1, 0, 1, 2, Some(4)), NewCycle(1, 4, 4, 1, None)]
  {
    DeriveOfOrderedLogs([a, b, c], 1);
    RunsJoin([a], b, [a, b], [], [a], [[a, b]]);
    RunsOpen([a, b], c, [a, b, c], [[a, b]], [[a, b], [c]]);
  }

  /** Heavy, medium and light flow on days 0 to 2, heavy again on day 28: two cycles,
      the first 28 days long. */
  lemma TwoPeriods(a: PeriodLog, b: PeriodLog, c: PeriodLog, d: PeriodLog)
    requires a == LogOn(1, 0, Some("heavy")) && b == LogOn(2, 1, Some("medium"))
    requires c == LogOn(3, 2, Some("light")) && d == LogOn(4, 28, Some("heavy"))
    ensures Derive([a, b, c, d], 1) == [NewCycle(1, 0, 2, 3, Some(28)), NewCycle(1, 28, 28, 1, None)]
  {
    DeriveOfOrderedLogs([a, b, c, d], 1);
    RunsJoin([a], b, [a, b], [], [a], [[a, b]]);
    RunsJoin([a, b], c, [a, b, c], [], [a, b], [[a, b, c]]);
    RunsOpen([a, b, c], d, [a, b, c, d], [[a, b, c]], [[a, b, c], [d]]);
  }

  /** A log with flow "none" between two flowing days is skipped: the two flowing
      days, two apart, still form one period of length 2. */
  lemma NoneFlowSkipped(a: PeriodLog, b: PeriodLog, c: PeriodLog)
    requires a == LogOn(1, 5, Some("light")) && b == LogOn(2, 6, Some("none"))
    requires c == LogOn(3, 7, Some("light"))
    ensures Derive([a, b, c], 1) == [NewCycle(1, 5, 7, 2, None)]
  {
    OnlyFlowingQualify(a, b, c);
    DeriveOfQualifying([a, b, c], [a, c], 1);
    RunsJoin([a], c, [a, c], [], [a], [[a, c]]);
    assert CyclesFor(1, [[a, c]])[0] == CycleFor(1, [[a, c]], 0) == NewCycle(1, 5, 7, 2, None);
  }

  lemma OnlyFlowingQualify(a: PeriodLog, b: PeriodLog, c: PeriodLog)
    requires Qualifies(a, 1) && !Qualifies(b, 1) && Qualifies(c, 1)
    ensures QualifyingLogs([a, b, c], 1) == [a, c]
  {
    var p := (l: PeriodLog) => Qualifies(l, 1);
    FilterCons(a, [b, c], p);
    FilterCons(b, [c], p);
    FilterCons(c, [], p);
    assert [a] + [b, c] == [a, b, c] && [b] + [c] == [b, c] && [c] + [] == [c];
  }

  /** Logs with flow "none", no flow, an empty flow, or of another user derive nothing. */
  lemma NothingQualifies(a: PeriodLog, b: PeriodLog, c: PeriodLog, d: PeriodLog)
    requires a == LogOn(1, 0, Some("none")) && b == LogOn(2, 1, None)
    requires c == LogOn(3, 2, Some("")) && d == PeriodLog(4, 2, 3, Some("heavy"), None, None, None)
    ensures Derive([a, b, c, d], 1) == []
  {
    var p := (l: PeriodLog) => Qualifies(l, 1);
    assert Filter([d], p) == [];
    assert Filter([c, d], p) == [];
    assert Filter([b, c, d], p) == [];
  }
}
