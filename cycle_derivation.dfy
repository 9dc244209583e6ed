/** How `MemStorage.updateCyclesFromPeriodLogs` turns one user's period logs into
    cycles: keep the logs with a real flow, sort them by date, cut them into runs of
    entries at most two days apart, and make one cycle per run. */
module CycleDerivation {
  import opened JsMap
  import opened Sequences
  import opened Records

  /** `log.userId === userId && log.flow && log.flow !== 'none'`: a missing or empty
      flow is falsy, so only a non-empty flow other than "none" counts. */
  predicate Qualifies(l: PeriodLog, userId: int) {
    l.userId == userId && l.flow.Some? && l.flow.value != "" && l.flow.value != "none"
  }

  function QualifyingLogs(logs: seq<PeriodLog>, userId: int): (r: seq<PeriodLog>)
    ensures forall l :: l in r <==> l in logs && Qualifies(l, userId)
  {
    FilterMembers(logs, (l: PeriodLog) => Qualifies(l, userId));
    Filter(logs, (l: PeriodLog) => Qualifies(l, userId))
  }

  function DateOf(l: PeriodLog): Day {
    l.date
  }

  /** The qualifying logs, ascending by date; logs of one day keep their map order. */
  function SortedQualifyingLogs(logs: seq<PeriodLog>, userId: int): (r: seq<PeriodLog>)
    ensures SortedBy(r, DateOf)
    ensures multiset(r) == multiset(QualifyingLogs(logs, userId))
  {
    SortBy(QualifyingLogs(logs, userId), DateOf)
  }

  function Last<T>(s: seq<T>): T
    requires s != []
  {
    s[|s| - 1]
  }

  function Flatten<T>(runs: seq<seq<T>>): seq<T> {
    if runs == [] then [] else Flatten(runs[..|runs| - 1]) + Last(runs)
  }

  predicate AllNonEmpty<T>(runs: seq<seq<T>>) {
    forall k :: 0 <= k < |runs| ==> runs[k] != []
  }

  /** The grouping of the sorted logs, built up one entry at a time as the source's
      loop does: an entry at most two days after its predecessor joins the current
      run, any other entry opens a new one. */
  function Runs(s: seq<PeriodLog>): (runs: seq<seq<PeriodLog>>)
    ensures (runs == []) == (s == [])
    ensures AllNonEmpty(runs)
    decreases |s|
  {
    if |s| <= 1 then (if s == [] then [] else [s])
    else
      var prev := Runs(s[..|s| - 1]);
      var x := s[|s| - 1];
      if x.date - s[|s| - 2].date <= 2 then prev[..|prev| - 1] + [Last(prev) + [x]]
      else prev + [[x]]
  }

  /** Logs that all qualify and are already in date order are grouped as they stand. */
  lemma DeriveOfOrderedLogs(s: seq<PeriodLog>, userId: int)
    requires forall l :: l in s ==> Qualifies(l, userId)
    requires SortedBy(s, DateOf)
    ensures Derive(s, userId) == CyclesFor(userId, Runs(s))
  {
    FilterAll(s, (l: PeriodLog) => Qualifies(l, userId));
    SortByOfSorted(s, DateOf);
  }

  /** One more entry after `s`: it joins the last run or opens a new one. */
  lemma RunsSnoc(s: seq<PeriodLog>, x: PeriodLog)
    requires s != []
    ensures var prev := Runs(s);
      Runs(s + [x]) == if x.date - Last(s).date <= 2 then prev[..|prev| - 1] + [Last(prev) + [x]]
                       else prev + [[x]]
  {
    assert (s + [x])[..|s|] == s;
  }

  /** `runs` cut `s` into consecutive non-empty pieces such that two neighbouring
      entries of `s` share a piece exactly when the later one is at most two days
      after the earlier. */
  predicate IsRunPartition(runs: seq<seq<PeriodLog>>, s: seq<PeriodLog>) {
    && AllNonEmpty(runs)
    && Flatten(runs) == s
    && (forall k :: 0 <= k < |runs| ==> Tight(runs[k]))
    && (forall k :: 0 < k < |runs| ==> runs[k][0].date - Last(runs[k - 1]).date > 2)
  }

  /** Neighbouring entries of `run` are at most two days apart. */
  predicate Tight(run: seq<PeriodLog>) {
    forall j :: 0 < j < |run| ==> run[j].date - run[j - 1].date <= 2
  }

  lemma FlattenAppend<T>(runs: seq<seq<T>>, r: seq<T>)
    ensures Flatten(runs + [r]) == Flatten(runs) + r
  {
    assert (runs + [r])[..|runs|] == runs;
  }

  lemma FlattenLast<T>(runs: seq<seq<T>>)
    requires runs != [] && AllNonEmpty(runs)
    ensures Flatten(runs) != [] && Last(Flatten(runs)) == Last(Last(runs))
  {
  }

  lemma {:induction false} FlattenLength<T>(runs: seq<seq<T>>)
    requires AllNonEmpty(runs)
    ensures |Flatten(runs)| >= |runs|
  {
    if runs != [] {
      FlattenLength(runs[..|runs| - 1]);
    }
  }

  /** An entry at most two days after the last one extends the last run. */
  lemma ExtendLastRun(runs: seq<seq<PeriodLog>>, s: seq<PeriodLog>, x: PeriodLog)
    requires IsRunPartition(runs, s) && s != []
    requires x.date - Last(s).date <= 2
    ensures IsRunPartition(runs[..|runs| - 1] + [Last(runs) + [x]], s + [x])
  {
    var m := |runs|;
    var init := runs[..m - 1];
    var L := Last(runs);
    var L' := L + [x];
    var runs': seq<seq<PeriodLog>> := init + [L'];
    assert runs == init + [L];
    FlattenLast(runs);
    FlattenAppend(init, L);
    FlattenAppend(init, L');
    assert Flatten(runs') == s + [x];
    forall k | 0 <= k < |runs'|
      ensures runs'[k] != []
    {
      if k < m - 1 {
        assert runs'[k] == runs[k];
      }
    }
    assert Tight(L') by {
      assert Tight(runs[m - 1]) && runs[m - 1] == L;
      forall j | 0 < j < |L'|
        ensures L'[j].date - L'[j - 1].date <= 2
      {
        if j < |L| {
          assert L'[j] == L[j] && L'[j - 1] == L[j - 1];
        }
      }
    }
    forall k | 0 <= k < |runs'|
      ensures Tight(runs'[k])
    {
      if k < m - 1 {
        assert runs'[k] == runs[k];
      }
    }
    forall k | 0 < k < |runs'|
      ensures runs'[k][0].date - Last(runs'[k - 1]).date > 2
    {
      assert runs'[k - 1] == runs[k - 1];
      if k < m - 1 {
        assert runs'[k] == runs[k];
      } else {
        assert runs'[k][0] == L[0] && runs[k] == L;
      }
    }
  }

  /** An entry more than two days after the last one opens a new run. */
  lemma OpenRun(runs: seq<seq<PeriodLog>>, s: seq<PeriodLog>, x: PeriodLog)
    requires IsRunPartition(runs, s) && s != []
    requires x.date - Last(s).date > 2
    ensures IsRunPartition(runs + [[x]], s + [x])
  {
    var runs': seq<seq<PeriodLog>> := runs + [[x]];
    FlattenLast(runs);
    FlattenAppend(runs, [x]);
    forall k, j | 0 <= k < |runs'| && 0 < j < |runs'[k]|
      ensures runs'[k][j].date - runs'[k][j - 1].date <= 2
    {
      assert runs'[k] == runs[k];
    }
    forall k | 0 < k < |runs'|
      ensures runs'[k][0].date - Last(runs'[k - 1]).date > 2
    {
      if k < |runs'| - 1 {
        assert runs'[k] == runs[k] && runs'[k - 1] == runs[k - 1];
      }
    }
  }

  /** The grouping is a run partition of its input. */
  lemma {:induction false} RunsPartition(s: seq<PeriodLog>)
    ensures IsRunPartition(Runs(s), s)
    decreases |s|
  {
    if |s| == 1 {
      assert Flatten([s]) == Flatten([]) + s;
    } else if |s| > 1 {
      var s' := s[..|s| - 1];
      RunsPartition(s');
      assert s == s' + [s[|s| - 1]];
      if s[|s| - 1].date - s[|s| - 2].date <= 2 {
        ExtendLastRun(Runs(s'), s', s[|s| - 1]);
      } else {
        OpenRun(Runs(s'), s', s[|s| - 1]);
      }
    }
  }

  /** Removing the last entry of a run partition whose last run has several entries. */
  lemma ShrinkLastRun(runs: seq<seq<PeriodLog>>, s: seq<PeriodLog>)
    requires IsRunPartition(runs, s) && runs != [] && |Last(runs)| >= 2
    ensures |s| >= 2 && s[|s| - 1].date - s[|s| - 2].date <= 2
    ensures var runs' := runs[..|runs| - 1] + [Last(runs)[..|Last(runs)| - 1]];
      && IsRunPartition(runs', s[..|s| - 1])
      && runs == runs'[..|runs'| - 1] + [Last(runs') + [s[|s| - 1]]]
  {
    var m := |runs|;
    var init := runs[..m - 1];
    var L := Last(runs);
    var L' := L[..|L| - 1];
    var runs': seq<seq<PeriodLog>> := init + [L'];
    assert runs == init + [L];
    FlattenAppend(init, L);
    FlattenAppend(init, L');
    assert L == L' + [L[|L| - 1]];
    assert s == Flatten(runs') + [L[|L| - 1]];
    assert s[..|s| - 1] == Flatten(runs');
    assert s[|s| - 2] == L[|L| - 2];
    assert forall k :: 0 <= k < m - 1 ==> runs'[k] == runs[k];
    assert runs'[m - 1] == L';
    assert runs'[..m - 1] == init;
  }

  /** Removing the last entry of a run partition whose last run has only that entry. */
  lemma DropLastRun(runs: seq<seq<PeriodLog>>, s: seq<PeriodLog>)
    requires IsRunPartition(runs, s) && runs != [] && |Last(runs)| == 1 && |s| >= 2
    ensures s[|s| - 1].date - s[|s| - 2].date > 2
    ensures IsRunPartition(runs[..|runs| - 1], s[..|s| - 1])
    ensures runs == runs[..|runs| - 1] + [[s[|s| - 1]]]
  {
    var m := |runs|;
    var init := runs[..m - 1];
    var L := Last(runs);
    assert runs == init + [L];
    FlattenAppend(init, L);
    assert s == Flatten(init) + L;
    assert init != [];
    FlattenLast(init);
    assert L == [s[|s| - 1]];
    assert s[..|s| - 1] == Flatten(init);
    assert Last(runs[m - 2]) == s[|s| - 2];
    assert forall k :: 0 <= k < m - 1 ==> init[k] == runs[k];
  }

  /** No other run partition exists: the grouping is determined by the gaps alone. */
  lemma {:induction false} RunsUnique(runs: seq<seq<PeriodLog>>, s: seq<PeriodLog>)
    requires IsRunPartition(runs, s)
    ensures runs == Runs(s)
    decreases |s|
  {
    FlattenLength(runs);
    if s == [] {
      assert runs == [];
    } else if |s| == 1 {
      assert Flatten(runs) == Flatten(runs[..|runs| - 1]) + Last(runs);
      assert |runs| == 1;
      assert runs[..0] == [];
      assert runs[0] == s;
      assert runs == [runs[0]];
    } else if |Last(runs)| >= 2 {
      ShrinkLastRun(runs, s);
      RunsUnique(runs[..|runs| - 1] + [Last(runs)[..|Last(runs)| - 1]], s[..|s| - 1]);
    } else {
      DropLastRun(runs, s);
      RunsUnique(runs[..|runs| - 1], s[..|s| - 1]);
    }
  }

  /** server/storage.ts:243-264: the `for` loop that groups the sorted logs. The source only
      reaches it with at least one log. */
  method GroupIntoRuns(logs: seq<PeriodLog>) returns (cycleLogs: seq<seq<PeriodLog>>)
    requires logs != []
    ensures cycleLogs == Runs(logs)
  {
    cycleLogs := [];
    var currentCycleLogs := [logs[0]];
    assert logs[..1] == [logs[0]];
    for i := 1 to |logs|
      invariant currentCycleLogs != []
      invariant cycleLogs + [currentCycleLogs] == Runs(logs[..i])
    {
      assert logs[..i + 1][..i] == logs[..i];
      var runs := cycleLogs + [currentCycleLogs];
      assert runs[..|runs| - 1] == cycleLogs;
      if logs[i].date - logs[i - 1].date <= 2 {
        currentCycleLogs := currentCycleLogs + [logs[i]];
      } else {
        cycleLogs := cycleLogs + [currentCycleLogs];
        currentCycleLogs := [logs[i]];
      }
    }
    if |currentCycleLogs| > 0 {
      cycleLogs := cycleLogs + [currentCycleLogs];
    }
    assert logs[..|logs|] == logs;
  }

  /** server/storage.ts:272-283: the cycle made from run `k`. */
  function CycleFor(userId: int, runs: seq<seq<PeriodLog>>, k: nat): NewCycle
    requires k < |runs| && AllNonEmpty(runs)
  {
    var run := runs[k];
    NewCycle(userId, run[0].date, Last(run).date, |run|,
             if k < |runs| - 1 then Some(runs[k + 1][0].date - run[0].date) else None)
  }

  function CyclesFor(userId: int, runs: seq<seq<PeriodLog>>): (cs: seq<NewCycle>)
    requires AllNonEmpty(runs)
    ensures |cs| == |runs|
    ensures forall k :: 0 <= k < |cs| ==> cs[k] == CycleFor(userId, runs, k)
  {
    seq(|runs|, k requires 0 <= k < |runs| => CycleFor(userId, runs, k))
  }

  /** The cycles `updateCyclesFromPeriodLogs(userId)` creates, in creation order, from
      the stored logs in map order. Empty exactly when the source returns early. */
  function Derive(logs: seq<PeriodLog>, userId: int): seq<NewCycle> {
    CyclesFor(userId, Runs(SortedQualifyingLogs(logs, userId)))
  }
}

/** What the derived cycles promise. */
module CycleProperties {
  import opened JsMap
  import opened Sequences
  import opened Records
  import opened CycleDerivation

  lemma {:induction false} FlattenMember<T>(runs: seq<seq<T>>, x: T)
    ensures x in Flatten(runs) <==> exists k :: 0 <= k < |runs| && x in runs[k]
  {
    if runs != [] {
      var init := runs[..|runs| - 1];
      FlattenMember(init, x);
      assert forall k :: 0 <= k < |init| ==> init[k] == runs[k];
    }
  }

  predicate RunsSorted(runs: seq<seq<PeriodLog>>) {
    forall k :: 0 <= k < |runs| ==> SortedBy(runs[k], DateOf)
  }

  /** Cutting a date-sorted sequence gives date-sorted runs. */
  lemma {:induction false} SortedRuns(runs: seq<seq<PeriodLog>>)
    requires SortedBy(Flatten(runs), DateOf)
    ensures RunsSorted(runs)
  {
    if runs != [] {
      var m := |runs|;
      var init := runs[..m - 1];
      var F := Flatten(init);
      var L := runs[m - 1];
      assert Flatten(runs) == F + L;
      assert SortedBy(F, DateOf) by {
        forall p, q | 0 <= p < q < |F| ensures F[p].date <= F[q].date {
          assert (F + L)[p] == F[p] && (F + L)[q] == F[q];
        }
      }
      assert SortedBy(L, DateOf) by {
        forall p, q | 0 <= p < q < |L| ensures L[p].date <= L[q].date {
          assert (F + L)[|F| + p] == L[p] && (F + L)[|F| + q] == L[q];
        }
      }
      SortedRuns(init);
      assert forall k :: 0 <= k < m - 1 ==> init[k] == runs[k];
    }
  }

  lemma FirstNotAfterLast(run: seq<PeriodLog>)
    requires SortedBy(run, DateOf) && run != []
    ensures run[0].date <= Last(run).date
  {
    if |run| > 1 {
      assert DateOf(run[0]) <= DateOf(run[|run| - 1]);
    }
  }

  /** In a partition into date-sorted runs, a run ends more than two days before any
      later run starts. */
  lemma {:induction false} RunsApart(runs: seq<seq<PeriodLog>>, s: seq<PeriodLog>, k1: nat, k2: nat)
    requires IsRunPartition(runs, s) && RunsSorted(runs) && k1 < k2 < |runs|
    ensures Last(runs[k1]).date + 2 < runs[k2][0].date
    decreases k2 - k1
  {
    if k2 > k1 + 1 {
      RunsApart(runs, s, k1, k2 - 1);
      FirstNotAfterLast(runs[k2 - 1]);
    }
  }

  /** The number of log days the cycles account for. */
  function TotalPeriodLength(cs: seq<NewCycle>): int {
    if cs == [] then 0 else TotalPeriodLength(cs[..|cs| - 1]) + cs[|cs| - 1].periodLength
  }

  lemma {:induction false} TotalPeriodLengthPrefix(userId: int, runs: seq<seq<PeriodLog>>, k: nat)
    requires AllNonEmpty(runs) && k <= |runs|
    ensures TotalPeriodLength(CyclesFor(userId, runs)[..k]) == |Flatten(runs[..k])|
  {
    if k > 0 {
      TotalPeriodLengthPrefix(userId, runs, k - 1);
      var cs := CyclesFor(userId, runs);
      assert cs[..k][..k - 1] == cs[..k - 1];
      assert runs[..k][..k - 1] == runs[..k - 1];
    }
  }

  /** Each cycle made from a run partition of date-sorted logs belongs to the user,
      starts on its run's first date and ends on its last, so no later than it ends,
      and counts the run's logs, so at least one. */
  lemma CycleFields(userId: int, runs: seq<seq<PeriodLog>>, s: seq<PeriodLog>)
    requires IsRunPartition(runs, s) && SortedBy(s, DateOf)
    ensures var cs := CyclesFor(userId, runs);
      && (cs == [] <==> s == [])
      && (forall k :: 0 <= k < |cs| ==>
           cs[k].startDate == runs[k][0].date && cs[k].endDate == Last(runs[k]).date &&
           cs[k].periodLength == |runs[k]|)
      && forall k :: 0 <= k < |cs| ==>
           cs[k].userId == userId && cs[k].startDate <= cs[k].endDate && cs[k].periodLength >= 1
  {
    FlattenLength(runs);
    SortedRuns(runs);
    forall k | 0 <= k < |runs|
      ensures runs[k][0].date <= Last(runs[k]).date
    {
      FirstNotAfterLast(runs[k]);
    }
  }

  /** Every cycle but the last carries the distance from its start to the next start,
      which is more than two days; the last carries none. */
  lemma CycleLengths(userId: int, runs: seq<seq<PeriodLog>>, s: seq<PeriodLog>)
    requires IsRunPartition(runs, s) && SortedBy(s, DateOf)
    ensures var cs := CyclesFor(userId, runs);
      && (forall k :: 0 <= k < |cs| - 1 ==>
            cs[k].cycleLength == Some(cs[k + 1].startDate - cs[k].startDate) && cs[k].cycleLength.value > 2)
      && (cs != [] ==> cs[|cs| - 1].cycleLength == None)
  {
    SortedRuns(runs);
    var cs := CyclesFor(userId, runs);
    forall k | 0 <= k < |cs| - 1
      ensures cs[k].cycleLength == Some(cs[k + 1].startDate - cs[k].startDate) && cs[k].cycleLength.value > 2
    {
      assert cs[k] == CycleFor(userId, runs, k) && cs[k + 1] == CycleFor(userId, runs, k + 1);
      FirstNotAfterLast(runs[k]);
      assert runs[k + 1][0].date - Last(runs[k]).date > 2;
    }
  }

  /** Each cycle ends more than two days before any later cycle starts, so the cycles
      are in chronological order and their date ranges are disjoint. */
  lemma CyclesApart(userId: int, runs: seq<seq<PeriodLog>>, s: seq<PeriodLog>)
    requires IsRunPartition(runs, s) && SortedBy(s, DateOf)
    ensures var cs := CyclesFor(userId, runs);
      forall k1, k2 :: 0 <= k1 < k2 < |cs| ==> cs[k1].endDate + 2 < cs[k2].startDate
  {
    SortedRuns(runs);
    forall k1, k2 | 0 <= k1 < k2 < |runs|
      ensures Last(runs[k1]).date + 2 < runs[k2][0].date
    {
      RunsApart(runs, s, k1, k2);
    }
  }

  /** Every log lies within the dates of some cycle. */
  lemma CyclesCoverLogs(userId: int, runs: seq<seq<PeriodLog>>, s: seq<PeriodLog>)
    requires IsRunPartition(runs, s) && SortedBy(s, DateOf)
    ensures var cs := CyclesFor(userId, runs);
      forall x :: x in s ==> exists k :: 0 <= k < |cs| && cs[k].startDate <= x.date <= cs[k].endDate
  {
    SortedRuns(runs);
    var cs := CyclesFor(userId, runs);
    forall x | x in s
      ensures exists k :: 0 <= k < |cs| && cs[k].startDate <= x.date <= cs[k].endDate
    {
      FlattenMember(runs, x);
      var k :| 0 <= k < |runs| && x in runs[k];
      var i :| 0 <= i < |runs[k]| && runs[k][i] == x;
      assert SortedBy(runs[k], DateOf);
      assert runs[k][0].date <= x.date <= Last(runs[k]).date;
      assert cs[k].startDate <= x.date <= cs[k].endDate;
    }
  }

  /** The period lengths add up to the number of logs: every log is counted once. */
  lemma PeriodLengthsAddUp(userId: int, runs: seq<seq<PeriodLog>>, s: seq<PeriodLog>)
    requires IsRunPartition(runs, s)
    ensures TotalPeriodLength(CyclesFor(userId, runs)) == |s|
  {
    TotalPeriodLengthPrefix(userId, runs, |runs|);
    assert CyclesFor(userId, runs)[..|runs|] == CyclesFor(userId, runs);
    assert runs[..|runs|] == runs;
  }

  /** A user's cycles are all gone exactly when none of the logs qualifies: the source
      then returns before touching the stored cycles. */
  lemma DeriveEmpty(logs: seq<PeriodLog>, userId: int)
    ensures Derive(logs, userId) == [] <==> forall l :: l in logs ==> !Qualifies(l, userId)
  {
    var q := QualifyingLogs(logs, userId);
    var s := SortedQualifyingLogs(logs, userId);
    assert |s| == |multiset(s)| == |multiset(q)| == |q|;
    if q != [] {
      assert q[0] in q;
    }
  }

  /** Each derived cycle belongs to the user, spans at least one logged day, and
      measures its cycle length to the next cycle's start; the last one has none. */
  lemma DerivedCycleFields(logs: seq<PeriodLog>, userId: int)
    ensures var cs := Derive(logs, userId);
      && (forall k :: 0 <= k < |cs| ==>
            cs[k].userId == userId && cs[k].startDate <= cs[k].endDate && cs[k].periodLength >= 1)
      && (forall k :: 0 <= k < |cs| - 1 ==>
            cs[k].cycleLength == Some(cs[k + 1].startDate - cs[k].startDate) && cs[k].cycleLength.value > 2)
      && (cs != [] ==> cs[|cs| - 1].cycleLength == None)
  {
    var s := SortedQualifyingLogs(logs, userId);
    var runs := Runs(s);
    var cs := Derive(logs, userId);
    RunsPartition(s);
    assert forall k :: 0 <= k < |cs| ==>
             cs[k].userId == userId && cs[k].startDate <= cs[k].endDate && cs[k].periodLength >= 1 by {
      CycleFields(userId, runs, s);
    }
    CycleLengths(userId, runs, s);
  }

  /** Derived cycles are in chronological order and more than two days apart. */
  lemma DerivedCyclesApart(logs: seq<PeriodLog>, userId: int)
    ensures var cs := Derive(logs, userId);
      forall k1, k2 :: 0 <= k1 < k2 < |cs| ==> cs[k1].endDate + 2 < cs[k2].startDate
  {
    var s := SortedQualifyingLogs(logs, userId);
    RunsPartition(s);
    CyclesApart(userId, Runs(s), s);
  }

  /** Every qualifying log falls inside a derived cycle. */
  lemma DerivedCyclesCoverLogs(logs: seq<PeriodLog>, userId: int)
    ensures var cs := Derive(logs, userId);
      forall l :: l in logs && Qualifies(l, userId) ==>
        exists k :: 0 <= k < |cs| && cs[k].startDate <= l.date <= cs[k].endDate
  {
    forall l | l in logs && Qualifies(l, userId)
      ensures exists k :: (0 <= k < |Derive(logs, userId)|
        && Derive(logs, userId)[k].startDate <= l.date <= Derive(logs, userId)[k].endDate)
    {
      DerivedCycleCovers(logs, userId, l);
    }
  }

  lemma DerivedCycleCovers(logs: seq<PeriodLog>, userId: int, l: PeriodLog)
    requires l in logs && Qualifies(l, userId)
    ensures var cs := Derive(logs, userId);
      exists k :: 0 <= k < |cs| && cs[k].startDate <= l.date <= cs[k].endDate
  {
    var s := SortedQualifyingLogs(logs, userId);
    var runs := Runs(s);
    RunsPartition(s);
    QualifyingLogSorted(logs, userId, l);
    CyclesCoverLogs(userId, runs, s);
    var cs := CyclesFor(userId, runs);
    var k :| 0 <= k < |cs| && cs[k].startDate <= l.date <= cs[k].endDate;
    assert Derive(logs, userId) == cs;
    assert 0 <= k < |Derive(logs, userId)| && Derive(logs, userId)[k].startDate <= l.date <= Derive(logs, userId)[k].endDate;
  }

  lemma QualifyingLogSorted(logs: seq<PeriodLog>, userId: int, l: PeriodLog)
    requires l in logs && Qualifies(l, userId)
    ensures l in SortedQualifyingLogs(logs, userId)
  {
    assert l in multiset(QualifyingLogs(logs, userId));
  }

  /** The period lengths of the derived cycles count each qualifying log once. */
  lemma DerivedPeriodLengths(logs: seq<PeriodLog>, userId: int)
    ensures TotalPeriodLength(Derive(logs, userId)) == |QualifyingLogs(logs, userId)|
  {
    var s := SortedQualifyingLogs(logs, userId);
    RunsPartition(s);
    PeriodLengthsAddUp(userId, Runs(s), s);
    assert |s| == |multiset(s)| == |multiset(QualifyingLogs(logs, userId))|;
  }

  /** A log that does not qualify (another user's, or without a real flow) has no
      influence on the derived cycles, wherever it sits in the map. */
  lemma NonQualifyingLogIgnored(a: seq<PeriodLog>, x: PeriodLog, b: seq<PeriodLog>, userId: int)
    requires !Qualifies(x, userId)
    ensures Derive(a + [x] + b, userId) == Derive(a + b, userId)
  {
    var p := (l: PeriodLog) => Qualifies(l, userId);
    assert Filter([x], p) == [] by {
      FilterCons(x, [], p);
      assert [x] + [] == [x];
    }
    calc {
      Filter(a + [x] + b, p);
      { FilterConcat(a + [x], b, p); }
      Filter(a + [x], p) + Filter(b, p);
      { FilterConcat(a, [x], p); }
      Filter(a, p) + [] + Filter(b, p);
      { assert Filter(a, p) + [] == Filter(a, p); }
      Filter(a, p) + Filter(b, p);
      { FilterConcat(a, b, p); }
      Filter(a + b, p);
    }
  }

  function RunDates(runs: seq<seq<PeriodLog>>): seq<seq<int>> {
    seq(|runs|, k requires 0 <= k < |runs| => Keys(runs[k], DateOf))
  }

  lemma ExtendDates(ps: seq<seq<PeriodLog>>, pt: seq<seq<PeriodLog>>, x: PeriodLog, y: PeriodLog)
    requires ps != [] && pt != [] && RunDates(ps) == RunDates(pt) && x.date == y.date
    ensures RunDates(ps[..|ps| - 1] + [Last(ps) + [x]]) == RunDates(pt[..|pt| - 1] + [Last(pt) + [y]])
  {
    var m := |ps|;
    assert |pt| == |RunDates(pt)| == m;
    var rs := ps[..m - 1] + [Last(ps) + [x]];
    var rt := pt[..m - 1] + [Last(pt) + [y]];
    forall k | 0 <= k < m
      ensures RunDates(rs)[k] == RunDates(rt)[k]
    {
      if k < m - 1 {
        assert rs[k] == ps[k] && rt[k] == pt[k];
        assert RunDates(ps)[k] == RunDates(pt)[k];
      } else {
        KeysAppend(Last(ps), [x], DateOf);
        KeysAppend(Last(pt), [y], DateOf);
        assert RunDates(ps)[m - 1] == RunDates(pt)[m - 1];
      }
    }
  }

  lemma OpenDates(ps: seq<seq<PeriodLog>>, pt: seq<seq<PeriodLog>>, x: PeriodLog, y: PeriodLog)
    requires RunDates(ps) == RunDates(pt) && x.date == y.date
    ensures RunDates(ps + [[x]]) == RunDates(pt + [[y]])
  {
    var m := |ps|;
    assert |pt| == |RunDates(pt)| == m;
    var rs, rt := ps + [[x]], pt + [[y]];
    forall k | 0 <= k <= m
      ensures RunDates(rs)[k] == RunDates(rt)[k]
    {
      if k < m {
        assert rs[k] == ps[k] && rt[k] == pt[k];
        assert RunDates(ps)[k] == RunDates(pt)[k];
      } else {
        assert Keys(rs[m], DateOf) == [x.date] && Keys(rt[m], DateOf) == [y.date];
      }
    }
  }

  /** One more entry on the same date on both sides keeps the groupings' dates equal. */
  lemma RunsFollowDatesStep(s: seq<PeriodLog>, x: PeriodLog, t: seq<PeriodLog>, y: PeriodLog)
    requires s != [] && t != [] && x.date == y.date && Last(s).date == Last(t).date
    requires RunDates(Runs(s)) == RunDates(Runs(t))
    ensures RunDates(Runs(s + [x])) == RunDates(Runs(t + [y]))
  {
    RunsSnoc(s, x);
    RunsSnoc(t, y);
    var ps, pt := Runs(s), Runs(t);
    if x.date - Last(s).date <= 2 {
      ExtendDates(ps, pt, x, y);
    } else {
      OpenDates(ps, pt, x, y);
    }
  }

  /** The grouping depends on the dates alone. */
  lemma {:induction false} RunsFollowDates(s: seq<PeriodLog>, t: seq<PeriodLog>)
    requires Keys(s, DateOf) == Keys(t, DateOf)
    ensures RunDates(Runs(s)) == RunDates(Runs(t))
    decreases |s|
  {
    var n := |s|;
    assert |t| == |Keys(t, DateOf)| == n;
    if n >= 2 {
      KeysPrefix(s, n - 1, DateOf);
      KeysPrefix(t, n - 1, DateOf);
      RunsFollowDates(s[..n - 1], t[..n - 1]);
      assert Keys(s, DateOf)[n - 1] == Keys(t, DateOf)[n - 1];
      assert Keys(s, DateOf)[n - 2] == Keys(t, DateOf)[n - 2];
      RunsFollowDatesStep(s[..n - 1], s[n - 1], t[..n - 1], t[n - 1]);
      SplitLast(s);
      SplitLast(t);
    } else if n == 1 {
      assert RunDates(Runs(s)) == [Keys(s, DateOf)];
      assert RunDates(Runs(t)) == [Keys(t, DateOf)];
    }
  }

  lemma CyclesFollowDates(userId: int, r1: seq<seq<PeriodLog>>, r2: seq<seq<PeriodLog>>)
    requires AllNonEmpty(r1) && AllNonEmpty(r2) && RunDates(r1) == RunDates(r2)
    ensures CyclesFor(userId, r1) == CyclesFor(userId, r2)
  {
    assert |r1| == |RunDates(r1)| == |RunDates(r2)| == |r2|;
    forall k | 0 <= k < |r1|
      ensures CycleFor(userId, r1, k) == CycleFor(userId, r2, k)
    {
      var d1, d2 := Keys(r1[k], DateOf), Keys(r2[k], DateOf);
      assert d1 == RunDates(r1)[k] == RunDates(r2)[k] == d2;
      assert r1[k][0].date == d1[0] && r2[k][0].date == d2[0];
      assert Last(r1[k]).date == d1[|d1| - 1] && Last(r2[k]).date == d2[|d2| - 1];
      if k < |r1| - 1 {
        var e1, e2 := Keys(r1[k + 1], DateOf), Keys(r2[k + 1], DateOf);
        assert e1 == RunDates(r1)[k + 1] == RunDates(r2)[k + 1] == e2;
        assert r1[k + 1][0].date == e1[0] && r2[k + 1][0].date == e2[0];
      }
    }
  }

  /** The derived cycles depend only on which logs are stored, not on the order the
      map lists them in, nor on how the sort orders logs of the same day. */
  lemma DeriveIgnoresMapOrder(a: seq<PeriodLog>, b: seq<PeriodLog>, userId: int)
    requires multiset(a) == multiset(b)
    ensures Derive(a, userId) == Derive(b, userId)
  {
    var p := (l: PeriodLog) => Qualifies(l, userId);
    FilterMultiset(a, p);
    FilterMultiset(b, p);
    assert multiset(QualifyingLogs(a, userId)) == multiset(QualifyingLogs(b, userId));
    var sa, sb := SortedQualifyingLogs(a, userId), SortedQualifyingLogs(b, userId);
    SortedKeysUnique(sa, sb, DateOf);
    RunsFollowDates(sa, sb);
    CyclesFollowDates(userId, Runs(sa), Runs(sb));
  }
}
