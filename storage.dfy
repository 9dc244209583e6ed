/** `MemStorage` (server/storage.ts), restricted to period logs and cycles: two maps
    keyed by id, two id counters, and the re-derivation of a user's cycles that every
    change to the period logs triggers. */
module Storage {
  import opened JsMap
  import opened Sequences
  import opened Records
  import opened CycleDerivation
  import opened CycleReplacement
  import opened CycleProperties

  /** The sort keys of `getPeriodLogs` and `getCycles`: newest first. */
  function NewestFirst(l: PeriodLog): int {
    -l.date
  }

  function LatestStartFirst(c: Cycle): int {
    -c.startDate
  }

  class MemStorage {
    var periodLogs: IdMap<PeriodLog>
    var cycles: IdMap<Cycle>
    var periodLogId: nat
    var cycleId: nat

    /** Ids are handed out from 1 by counters that stay ahead of every stored key, and
        each cycle sits under its own id. */
    ghost predicate Valid()
      reads this
    {
      && JsMap.Valid(periodLogs)
      && 1 <= periodLogId
      && (forall k :: k in periodLogs.entries ==> 1 <= k < periodLogId)
      && WellKeyed(cycles, cycleId)
    }

    /** Empty maps, counters at 1, and the sample cycle of user 1 from `monthAgo` to
        `today` (the clock readings the source takes). */
    constructor (monthAgo: Day, today: Day)
      ensures Valid()
      ensures periodLogs == Empty() && periodLogId == 1
      ensures Values(cycles) == [Cycle(1, 1, monthAgo, today, 5, Some(28))] && cycleId == 2
    {
      periodLogs := Empty();
      cycles := Empty();
      periodLogId := 1;
      cycleId := 1;
      new;
      var sample := CreateCycle(NewCycle(1, monthAgo, today, 5, Some(28)));
      ValuesOfFreshSet(Empty(), 1, sample);
    }

    /** `getPeriodLogs(userId)`: the user's logs, newest first. */
    function GetPeriodLogs(userId: int): (r: seq<PeriodLog>)
      reads this
      requires Valid()
      ensures forall l :: l in r <==> l in Values(periodLogs) && l.userId == userId
      ensures multiset(r) == multiset(Filter(Values(periodLogs), (l: PeriodLog) => l.userId == userId))
      ensures forall i, j :: 0 <= i < j < |r| ==> r[i].date >= r[j].date
    {
      var mine := Filter(Values(periodLogs), (l: PeriodLog) => l.userId == userId);
      FilterMembers(Values(periodLogs), (l: PeriodLog) => l.userId == userId);
      SortByMembers(mine, NewestFirst);
      SortBy(mine, NewestFirst)
    }

    /** `getPeriodLogById(id)` */
    function GetPeriodLogById(id: nat): (r: Option<PeriodLog>)
      reads this
      ensures r.Some? <==> id in periodLogs.entries
      ensures r.Some? ==> r.value == periodLogs.entries[id]
    {
      Get(periodLogs, id)
    }

    /** `getPeriodLogByDate(userId, date)`: the first matching log in map order. */
    function GetPeriodLogByDate(userId: int, date: Day): (r: Option<PeriodLog>)
      reads this
      requires Valid()
      ensures r.Some? ==> r.value in Values(periodLogs) && r.value.userId == userId && r.value.date == date
      ensures r.None? <==> forall l :: l in Values(periodLogs) ==> !(l.userId == userId && l.date == date)
      ensures r.Some? ==>
        exists i :: 0 <= i < |Values(periodLogs)| && Values(periodLogs)[i] == r.value &&
          (forall j :: 0 <= j < i ==> !(Values(periodLogs)[j].userId == userId && Values(periodLogs)[j].date == date))
    {
      var logs := Values(periodLogs);
      var i := FindIndex(logs, (l: PeriodLog) => l.userId == userId && l.date == date);
      if i < 0 then None else Some(logs[i])
    }

    method CreatePeriodLog(log: NewPeriodLog) returns (newLog: PeriodLog)
      requires Valid()
      modifies this
      ensures Valid()
      ensures newLog == WithLogId(log, old(periodLogId)) && newLog.id !in old(periodLogs.entries)
      ensures periodLogs == Set(old(periodLogs), newLog.id, newLog) && periodLogId == old(periodLogId) + 1
      ensures cycles == Rederive(old(cycles), old(cycleId), log.userId, Derive(Values(periodLogs), log.userId))
      ensures cycleId == old(cycleId) + |Derive(Values(periodLogs), log.userId)|
    {
      var id := periodLogId;
      periodLogId := periodLogId + 1;
      newLog := WithLogId(log, id);
      periodLogs := Set(periodLogs, id, newLog);
      UpdateCyclesFromPeriodLogs(log.userId);
    }

    /** Patches the log and re-derives the cycles of its owner before the patch. */
    method UpdatePeriodLog(id: nat, patch: LogPatch) returns (r: Option<PeriodLog>)
      requires Valid()
      modifies this
      ensures Valid()
      ensures id !in old(periodLogs.entries) ==> r == None && unchanged(this)
      ensures id in old(periodLogs.entries) ==>
        var owner := old(periodLogs.entries[id]).userId;
        && r == Some(MergeLog(old(periodLogs.entries[id]), patch))
        && periodLogs == Set(old(periodLogs), id, r.value)
        && cycles == Rederive(old(cycles), old(cycleId), owner, Derive(Values(periodLogs), owner))
        && cycleId == old(cycleId) + |Derive(Values(periodLogs), owner)|
      ensures periodLogId == old(periodLogId)
    {
      var existingLog := Get(periodLogs, id);
      if existingLog.None? {
        return None;
      }
      var updatedLog := MergeLog(existingLog.value, patch);
      periodLogs := Set(periodLogs, id, updatedLog);
      UpdateCyclesFromPeriodLogs(existingLog.value.userId);
      r := Some(updatedLog);
    }

    method DeletePeriodLog(id: nat) returns (deleted: bool)
      requires Valid()
      modifies this
      ensures Valid()
      ensures deleted == (id in old(periodLogs.entries))
      ensures !deleted ==> unchanged(this)
      ensures deleted ==>
        var owner := old(periodLogs.entries[id]).userId;
        && periodLogs == Delete(old(periodLogs), id)
        && cycles == Rederive(old(cycles), old(cycleId), owner, Derive(Values(periodLogs), owner))
        && cycleId == old(cycleId) + |Derive(Values(periodLogs), owner)|
      ensures periodLogId == old(periodLogId)
    {
      var log := Get(periodLogs, id);
      if log.None? {
        return false;
      }
      // `Map.prototype.delete` reports whether the key was present.
      deleted := id in periodLogs.entries;
      periodLogs := Delete(periodLogs, id);
      if deleted {
        UpdateCyclesFromPeriodLogs(log.value.userId);
      }
    }

    /** `getCycles(userId)`: the user's cycles, latest start first. */
    function GetCycles(userId: int): (r: seq<Cycle>)
      reads this
      requires Valid()
      ensures multiset(r) == multiset(OfUser(Values(cycles), userId))
      ensures forall i, j :: 0 <= i < j < |r| ==> r[i].startDate >= r[j].startDate
    {
      SortBy(OfUser(Values(cycles), userId), LatestStartFirst)
    }

    /** `getCycleById(id)` */
    function GetCycleById(id: nat): (r: Option<Cycle>)
      reads this
      ensures r.Some? <==> id in cycles.entries
      ensures r.Some? ==> r.value == cycles.entries[id]
    {
      Get(cycles, id)
    }

    method CreateCycle(cycle: NewCycle) returns (newCycle: Cycle)
      requires Valid()
      modifies this
      ensures Valid()
      ensures newCycle == WithCycleId(cycle, old(cycleId)) && newCycle.id !in old(cycles.entries)
      ensures cycles == Set(old(cycles), newCycle.id, newCycle) && cycleId == old(cycleId) + 1
      ensures periodLogs == old(periodLogs) && periodLogId == old(periodLogId)
    {
      var id := cycleId;
      cycleId := cycleId + 1;
      newCycle := WithCycleId(cycle, id);
      cycles := Set(cycles, id, newCycle);
    }

    method UpdateCycle(id: nat, patch: CyclePatch) returns (r: Option<Cycle>)
      requires Valid()
      modifies this
      ensures Valid()
      ensures id !in old(cycles.entries) ==> r == None && unchanged(this)
      ensures id in old(cycles.entries) ==>
        && r == Some(MergeCycle(old(cycles.entries[id]), patch))
        && cycles == Set(old(cycles), id, r.value)
      ensures periodLogs == old(periodLogs) && periodLogId == old(periodLogId) && cycleId == old(cycleId)
    {
      var existingCycle := Get(cycles, id);
      if existingCycle.None? {
        return None;
      }
      var updatedCycle := MergeCycle(existingCycle.value, patch);
      cycles := Set(cycles, id, updatedCycle);
      r := Some(updatedCycle);
    }

    method DeleteCycle(id: nat) returns (deleted: bool)
      requires Valid()
      modifies this
      ensures Valid()
      ensures deleted == (id in old(cycles.entries))
      ensures cycles == Delete(old(cycles), id)
      ensures periodLogs == old(periodLogs) && periodLogId == old(periodLogId) && cycleId == old(cycleId)
    {
      deleted := id in cycles.entries;
      cycles := Delete(cycles, id);
    }

    /** Re-derives the user's cycles from the stored logs: returns early when none of
        them qualifies, otherwise groups them into runs, deletes every stored cycle of
        the user and creates one cycle per run. */
    method UpdateCyclesFromPeriodLogs(userId: int)
      requires Valid()
      modifies this
      ensures Valid()
      ensures periodLogs == old(periodLogs) && periodLogId == old(periodLogId)
      ensures cycles == Rederive(old(cycles), old(cycleId), userId, Derive(Values(periodLogs), userId))
      ensures cycleId == old(cycleId) + |Derive(Values(periodLogs), userId)|
    {
      var logs := SortedQualifyingLogs(Values(periodLogs), userId);
      if |logs| == 0 {
        assert Derive(Values(periodLogs), userId) == [];
        return;
      }
      var cycleLogs := GroupIntoRuns(logs);
      assert CyclesFor(userId, cycleLogs) == Derive(Values(periodLogs), userId);
      DeleteCyclesOf(userId);
      CreateCyclesFor(userId, cycleLogs);
    }

    /** server/storage.ts:266-269: every stored cycle of the user, deleted by its id. */
    method DeleteCyclesOf(userId: int)
      requires Valid()
      modifies this
      ensures Valid()
      ensures cycles == DeleteEach(old(cycles), OfUser(Values(old(cycles)), userId))
      ensures periodLogs == old(periodLogs) && periodLogId == old(periodLogId) && cycleId == old(cycleId)
    {
      var doomed := OfUser(Values(cycles), userId);
      var i := 0;
      while i < |doomed|
        invariant 0 <= i <= |doomed|
        invariant cycles == DeleteEach(old(cycles), doomed[..i])
        invariant periodLogs == old(periodLogs) && periodLogId == old(periodLogId) && cycleId == old(cycleId)
      {
        ghost var before := cycles;
        cycles := Delete(cycles, doomed[i].id);
        DeleteEachNext(old(cycles), doomed, i, before, cycles);
        i := i + 1;
      }
      assert doomed[..|doomed|] == doomed;
    }

    /** server/storage.ts:272-291: one cycle per run, created in order. */
    method CreateCyclesFor(userId: int, cycleLogs: seq<seq<PeriodLog>>)
      requires Valid() && AllNonEmpty(cycleLogs)
      modifies this
      ensures Valid()
      ensures cycles == AddCycles(old(cycles), old(cycleId), CyclesFor(userId, cycleLogs))
      ensures cycleId == old(cycleId) + |cycleLogs|
      ensures periodLogs == old(periodLogs) && periodLogId == old(periodLogId)
    {
      ghost var drafts := CyclesFor(userId, cycleLogs);
      var index := 0;
      while index < |cycleLogs|
        invariant 0 <= index <= |cycleLogs|
        invariant Valid()
        invariant cycles == AddCycles(old(cycles), old(cycleId), drafts[..index])
        invariant cycleId == old(cycleId) + index
        invariant periodLogs == old(periodLogs) && periodLogId == old(periodLogId)
      {
        CreateCycleForRun(userId, cycleLogs, index, old(cycles), old(cycleId));
        index := index + 1;
      }
      assert drafts[..|cycleLogs|] == drafts;
    }

    /** server/storage.ts:272-290: the callback run for the `index`-th group, which stores the
        cycle spanning that group and so extends the cycles created so far by one. */
    method CreateCycleForRun(userId: int, cycleLogs: seq<seq<PeriodLog>>, index: nat,
                             ghost m: IdMap<Cycle>, ghost base: nat)
      requires Valid() && AllNonEmpty(cycleLogs) && index < |cycleLogs|
      requires cycles == AddCycles(m, base, CyclesFor(userId, cycleLogs)[..index])
      requires cycleId == base + index
      modifies this
      ensures Valid()
      ensures cycles == AddCycles(m, base, CyclesFor(userId, cycleLogs)[..index + 1])
      ensures cycleId == base + index + 1
      ensures periodLogs == old(periodLogs) && periodLogId == old(periodLogId)
    {
      ghost var before := cycles;
      var created := CreateCycle(CycleFor(userId, cycleLogs, index));
      AddCyclesNext(m, base, CyclesFor(userId, cycleLogs), index, before, created, cycles);
    }
  }

  /** Storing a log that does not qualify for a user (no flow, flow "none", or another
      user's) does not change the cycles derived for that user; the re-derivation it
      triggers only hands out new ids. */
  lemma NonQualifyingLogKeepsCycles(m: IdMap<PeriodLog>, k: nat, l: PeriodLog, userId: int)
    requires JsMap.Valid(m) && k !in m.entries && !Qualifies(l, userId)
    ensures Derive(Values(Set(m, k, l)), userId) == Derive(Values(m), userId)
  {
    ValuesOfFreshSet(m, k, l);
    NonQualifyingLogIgnored(Values(m), l, [], userId);
    assert Values(m) + [l] + [] == Values(m) + [l];
    assert Values(m) + [] == Values(m);
  }

  /** Patching a log that does not qualify for a user, into one that still does not,
      leaves that user's derived cycles the same. */
  lemma NonQualifyingUpdateKeepsCycles(m: IdMap<PeriodLog>, k: nat, l: PeriodLog, userId: int)
    requires JsMap.Valid(m) && k in m.entries
    requires !Qualifies(m.entries[k], userId) && !Qualifies(l, userId)
    ensures Derive(Values(Set(m, k, l)), userId) == Derive(Values(m), userId)
  {
    var i :| 0 <= i < |m.order| && m.order[i] == k;
    var a, b := Values(m)[..i], Values(m)[i + 1..];
    ValuesOfUpdate(m, k, l, i);
    NonQualifyingLogIgnored(a, m.entries[k], b, userId);
    NonQualifyingLogIgnored(a, l, b, userId);
  }

  /** Deleting a log that does not qualify for a user leaves that user's derived
      cycles the same. */
  lemma NonQualifyingDeleteKeepsCycles(m: IdMap<PeriodLog>, k: nat, userId: int)
    requires JsMap.Valid(m) && k in m.entries && !Qualifies(m.entries[k], userId)
    ensures Derive(Values(Delete(m, k)), userId) == Derive(Values(m), userId)
  {
    var i :| 0 <= i < |m.order| && m.order[i] == k;
    var a, b := Values(m)[..i], Values(m)[i + 1..];
    ValuesOfDelete(m, k, i);
    NonQualifyingLogIgnored(a, m.entries[k], b, userId);
  }

  /** `updatePeriodLog` re-derives the cycles of the log's owner before the patch
      (server/storage.ts:153). When the patch moves the log to another user, that
      user's stored cycles stay as they were, listed in the same order, although the
      moved log may now count for them. */
  lemma MovedLogLeavesNewOwnerCycles(cycles: IdMap<Cycle>, base: nat, logs: IdMap<PeriodLog>,
                                     id: nat, patch: LogPatch, newOwner: int)
    requires WellKeyed(cycles, base) && JsMap.Valid(logs) && id in logs.entries
    requires patch.userId == Some(newOwner) && newOwner != logs.entries[id].userId
    ensures var owner := logs.entries[id].userId;
      var after := Set(logs, id, MergeLog(logs.entries[id], patch));
      OfUser(Values(Rederive(cycles, base, owner, Derive(Values(after), owner))), newOwner)
        == OfUser(Values(cycles), newOwner)
  {
    var owner := logs.entries[id].userId;
    var drafts := Derive(Values(Set(logs, id, MergeLog(logs.entries[id], patch))), owner);
    DerivedCycleFields(Values(Set(logs, id, MergeLog(logs.entries[id], patch))), owner);
    RederiveSpec(cycles, base, owner, drafts);
    var r := Rederive(cycles, base, owner, drafts);
    OfUserOfOthers(Values(r), owner, newOwner);
    OfUserOfOthers(Values(cycles), owner, newOwner);
  }

  /** After a derivation that produced cycles, `getCycles` lists them latest first:
      the reverse of the order they were created in. */
  lemma CyclesListedLatestFirst(m: IdMap<Cycle>, base: nat, logs: seq<PeriodLog>, userId: int)
    requires WellKeyed(m, base) && Derive(logs, userId) != []
    ensures SortBy(OfUser(Values(Rederive(m, base, userId, Derive(logs, userId))), userId), LatestStartFirst)
         == Reverse(Stamped(base, Derive(logs, userId)))
  {
    var drafts := Derive(logs, userId);
    DerivedCycleFields(logs, userId);
    DerivedCyclesApart(logs, userId);
    ListedLatestFirst(m, base, userId, drafts);
  }

  lemma ListedLatestFirst(m: IdMap<Cycle>, base: nat, userId: int, drafts: seq<NewCycle>)
    requires WellKeyed(m, base) && drafts != []
    requires forall i :: 0 <= i < |drafts| ==> drafts[i].userId == userId
    requires forall i, j :: 0 <= i < j < |drafts| ==> drafts[i].startDate < drafts[j].startDate
    ensures SortBy(OfUser(Values(Rederive(m, base, userId, drafts)), userId), LatestStartFirst)
         == Reverse(Stamped(base, drafts))
  {
    RederiveSpec(m, base, userId, drafts);
    SortByReverse(Stamped(base, drafts), LatestStartFirst);
  }
}
