# Period-log storage and cycle derivation

This project models the in-memory store of the period-tracking server,
`MemStorage` in `server/storage.ts`, as far as period logs and menstrual cycles go.
The store keeps two maps keyed by numeric id: period logs and cycles. It also keeps
two id counters. Every change to the period logs makes the store re-derive the
owning user's cycles. The derivation works in five steps:

1. Keep the user's logs with a real flow. The flow must be present, non-empty and
   not `"none"`.
2. Sort them by date. The sort is stable.
3. Cut them into runs. Neighbouring entries at most two days apart share a run.
4. Delete every stored cycle of the user.
5. Create one cycle per run. A cycle records the run's first and last date and its
   number of entries. It also records the number of days to the next run's start,
   except for the last cycle.

If no log qualifies, the derivation returns early and the user's cycles stay as
they are.

The model has these parts:

- `js_map.dfy`: a JavaScript `Map` with numeric keys, as a value with its key
  insertion order. `values()` follows that order.
- `sequences.dfy`: `filter`; `find`, modelled as the index of the first match
  (`FindIndex`), which `GetPeriodLogByDate` turns back into the element; and `sort`
  with a numeric comparator, modelled as a stable insertion sort.
- `records.dfy`: the records, and the `{ ...old, ...patch }` updates.
- `cycle_derivation.dfy`: the derivation as pure functions. The grouping loop is a
  method proved equal to them. The properties of the derived cycles are proved as
  lemmas.
- `cycle_replacement.dfy`: how the derivation rewrites the cycles map.
- `cycle_examples.dfy`: worked examples of the derivation.
- `storage.dfy`: the `MemStorage` class. Its fields are the two maps and the two
  counters, and its methods update them in place.

Dates are whole days, numbered consecutively. The class's `Valid()` invariant
states three things:

- both maps list each key once;
- every key lies in `[1, counter)`;
- every cycle is stored under its own id.

Some behaviours of the source follow from the model and are stated as lemmas:

- The derived cycles depend only on which logs are stored, not on the map order.
- Creating a log that does not qualify for its owner leaves the owner's derived
  cycles the same. So do deleting such a log and patching it into one that still
  does not qualify. The stored cycles are a different matter. If the owner has
  other qualifying logs, the source deletes the stored cycles and stores the
  derivation under new ids. That matches what was stored before, up to ids, only if
  nothing changed the owner's cycles since the last derivation. A `createCycle`,
  `updateCycle` or `deleteCycle` call, the constructor's sample cycle, or a log
  moved in by `updatePeriodLog` can each leave them different, and the
  re-derivation then overwrites those changes. If the owner has no qualifying log,
  the early return leaves the stored cycles alone.
- `updatePeriodLog` re-derives the cycles of the log's owner before the patch. A
  patch that moves a log to another user leaves that user's stored cycles as they
  were, even when the moved log now counts for them.
- A re-derivation keeps every other user's cycles, in the same listing order.

The flow test follows the code: any non-empty flow other than `"none"` qualifies,
not only `light`, `medium` and `heavy`.

## Model

| member | source | states |
|---|---|---|
| JsMap.Empty | server/storage.ts:58-60 | `new Map()` is well formed, holds no key and lists no value |
| JsMap.Get | server/storage.ts:125 | `map.get(k)` gives the value under `k`, or none exactly when `k` is absent |
| JsMap.Set | server/storage.ts:137 | `map.set(k, v)`: `k` now maps to `v`, every other key is unchanged, and a new key goes last in iteration order while an existing key keeps its place |
| JsMap.Delete | server/storage.ts:162 | `map.delete(k)`: `k` is gone, every other key is unchanged and keeps its place in the iteration order, an absent key changes nothing, and the map stays well formed |
| JsMap.ValuesOfDelete | server/storage.ts:162 | deleting the key at position `i` drops its value from the listing, and the other values keep their order |
| JsMap.ValuesOfUpdate | server/storage.ts:150 | setting a present key replaces its value in place in the listing |
| JsMap.Values | server/storage.ts:119 | `Array.from(map.values())` lists the value of each key in insertion order |
| JsMap.ValuesMembership | server/storage.ts:236 | a value is listed exactly when some key holds it |
| JsMap.ValuesOfFreshSet | server/storage.ts:137 | setting a key that was absent appends its value to the listing |
| Sequences.Filter | server/storage.ts:237 | `filter` never returns more elements than it was given |
| Sequences.FilterMembers | server/storage.ts:237 | `filter` keeps exactly the elements satisfying the predicate |
| Sequences.FilterMultiset | server/storage.ts:237 | `filter` keeps each satisfying element as often as it occurs and drops the others |
| Sequences.FilterConcat | server/storage.ts:237 | filtering a concatenation filters each part |
| Sequences.FindIndex | server/storage.ts:129-131 | the index of the first element satisfying the predicate, or -1 exactly when no element does; `GetPeriodLogByDate` turns it into the element `find` returns, or none |
| Sequences.SortBy | server/storage.ts:238 | `sort` with comparator `key(a) - key(b)` returns a permutation of its input in ascending key order |
| Sequences.SortByStable | server/storage.ts:238 | the sort is stable: elements with equal keys keep their relative order |
| Sequences.SortedKeysUnique | server/storage.ts:238 | any two sorted permutations of the same elements agree key by key |
| Sequences.SortByReverse | server/storage.ts:176 | input whose keys strictly fall comes out of the sort reversed |
| Records.WithLogId | server/storage.ts:136 | `{ ...log, id }` adds the id and removing it gives the input back |
| Records.WithCycleId | server/storage.ts:185 | `{ ...cycle, id }` adds the id and removing it gives the input back |
| Records.MergeLog | server/storage.ts:149 | `{ ...existingLog, ...log }`: a field present in the patch wins, an absent one keeps its old value, and an empty patch changes nothing |
| Records.MergeCycle | server/storage.ts:194 | `{ ...existingCycle, ...cycle }` keeps the id; patched fields win, and an empty patch changes nothing |
| CycleDerivation.QualifyingLogs | server/storage.ts:236-237 | a log is kept exactly when it belongs to the user and has a non-empty flow other than "none" |
| CycleDerivation.Qualifies | server/storage.ts:237 | the filter test of the source: the user matches and the flow is truthy and not "none"; its effect is stated by `QualifyingLogs` and `NonQualifyingLogIgnored` |
| CycleDerivation.SortedQualifyingLogs | server/storage.ts:236-238 | the kept logs, as a permutation sorted by ascending date |
| CycleDerivation.Runs | server/storage.ts:243-264 | the grouping is empty exactly when there are no logs, and every run is non-empty |
| CycleDerivation.RunsPartition | server/storage.ts:243-264 | the runs concatenate back to the sorted logs; neighbours within a run are at most 2 days apart and neighbours across a boundary more than 2 |
| CycleDerivation.RunsUnique | server/storage.ts:243-264 | that partition is the only one with those properties |
| CycleDerivation.GroupIntoRuns | server/storage.ts:243-264 | the source's loop, including its final push, computes exactly the runs |
| CycleDerivation.CycleFor | server/storage.ts:272-283 | the cycle made from run `k`; its properties are stated by `CycleFields` and `CycleLengths` |
| CycleDerivation.CyclesFor | server/storage.ts:272-290 | one cycle per run, in run order; its properties are stated by `CycleFields`, `CycleLengths`, `CyclesApart` and `PeriodLengthsAddUp` |
| CycleDerivation.Derive | server/storage.ts:235-291 | the cycles one derivation creates from the stored logs; its properties are stated by `DeriveEmpty`, the `Derived...` lemmas, `NonQualifyingLogIgnored` and `DeriveIgnoresMapOrder` |
| CycleProperties.CycleFields | server/storage.ts:272-275 | each cycle belongs to the user, starts on its run's first date, ends on its last and has the run's entry count as period length; so start <= end and period length >= 1 |
| CycleProperties.CycleLengths | server/storage.ts:278-283 | every cycle but the last has cycle length equal to the next start minus its own start, which is more than 2; the last has none |
| CycleProperties.CyclesApart | server/storage.ts:243-264 | a cycle ends more than 2 days before any later cycle starts |
| CycleProperties.CyclesCoverLogs | server/storage.ts:272-275 | every grouped log lies between some cycle's start and end |
| CycleProperties.PeriodLengthsAddUp | server/storage.ts:275 | the period lengths add up to the number of grouped logs |
| CycleProperties.DeriveEmpty | server/storage.ts:236-240 | no cycle is derived exactly when no stored log qualifies, which is the early return |
| CycleProperties.DerivedCycleFields | server/storage.ts:272-283 | the per-cycle facts, stated for the cycles derived from the stored logs |
| CycleProperties.DerivedCyclesApart | server/storage.ts:243-264 | derived cycles come in date order, more than 2 days apart |
| CycleProperties.DerivedCyclesCoverLogs | server/storage.ts:236-275 | every qualifying stored log lies within some derived cycle |
| CycleProperties.DerivedPeriodLengths | server/storage.ts:275 | the derived period lengths add up to the number of qualifying logs |
| CycleProperties.NonQualifyingLogIgnored | server/storage.ts:237 | a log that does not qualify has no effect on the derived cycles, wherever it sits |
| CycleProperties.DeriveIgnoresMapOrder | server/storage.ts:236-238 | the derived cycles depend only on the multiset of stored logs, not on map order or on how same-day logs are ordered |
| CycleExamples.GapOfTwoMerges | server/storage.ts:250-252 | logs on days 0, 1 and 3 give one cycle from day 0 to 3 of period length 3 |
| CycleExamples.GapOfThreeSplits | server/storage.ts:250-258 | logs on days 0, 1 and 4 give two cycles, {0,1} with cycle length 4 and {4} |
| CycleExamples.TwoPeriods | server/storage.ts:235-291 | heavy, medium and light flow on days 0-2 and heavy on day 28 give cycles (0, 2, 3, 28) and (28, 28, 1, none) |
| CycleExamples.NoneFlowSkipped | server/storage.ts:237 | a "none" log between two flowing days does not count, and the flowing days still join |
| CycleExamples.NothingQualifies | server/storage.ts:237-240 | logs with flow "none", no flow, an empty flow, or of another user derive nothing |
| CycleReplacement.OfUser | server/storage.ts:268 | keeps exactly the cycles of the user |
| CycleReplacement.OfOthers | server/storage.ts:268 | keeps exactly the cycles of the other users |
| CycleReplacement.DeleteEach | server/storage.ts:266-269 | deleting each listed cycle by its id removes exactly those ids |
| CycleReplacement.AddCycles | server/storage.ts:285-291 | calling `createCycle` per draft keeps the map well formed |
| CycleReplacement.AddCyclesEntries | server/storage.ts:285-291 | the entries afterwards are the old ones plus draft `i` stamped with id `base + i` under key `base + i` |
| CycleReplacement.AddCyclesOrder | server/storage.ts:285-291 | when every old key is below `base`, the new keys `base`, `base + 1`, ... are appended to the iteration order |
| CycleReplacement.AddCyclesValues | server/storage.ts:285-291 | the new cycles are listed last, in creation order |
| CycleReplacement.PurgeUser | server/storage.ts:266-269 | deleting the user's cycles by id removes exactly the keys that held them |
| CycleReplacement.DeleteByIdValues | server/storage.ts:269 | deleting a cycle by its id drops it from the listing; the other cycles keep their order |
| CycleReplacement.DeleteEachValues | server/storage.ts:266-269 | the `forEach` delete drops exactly the listed ids from the listing, keeping the order of the rest |
| CycleReplacement.PurgeUserValues | server/storage.ts:266-269 | once the user's cycles are deleted, the listing is the other users' cycles in their old order |
| CycleReplacement.ReplaceUserCycles | server/storage.ts:266-291 | delete the user's cycles, then create the new ones; its properties are stated by `ReplacedKeys`, `ReplacedUserCycles` and `ReplacedOthersListed` |
| CycleReplacement.ReplacedOthersListed | server/storage.ts:266-291 | after the replacement, the other users' cycles are listed as before, in the same order |
| CycleReplacement.ReplacedKeys | server/storage.ts:266-291 | after the replacement the map is well keyed; the keys are the other users' old keys plus `base` to `base + n - 1`; other users' cycles are unchanged |
| CycleReplacement.ReplacedUserCycles | server/storage.ts:266-291 | the user's cycles, in map order, are exactly the new ones in creation order |
| CycleReplacement.Rederive | server/storage.ts:240-291 | the early return or the replacement; its properties are stated by `RederiveSpec` and `RederiveIdempotent` |
| CycleReplacement.RederiveSpec | server/storage.ts:240-291 | a re-derivation changes nothing when there are no runs; otherwise it replaces the user's cycles and no earlier one survives; other users' cycles are untouched and keep their listing order either way |
| CycleReplacement.RederiveIdempotent | server/storage.ts:235-291 | deriving again from the same logs leaves other users alone and the user's cycles equal up to ids |
| Storage.NewestFirst | server/storage.ts:121 | the sort key for the comparator `b.date - a.date`; `GetPeriodLogs` states the order it gives |
| Storage.LatestStartFirst | server/storage.ts:176 | the sort key for the comparator `b.startDate - a.startDate`; `GetCycles` states the order it gives |
| Storage.MemStorage.constructor | server/storage.ts:57-86 | empty maps, counters at 1, then the sample cycle of user 1 stored under id 1 |
| Storage.MemStorage.GetPeriodLogs | server/storage.ts:118-122 | a permutation of the user's stored logs, newest first; logs on the same date keep their map order (`Sequences.SortByStable`) |
| Storage.MemStorage.GetPeriodLogById | server/storage.ts:124-126 | the log under `id`, or none when the key is absent |
| Storage.MemStorage.GetPeriodLogByDate | server/storage.ts:128-132 | a stored log of the user on that date, the first in map order, or none exactly when there is none |
| Storage.MemStorage.CreatePeriodLog | server/storage.ts:134-143 | stores the log under the fresh counter id, advances the counter, and re-derives the user's cycles |
| Storage.MemStorage.UpdatePeriodLog | server/storage.ts:145-156 | a missing id returns none and changes nothing; otherwise it stores the merged log under the same key and re-derives the cycles of the log's owner before the patch |
| Storage.MemStorage.DeletePeriodLog | server/storage.ts:158-170 | a missing id returns false and changes nothing; otherwise it removes the log, re-derives its owner's cycles and returns true |
| Storage.MemStorage.GetCycles | server/storage.ts:173-177 | a permutation of the user's stored cycles, latest start first |
| Storage.MemStorage.GetCycleById | server/storage.ts:179-181 | the cycle under `id`, or none when the key is absent |
| Storage.MemStorage.CreateCycle | server/storage.ts:183-188 | stores the cycle under the fresh counter id, advances the counter, and touches nothing else |
| Storage.MemStorage.UpdateCycle | server/storage.ts:190-197 | a missing id returns none and changes nothing; otherwise it stores the merged cycle under the same key |
| Storage.MemStorage.DeleteCycle | server/storage.ts:199-201 | removes the key and returns whether it was present |
| Storage.MemStorage.UpdateCyclesFromPeriodLogs | server/storage.ts:235-292 | the cycles map becomes the re-derivation of the stored logs, and the counter advances by the number of new cycles |
| Storage.MemStorage.DeleteCyclesOf | server/storage.ts:266-269 | the `forEach` loop deletes each of the user's cycles by id |
| Storage.MemStorage.CreateCycleForRun | server/storage.ts:272-290 | one pass of the `forEach` body: with cycles `0 .. i - 1` created, it creates cycle `i` under id `base + i`, keeps the invariant and leaves the logs alone |
| Storage.MemStorage.CreateCyclesFor | server/storage.ts:272-291 | the `forEach` loop creates one cycle per run, in order, under consecutive ids |
| Storage.NonQualifyingLogKeepsCycles | server/storage.ts:134-143 | storing a log that does not qualify leaves the user's derived cycles the same |
| Storage.NonQualifyingUpdateKeepsCycles | server/storage.ts:145-156 | patching a log that does not qualify for a user into one that still does not leaves the user's derived cycles the same |
| Storage.NonQualifyingDeleteKeepsCycles | server/storage.ts:158-170 | deleting a log that does not qualify for a user leaves the user's derived cycles the same |
| Storage.MovedLogLeavesNewOwnerCycles | server/storage.ts:145-156 | a patch that moves a log to another user leaves that user's stored cycles as they were, since only the old owner's cycles are re-derived |
| Storage.CyclesListedLatestFirst | server/storage.ts:173-177 | after a derivation, `getCycles` lists the new cycles in reverse creation order |

## Left out

- Users and reminders: their maps, counters and CRUD methods (server/storage.ts:98-115, 203-232). They do not interact with logs or cycles.
- Storage.MemStorage.constructor: the default user and the sample reminder are left out. The clock readings for the sample cycle are parameters.
- Date strings: dates are whole days. The source parses ISO strings with `new Date` and rounds millisecond differences down to days. Malformed dates, which give `NaN`, are not modelled.
- Storage.MemStorage.GetPeriodLogByDate: it compares days, while the source compares date strings. Two spellings of the same day match here but not in the source.
- Records.MergeCycle: the cycle patch has no `id` field. In the source, `updateCycle(k, { id: j })` stores a cycle whose `id` is `j` under key `k` (server/storage.ts:194-195). The next derivation for its user then deletes key `j`, not `k` (server/storage.ts:269). That can remove another user's cycle and leave the stale cycle under `k`. So the promises that no earlier cycle survives and that other users' cycles are untouched hold only while no patch has changed a cycle's id.
- Returned records: the source hands out the stored objects themselves (server/storage.ts:125, 136-142, 180, 186-187). A caller that mutates one changes the store. Records here are values, so this aliasing is not modelled.
- Records.MergeLog: a patch cannot set `id`, `userId` or `date` to `undefined`, which the source's `Partial<PeriodLog>` spread allows (server/storage.ts:149).
- Records.MergeCycle: a patch cannot set `userId`, `startDate`, `endDate` or `periodLength` to `undefined`, which the source's `Partial<Cycle>` spread allows (server/storage.ts:194). For example, `updateCycle(k, { userId: undefined })` leaves a cycle that no later derivation deletes, because the filter at server/storage.ts:268 never matches it.
- Id counters: they are unbounded here. In the source, `this.periodLogId++` and `this.cycleId++` (server/storage.ts:135, 184) act on a JavaScript number, which stops being exact past 2^53, so ids would then collide. No realistic number of calls gets there.
- `async` and `Promise`: every method is synchronous here. Each source method runs to completion without awaiting, so this does not change the result.
- The database-backed storage, `server/db.ts`, and the UI are not part of this model.
- `shared/schema.ts` is not part of this model. The record shapes follow `client/src/types.ts` and the fields the storage uses.
