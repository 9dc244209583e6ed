/** How `updateCyclesFromPeriodLogs` rewrites the cycles map once the runs are known:
    every stored cycle of the user is deleted by its id, then `createCycle` stores one
    new cycle per run under consecutive fresh ids (server/storage.ts:266-291). */
module CycleReplacement {
  import opened JsMap
  import opened Sequences
  import opened Records
  import opened CycleDerivation
  import opened CycleProperties

  /** The cycles map as `MemStorage` keeps it: ids are handed out from 1 upwards by a
      counter that is always ahead of them, and each cycle is stored under its own id. */
  ghost predicate WellKeyed(m: IdMap<Cycle>, next: nat) {
    && JsMap.Valid(m)
    && 1 <= next
    && forall k :: k in m.entries ==> 1 <= k < next && m.entries[k].id == k
  }

  /** `.filter(cycle => cycle.userId === userId)` */
  function OfUser(cs: seq<Cycle>, userId: int): (r: seq<Cycle>)
    ensures forall c :: c in r <==> c in cs && c.userId == userId
  {
    FilterMembers(cs, (c: Cycle) => c.userId == userId);
    Filter(cs, (c: Cycle) => c.userId == userId)
  }

  /** The cycles of every user but `userId`, in their order. */
  function OfOthers(cs: seq<Cycle>, userId: int): (r: seq<Cycle>)
    ensures forall c :: c in r <==> c in cs && c.userId != userId
  {
    FilterMembers(cs, (c: Cycle) => c.userId != userId);
    Filter(cs, (c: Cycle) => c.userId != userId)
  }

  /** Another user's cycles can be picked from those left once `userId`'s are set aside. */
  lemma OfUserOfOthers(cs: seq<Cycle>, userId: int, other: int)
    requires other != userId
    ensures OfUser(OfOthers(cs, userId), other) == OfUser(cs, other)
  {
    FilterFilter(cs, (c: Cycle) => c.userId != userId, (c: Cycle) => c.userId == other,
                 (c: Cycle) => c.userId == other);
  }

  /** Every cycle is stored under its own id. */
  ghost predicate IdKeyed(m: IdMap<Cycle>) {
    forall k :: k in m.entries ==> m.entries[k].id == k
  }

  function Ids(cs: seq<Cycle>): set<nat> {
    set c | c in cs :: c.id
  }

  /** `.forEach(cycle => this.cycles.delete(cycle.id))` */
  function DeleteEach(m: IdMap<Cycle>, doomed: seq<Cycle>): (r: IdMap<Cycle>)
    requires JsMap.Valid(m)
    ensures JsMap.Valid(r)
    ensures r.entries == m.entries - Ids(doomed)
    decreases |doomed|
  {
    if doomed == [] then m
    else
      var n := |doomed| - 1;
      assert doomed == doomed[..n] + [doomed[n]];
      assert Ids(doomed) == Ids(doomed[..n]) + {doomed[n].id};
      Delete(DeleteEach(m, doomed[..n]), doomed[n].id)
  }

  /** Deleting entry `i` once entries `0 .. i - 1` are gone. */
  lemma DeleteEachNext(m: IdMap<Cycle>, doomed: seq<Cycle>, i: nat, before: IdMap<Cycle>, after: IdMap<Cycle>)
    requires JsMap.Valid(m) && i < |doomed| && before == DeleteEach(m, doomed[..i])
    requires after == Delete(before, doomed[i].id)
    ensures after == DeleteEach(m, doomed[..i + 1])
  {
    PrefixNext(doomed, i);
  }

  /** The cycles `createCycle` makes from `drafts` when the counter starts at `base`. */
  function Stamped(base: nat, drafts: seq<NewCycle>): (r: seq<Cycle>)
    ensures |r| == |drafts|
    ensures forall i :: 0 <= i < |r| ==> r[i] == WithCycleId(drafts[i], base + i)
  {
    seq(|drafts|, i requires 0 <= i < |drafts| => WithCycleId(drafts[i], base + i))
  }

  /** `drafts.forEach(d => this.createCycle(d))` with the counter at `base`. */
  function AddCycles(m: IdMap<Cycle>, base: nat, drafts: seq<NewCycle>): (r: IdMap<Cycle>)
    ensures JsMap.Valid(m) ==> JsMap.Valid(r)
    decreases |drafts|
  {
    if drafts == [] then m
    else
      var n := |drafts| - 1;
      Set(AddCycles(m, base, drafts[..n]), base + n, WithCycleId(drafts[n], base + n))
  }

  /** Creating draft `i` once drafts `0 .. i - 1` are in place. */
  lemma AddCyclesNext(m: IdMap<Cycle>, base: nat, drafts: seq<NewCycle>, i: nat,
                      before: IdMap<Cycle>, c: Cycle, after: IdMap<Cycle>)
    requires i < |drafts| && before == AddCycles(m, base, drafts[..i])
    requires c == WithCycleId(drafts[i], base + i) && after == Set(before, c.id, c)
    ensures after == AddCycles(m, base, drafts[..i + 1])
  {
    PrefixNext(drafts, i);
  }

  /** The entries `createCycle` adds for `drafts`: draft `i` under id `base + i`. */
  function Added(base: nat, drafts: seq<NewCycle>): map<nat, Cycle>
    decreases |drafts|
  {
    if drafts == [] then map[]
    else
      var n := |drafts| - 1;
      Added(base, drafts[..n])[base + n := WithCycleId(drafts[n], base + n)]
  }

  lemma {:induction false} AddedEntries(base: nat, drafts: seq<NewCycle>)
    ensures forall k :: k in Added(base, drafts) <==> base <= k < base + |drafts|
    ensures forall i :: 0 <= i < |drafts| ==> Added(base, drafts)[base + i] == WithCycleId(drafts[i], base + i)
    decreases |drafts|
  {
    if drafts != [] {
      var n := |drafts| - 1;
      AddedEntries(base, drafts[..n]);
      assert forall i :: 0 <= i < n ==> drafts[..n][i] == drafts[i];
    }
  }

  lemma MapUnionUpdate<K, V>(a: map<K, V>, b: map<K, V>, k: K, v: V)
    ensures (a + b)[k := v] == a + b[k := v]
  {
  }

  /** One more `createCycle` stores the last draft under `base + |drafts| - 1`. */
  lemma AddCyclesSnoc(m: IdMap<Cycle>, base: nat, drafts: seq<NewCycle>)
    requires drafts != []
    ensures var n := |drafts| - 1;
      && AddCycles(m, base, drafts).entries
           == AddCycles(m, base, drafts[..n]).entries[base + n := WithCycleId(drafts[n], base + n)]
      && Added(base, drafts) == Added(base, drafts[..n])[base + n := WithCycleId(drafts[n], base + n)]
    ensures var n := |drafts| - 1;
      base + n !in AddCycles(m, base, drafts[..n]).entries ==>
        AddCycles(m, base, drafts).order == AddCycles(m, base, drafts[..n]).order + [base + n]
  {
  }

  /** The new cycles sit under `base`, `base + 1`, ...; the old entries stay put. */
  lemma {:induction false} AddCyclesEntries(m: IdMap<Cycle>, base: nat, drafts: seq<NewCycle>)
    ensures AddCycles(m, base, drafts).entries == m.entries + Added(base, drafts)
    decreases |drafts|
  {
    if drafts == [] {
      assert m.entries + Added(base, drafts) == m.entries;
    } else {
      var n := |drafts| - 1;
      var k, c := base + n, WithCycleId(drafts[n], base + n);
      var before, added := AddCycles(m, base, drafts[..n]).entries, Added(base, drafts[..n]);
      AddCyclesEntries(m, base, drafts[..n]);
      AddCyclesSnoc(m, base, drafts);
      MapUnionUpdate(m.entries, added, k, c);
      calc {
        AddCycles(m, base, drafts).entries;
        before[k := c];
        (m.entries + added)[k := c];
        m.entries + added[k := c];
        m.entries + Added(base, drafts);
      }
    }
  }

  /** The ids `base`, `base + 1`, ... handed out for `count` new cycles. */
  function FreshIds(base: nat, count: nat): (r: seq<nat>)
    ensures |r| == count
    ensures forall i :: 0 <= i < count ==> r[i] == base + i
  {
    seq(count, i requires 0 <= i < count => base + i)
  }

  /** When the ids are fresh, the new keys are appended to the iteration order. */
  lemma {:induction false} AddCyclesOrder(m: IdMap<Cycle>, base: nat, drafts: seq<NewCycle>)
    requires forall k :: k in m.entries ==> k < base
    ensures AddCycles(m, base, drafts).order == m.order + FreshIds(base, |drafts|)
    decreases |drafts|
  {
    if drafts == [] {
      assert FreshIds(base, 0) == [];
    } else {
      var n := |drafts| - 1;
      assert base + n !in AddCycles(m, base, drafts[..n]).entries by {
        AddCyclesEntries(m, base, drafts[..n]);
        AddedEntries(base, drafts[..n]);
      }
      AddCyclesSnoc(m, base, drafts);
      AddCyclesOrder(m, base, drafts[..n]);
      assert FreshIds(base, n + 1) == FreshIds(base, n) + [base + n];
    }
  }

  /** The new cycles come last when the map is listed, in creation order. */
  lemma AddCyclesValues(m: IdMap<Cycle>, base: nat, drafts: seq<NewCycle>)
    requires JsMap.Valid(m) && forall k :: k in m.entries ==> k < base
    ensures Values(AddCycles(m, base, drafts)) == Values(m) + Stamped(base, drafts)
  {
    AddCyclesOrder(m, base, drafts);
    AddCyclesEntries(m, base, drafts);
    ValuesOfFreshIds(m, AddCycles(m, base, drafts), base, drafts);
  }

  /** A map that extends `m` by `Added(base, drafts)` under fresh ids lists `m`'s values,
      then the stamped drafts. */
  lemma ValuesOfFreshIds(m: IdMap<Cycle>, r: IdMap<Cycle>, base: nat, drafts: seq<NewCycle>)
    requires JsMap.Valid(m) && JsMap.Valid(r) && forall k :: k in m.entries ==> k < base
    requires r.order == m.order + FreshIds(base, |drafts|)
    requires r.entries == m.entries + Added(base, drafts)
    ensures Values(r) == Values(m) + Stamped(base, drafts)
  {
    ValuesKeepOld(m, r, base, drafts);
    ValuesAddNew(m, r, base, drafts);
    SplitAt(Values(r), |m.order|);
  }

  lemma ValuesKeepOld(m: IdMap<Cycle>, r: IdMap<Cycle>, base: nat, drafts: seq<NewCycle>)
    requires JsMap.Valid(m) && JsMap.Valid(r) && forall k :: k in m.entries ==> k < base
    requires r.order == m.order + FreshIds(base, |drafts|)
    requires r.entries == m.entries + Added(base, drafts)
    ensures Values(r)[..|m.order|] == Values(m)
  {
    forall i | 0 <= i < |m.order|
      ensures Values(r)[i] == Values(m)[i]
    {
      var k := m.order[i];
      assert r.order[i] == k && k in m.entries;
      AddedBelow(base, drafts, k);
    }
  }

  lemma ValuesAddNew(m: IdMap<Cycle>, r: IdMap<Cycle>, base: nat, drafts: seq<NewCycle>)
    requires JsMap.Valid(m) && JsMap.Valid(r)
    requires r.order == m.order + FreshIds(base, |drafts|)
    requires r.entries == m.entries + Added(base, drafts)
    ensures Values(r)[|m.order|..] == Stamped(base, drafts)
  {
    var ws := Values(r)[|m.order|..];
    forall j | 0 <= j < |drafts|
      ensures ws[j] == Stamped(base, drafts)[j]
    {
      AddedAt(base, drafts, j);
      assert r.order[|m.order| + j] == base + j;
    }
  }

  lemma AddedBelow(base: nat, drafts: seq<NewCycle>, k: nat)
    requires k < base
    ensures k !in Added(base, drafts)
  {
    AddedEntries(base, drafts);
  }

  lemma AddedAt(base: nat, drafts: seq<NewCycle>, j: nat)
    requires j < |drafts|
    ensures base + j in Added(base, drafts) && Added(base, drafts)[base + j] == Stamped(base, drafts)[j]
  {
    AddedEntries(base, drafts);
  }

  /** server/storage.ts:266-291: the user's cycles replaced by `drafts`. */
  function ReplaceUserCycles(m: IdMap<Cycle>, userId: int, base: nat, drafts: seq<NewCycle>): IdMap<Cycle>
    requires WellKeyed(m, base)
  {
    AddCycles(DeleteEach(m, OfUser(Values(m), userId)), base, drafts)
  }

  /** What `updateCyclesFromPeriodLogs(userId)` leaves in the cycles map when the
      derivation yields `drafts` and the counter stands at `base`: nothing changes when
      there are none (server/storage.ts:240), otherwise the user's cycles are replaced. */
  function Rederive(m: IdMap<Cycle>, base: nat, userId: int, drafts: seq<NewCycle>): IdMap<Cycle>
    requires WellKeyed(m, base)
  {
    if drafts == [] then m else ReplaceUserCycles(m, userId, base, drafts)
  }

  /** Deleting the user's cycles by id removes exactly the keys that held them. */
  lemma PurgeUser(m: IdMap<Cycle>, base: nat, userId: int)
    requires WellKeyed(m, base)
    ensures var r := DeleteEach(m, OfUser(Values(m), userId));
      && (forall k :: k in r.entries <==> k in m.entries && m.entries[k].userId != userId)
      && OfUser(Values(r), userId) == []
  {
    var doomed := OfUser(Values(m), userId);
    var r := DeleteEach(m, doomed);
    forall k | k in m.entries
      ensures k in Ids(doomed) <==> m.entries[k].userId == userId
    {
      if m.entries[k].userId == userId {
        ValuesMembership(m, m.entries[k]);
        assert m.entries[k] in doomed;
      }
      if k in Ids(doomed) {
        var c :| c in doomed && c.id == k;
        ValuesMembership(m, c);
        var k' :| k' in m.entries && m.entries[k'] == c;
        assert k' == k;
      }
    }
    var left := OfUser(Values(r), userId);
    if left != [] {
      assert left[0] in Values(r);
      ValuesMembership(r, left[0]);
      assert false;
    }
  }

  /** Deleting a cycle by id drops it from the listing; the rest keep their order. */
  lemma DeleteByIdValues(m: IdMap<Cycle>, k: nat)
    requires JsMap.Valid(m) && IdKeyed(m)
    ensures IdKeyed(Delete(m, k))
    ensures Values(Delete(m, k)) == Filter(Values(m), (c: Cycle) => c.id != k)
  {
    var p := (c: Cycle) => c.id != k;
    var vs := Values(m);
    if k !in m.entries {
      forall c | c in vs
        ensures p(c)
      {
        var j :| 0 <= j < |vs| && vs[j] == c;
        assert m.order[j] in m.entries;
      }
      FilterAll(vs, p);
    } else {
      var i :| 0 <= i < |m.order| && m.order[i] == k;
      ValuesOfDelete(m, k, i);
      forall j | 0 <= j < |vs|
        ensures p(vs[j]) == (j != i)
      {
        assert m.order[j] in m.entries && vs[j].id == m.order[j];
      }
      FilterDropsOne(vs, i, p);
    }
  }

  lemma IdsSnoc(cs: seq<Cycle>)
    requires cs != []
    ensures Ids(cs) == Ids(cs[..|cs| - 1]) + {cs[|cs| - 1].id}
  {
    assert cs == cs[..|cs| - 1] + [cs[|cs| - 1]];
  }

  /** `DeleteEach` drops the listed ids from the listing; the rest keep their order. */
  lemma {:induction false} DeleteEachValues(m: IdMap<Cycle>, doomed: seq<Cycle>)
    requires JsMap.Valid(m) && IdKeyed(m)
    ensures IdKeyed(DeleteEach(m, doomed))
    ensures Values(DeleteEach(m, doomed)) == Filter(Values(m), (c: Cycle) => c.id !in Ids(doomed))
    decreases |doomed|
  {
    if doomed == [] {
      FilterAll(Values(m), (c: Cycle) => c.id !in Ids(doomed));
    } else {
      var n := |doomed| - 1;
      var before := DeleteEach(m, doomed[..n]);
      DeleteEachValues(m, doomed[..n]);
      DeleteByIdValues(before, doomed[n].id);
      IdsSnoc(doomed);
      assert forall c: Cycle :: (c.id !in Ids(doomed)) == (c.id !in Ids(doomed[..n]) && c.id != doomed[n].id);
      FilterFilter(Values(m), (c: Cycle) => c.id !in Ids(doomed[..n]), (c: Cycle) => c.id != doomed[n].id,
                   (c: Cycle) => c.id !in Ids(doomed));
    }
  }

  /** Once the user's cycles are deleted, the listing is the other users' cycles in
      their old order. */
  lemma PurgeUserValues(m: IdMap<Cycle>, base: nat, userId: int)
    requires WellKeyed(m, base)
    ensures Values(DeleteEach(m, OfUser(Values(m), userId))) == OfOthers(Values(m), userId)
  {
    var doomed := OfUser(Values(m), userId);
    var vs := Values(m);
    DeleteEachValues(m, doomed);
    forall c | c in vs
      ensures (c.id !in Ids(doomed)) == (c.userId != userId)
    {
      var j :| 0 <= j < |vs| && vs[j] == c;
      var k := m.order[j];
      assert k in m.entries && m.entries[k] == c && c.id == k;
      if c.userId == userId {
        assert c in doomed;
      }
      if c.id in Ids(doomed) {
        var d :| d in doomed && d.id == c.id;
        ValuesMembership(m, d);
        var k' :| k' in m.entries && m.entries[k'] == d;
        assert k' == k;
      }
    }
    FilterSame(vs, (c: Cycle) => c.id !in Ids(doomed), (c: Cycle) => c.userId != userId);
  }

  /** The replacement leaves the other users' cycles listed as they were, in order. */
  lemma ReplacedOthersListed(m: IdMap<Cycle>, base: nat, userId: int, drafts: seq<NewCycle>)
    requires WellKeyed(m, base)
    requires forall i :: 0 <= i < |drafts| ==> drafts[i].userId == userId
    ensures OfOthers(Values(ReplaceUserCycles(m, userId, base, drafts)), userId) == OfOthers(Values(m), userId)
  {
    var purged := DeleteEach(m, OfUser(Values(m), userId));
    PurgeUser(m, base, userId);
    PurgeUserValues(m, base, userId);
    AddCyclesValues(purged, base, drafts);
    var p := (c: Cycle) => c.userId != userId;
    FilterConcat(Values(purged), Stamped(base, drafts), p);
    FilterNone(Stamped(base, drafts), p);
    FilterAll(OfOthers(Values(m), userId), p);
    assert Filter(Values(purged), p) + [] == Filter(Values(purged), p);
  }

  /** After the replacement the map is still well keyed, no earlier cycle of the user
      is left, the new cycles sit under `base`, `base + 1`, ..., and every other
      user's cycle is where it was. */
  lemma ReplacedKeys(m: IdMap<Cycle>, base: nat, userId: int, drafts: seq<NewCycle>)
    requires WellKeyed(m, base)
    ensures var r := ReplaceUserCycles(m, userId, base, drafts);
      && WellKeyed(r, base + |drafts|)
      && (forall k :: k in r.entries <==>
            (k in m.entries && m.entries[k].userId != userId) || base <= k < base + |drafts|)
      && (forall k :: k in m.entries && m.entries[k].userId != userId ==> r.entries[k] == m.entries[k])
      && (forall i :: 0 <= i < |drafts| ==> r.entries[base + i] == WithCycleId(drafts[i], base + i))
  {
    var purged := DeleteEach(m, OfUser(Values(m), userId));
    PurgeUser(m, base, userId);
    AddCyclesEntries(purged, base, drafts);
    AddedEntries(base, drafts);
    var r := ReplaceUserCycles(m, userId, base, drafts);
    forall k | k in r.entries
      ensures 1 <= k < base + |drafts| && r.entries[k].id == k
    {
      if base <= k < base + |drafts| {
        assert r.entries[base + (k - base)] == WithCycleId(drafts[k - base], k);
      } else {
        assert k in purged.entries;
        assert r.entries[k] == purged.entries[k] == m.entries[k];
      }
    }
  }

  /** Listed in map order, the user's cycles after the replacement are exactly the new
      ones, in creation order. */
  lemma ReplacedUserCycles(m: IdMap<Cycle>, base: nat, userId: int, drafts: seq<NewCycle>)
    requires WellKeyed(m, base)
    requires forall i :: 0 <= i < |drafts| ==> drafts[i].userId == userId
    ensures OfUser(Values(ReplaceUserCycles(m, userId, base, drafts)), userId) == Stamped(base, drafts)
  {
    var purged := DeleteEach(m, OfUser(Values(m), userId));
    PurgeUser(m, base, userId);
    AddCyclesValues(purged, base, drafts);
    var p := (c: Cycle) => c.userId == userId;
    FilterConcat(Values(purged), Stamped(base, drafts), p);
    FilterAll(Stamped(base, drafts), p);
  }

  /** The cycles without their ids. */
  function Strip(cs: seq<Cycle>): (r: seq<NewCycle>)
    ensures |r| == |cs|
    ensures forall i :: 0 <= i < |cs| ==> r[i] == WithoutCycleId(cs[i])
  {
    seq(|cs|, i requires 0 <= i < |cs| => WithoutCycleId(cs[i]))
  }

  lemma StripStamped(base: nat, drafts: seq<NewCycle>)
    ensures Strip(Stamped(base, drafts)) == drafts
  {
  }

  /** Cycles of users other than `userId` agree in `m` and `r`: same keys, same values. */
  ghost predicate OthersAgree(m: IdMap<Cycle>, r: IdMap<Cycle>, userId: int) {
    && (forall k :: (k in r.entries && r.entries[k].userId != userId) <==>
                    (k in m.entries && m.entries[k].userId != userId))
    && (forall k :: k in m.entries && m.entries[k].userId != userId ==> r.entries[k] == m.entries[k])
  }

  /** Re-deriving keeps the map well keyed and leaves other users' cycles alone. With
      no runs nothing changes; otherwise the user's cycles, in map order, are the
      drafts under fresh consecutive ids, and none of the user's earlier cycles
      survives. */
  lemma RederiveSpec(m: IdMap<Cycle>, base: nat, userId: int, drafts: seq<NewCycle>)
    requires WellKeyed(m, base)
    requires forall i :: 0 <= i < |drafts| ==> drafts[i].userId == userId
    ensures var r := Rederive(m, base, userId, drafts);
      && WellKeyed(r, base + |drafts|)
      && OthersAgree(m, r, userId)
      && OfOthers(Values(r), userId) == OfOthers(Values(m), userId)
      && (drafts == [] ==> r == m)
      && (drafts != [] ==>
            && OfUser(Values(r), userId) == Stamped(base, drafts)
            && forall k :: k in m.entries && m.entries[k].userId == userId ==> k !in r.entries)
  {
    if drafts != [] {
      ReplacedKeys(m, base, userId, drafts);
      ReplacedUserCycles(m, base, userId, drafts);
      ReplacedOthersListed(m, base, userId, drafts);
      var r := Rederive(m, base, userId, drafts);
      forall k | base <= k < base + |drafts|
        ensures r.entries[k].userId == userId
      {
        assert r.entries[base + (k - base)] == WithCycleId(drafts[k - base], k);
      }
    }
  }

  /** Deriving again from the same logs changes nothing but ids: once the user's
      cycles, without their ids, are the drafts (as `RederiveSpec` and `StripStamped`
      show they are after a derivation), a further derivation leaves other users'
      cycles alone and the user's cycles the same up to ids. */
  lemma RederiveIdempotent(m: IdMap<Cycle>, next: nat, userId: int, drafts: seq<NewCycle>)
    requires WellKeyed(m, next)
    requires forall i :: 0 <= i < |drafts| ==> drafts[i].userId == userId
    requires drafts != [] && Strip(OfUser(Values(m), userId)) == drafts
    ensures OthersAgree(m, Rederive(m, next, userId, drafts), userId)
    ensures Strip(OfUser(Values(Rederive(m, next, userId, drafts)), userId)) == Strip(OfUser(Values(m), userId))
  {
    RederiveSpec(m, next, userId, drafts);
    StripStamped(next, drafts);
  }
}
