/**
 The permission schedulers.  Both classes of items use the same loops; they differ in
 whether the check of an item catches its own errors (announcements) or lets them end the
 run (wiki entries).
 */
module PermissionScheduler {
  import opened Wrappers
  import opened PermissionLogs

  const BATCH_SIZE := 10

  /**
   What a run does, in terms of the items and the SSO system: it closes the logs that are due
   and that it gets to, touches no other, and adds logs that record live items.
   */
  ghost predicate Ran(items: seq<Item>, before: seq<Log>, sso: Departments, now: nat, skipped: set<nat>,
                      added: seq<Log>, after: seq<Log>)
  {
    && |after| == |before| + |added| && after[|before|..] == added
    && (forall i :: 0 <= i < |before| ==>
          after[i] == if i !in skipped && Due(before[i], items, sso) then
                        before[i].(action := Resolved, resolvedAt := Some(now), resolvedBy := None)
                      else before[i])
    && (forall l :: l in added ==>
          exists i :: 0 <= i < |items| && !items[i].deleted && Records(l, items[i], sso))
  }

  lemma RunMeans(w: World, e: Event, w': World)
    requires e.Run? && Follows(w, e, w')
    ensures Ran(w.items, w.logs, e.sso, e.now, e.skipped, e.added, w'.logs)
  {
    RunRecords(w, e, w');
    forall i | 0 <= i < |w.logs|
      ensures w'.logs[i] == if i !in e.skipped && Due(w.logs[i], w.items, e.sso) then
                              w.logs[i].(action := Resolved, resolvedAt := Some(e.now), resolvedBy := None)
                            else w.logs[i]
    {
      RunClosesExactly(w, e, w', i);
    }
  }

  class Scheduler {
    var items: seq<Item>
    var logs: seq<Log>
    const catchesPerItem: bool

    constructor (items: seq<Item>, catchesPerItem: bool)
      ensures this.items == items && logs == [] && this.catchesPerItem == catchesPerItem
    {
      this.items, this.logs, this.catchesPerItem := items, [], catchesPerItem;
    }

    static method FindLive(items: seq<Item>) returns (list: seq<Item>)
      ensures list == LiveItems(items)
    {
      list := [];
      for i := 0 to |items|
        invariant list == LiveItems(items[..i])
      {
        assert items[..i + 1][..i] == items[..i];
        if !items[i].deleted {
          list := list + [items[i]];
        }
      }
      assert items[..|items|] == items;
    }

    static method CollectDepartmentIds(list: seq<Item>) returns (ids: set<Id>)
      ensures ids == Requested(list)
    {
      ids := {};
      for i := 0 to |list|
        invariant ids == set j, k | 0 <= j < i && 0 <= k < |DepartmentIds(list[j])| :: DepartmentIds(list[j])[k]
      {
        ids := ids + set k | 0 <= k < |DepartmentIds(list[i])| :: DepartmentIds(list[i])[k];
      }
    }

    /** Splits the departments of an item into valid and invalid ones. */
    static method SplitDepartments(ids: seq<Id>, m: Departments) returns (valid: seq<DeptRef>, invalid: seq<DeptRef>)
      ensures valid == ValidDepartments(ids, m) && invalid == InvalidDepartments(ids, m)
    {
      valid, invalid := [], [];
      for i := 0 to |ids|
        invariant valid == ValidDepartments(ids[..i], m) && invalid == InvalidDepartments(ids[..i], m)
      {
        var d := ids[i];
        assert ids[..i + 1][..i] == ids[..i];
        if d !in m {
          valid := valid + [DeptRef(d, None)];
        } else if !m[d].isActive {
          invalid := invalid + [DeptRef(d, Some(m[d].name))];
        } else {
          valid := valid + [DeptRef(d, Some(m[d].name))];
        }
      }
      assert ids[..|ids|] == ids;
    }

    /** The recorded departments of an open log are all known and active again. */
    static method AllReactivated(invalid: seq<DeptRef>, m: Departments) returns (all: bool)
      ensures all <==> forall r :: r in invalid ==> r.id in m && m[r.id].isActive
    {
      all := true;
      for i := 0 to |invalid|
        invariant all
        invariant forall k :: 0 <= k < i ==> invalid[k].id in m && m[invalid[k].id].isActive
      {
        if invalid[i].id !in m || !m[invalid[i].id].isActive {
          assert invalid[i] in invalid;
          return false;
        }
      }
    }

    /**
     Closes the open logs of the items in place.  The rows come in any order; reading them may
     fail, and the first failing update leaves the rest of them unread.
     */
    method Revalidate(list: seq<Item>, m: Departments, now: nat, readFails: bool, failing: set<nat>)
      returns (failed: bool, ghost skipped: set<nat>)
      modifies this`logs
      ensures logs == Revalidated(old(logs), IdsOf(list), m, now, skipped)
      ensures failed <==>
              readFails || exists i :: i in failing && i < |old(logs)| && Closes(old(logs)[i], IdsOf(list), m)
      ensures !failed ==> skipped == {}
    {
      var ids := IdsOf(list);
      ghost var before := logs;
      var todo := set i | 0 <= i < |logs| && Open(logs[i]) && logs[i].itemId in ids;
      failed, skipped := false, {};
      if readFails {
        skipped := todo;
        return true, skipped;
      }
      while todo != {}
        invariant |logs| == |before| && forall k :: k in todo ==> 0 <= k < |logs|
        invariant logs == Revalidated(before, ids, m, now, todo)
        invariant forall k :: 0 <= k < |before| && k in failing && Closes(before[k], ids, m) ==> k in todo
      {
        var i: nat :| i in todo;
        var l := logs[i];
        RevalidatedNext(before, ids, m, now, todo, i);
        if l.invalid.Some? && l.invalid.value != [] {
          var all := AllReactivated(l.invalid.value, m);
          if all {
            assert Closes(l, ids, m);
            if i in failing {
              return true, todo;
            }
            logs := logs[i := l.(action := Resolved, resolvedAt := Some(now), resolvedBy := None)];
          }
        }
        todo := todo - {i};
      }
    }

    /** One step of the check of `item`: the find, or the save that may follow it. */
    method StepOneCheck(phase: Phase, item: Item, m: Departments, o: Outage) returns (next: Phase, failed: bool)
      requires !phase.Finished?
      modifies this`logs
      ensures (logs, next) == StepCheck(old(logs), phase, item, m, o)
      ensures phase.Ready? ==>
                && logs == old(logs) && (next == NoneFound || next == Finished(false))
                && (next == NoneFound <==>
                     ListsInactive(item, m) && item.id !in o.find && !StillOpen(old(logs), item.id))
      ensures phase.NoneFound? ==> next == Finished(item.id !in o.save)
      ensures phase.NoneFound? ==>
                if item.id in o.save then logs == old(logs)
                else |logs| > 0 && logs[..|logs| - 1] == old(logs) && Records(logs[|logs| - 1], item, m)
      ensures failed ==> item.id in o.find + o.save
    {
      failed := false;
      AddsMeans(logs, item, m, o);
      StillOpenIsOpen(logs, item.id);
      NewLogRecords(item, m);
      var valid, invalid := SplitDepartments(DepartmentIds(item), m);
      if phase.Ready? {
        if |invalid| == 0 {
          return Finished(false), false;
        }
        if item.id in o.find {
          return Finished(false), true;
        }
        next := if HasOpen(logs, item.id) then Finished(false) else NoneFound;
      } else {
        if item.id in o.save {
          return Finished(false), true;
        }
        var snapshot := Permissions(item.rankIds, item.positionIds, valid + invalid);
        logs := logs + [Log(item.id, Detected, Some(invalid), snapshot, None, None)];
        next := Finished(true);
      }
    }

    /**
     The checks of one slice, all in progress at once: each turn of the loop lets any
     unfinished check do its next step.
     */
    method CheckBatch(batch: seq<Item>, m: Departments, o: Outage) returns (results: seq<bool>, failed: bool)
      requires DistinctIds(batch)
      modifies this`logs
      ensures old(logs) <= logs
      ensures multiset(logs) == multiset(old(logs)) + multiset(NewLogs(old(logs), batch, m, o))
      ensures |results| == |batch|
      ensures forall j :: 0 <= j < |batch| ==> results[j] == Adds(old(logs), batch[j], m, o)
      ensures AllRecord(logs[|old(logs)|..], batch, m)
      ensures forall j :: 0 <= j < |batch| ==>
                (results[j] <==> && ListsInactive(batch[j], m) && batch[j].id !in o.find + o.save
                                 && !StillOpen(old(logs), batch[j].id))
      ensures failed ==> exists j :: 0 <= j < |batch| && batch[j].id in o.find + o.save
    {
      var phases := StartBatch(logs, batch).phases;
      failed := false;
      StartKeepsBatch(logs, batch, m, o);
      while !AllFinished(Batch(logs, phases))
        invariant BatchInvariant(Batch(logs, phases), old(logs), batch, m, o)
        invariant failed ==> exists j :: 0 <= j < |batch| && batch[j].id in o.find + o.save
        decreases Remaining(phases)
      {
        var j :| 0 <= j < |phases| && !phases[j].Finished?;
        StepKeepsBatch(Batch(logs, phases), old(logs), batch, m, o, j);
        StepLeavesFewer(logs, phases, batch[j], m, o, j);
        var next, rejected := StepOneCheck(phases[j], batch[j], m, o);
        phases := phases[j := next];
        failed := failed || rejected;
      }
      FinishedBatch(Batch(logs, phases), old(logs), batch, m, o);
      BatchRecords(old(logs), logs, batch, m, o);
      forall j | 0 <= j < |batch| {
        AddsMeans(old(logs), batch[j], m, o);
      }
      results := seq(|batch|, j requires 0 <= j < |batch| => phases[j] == Finished(true));
    }

    static method Count(results: seq<bool>) returns (n: nat)
      ensures n == CountTrue(results)
    {
      n := 0;
      for k := 0 to |results|
        invariant n == CountTrue(results[..k])
      {
        assert results[..k + 1][..k] == results[..k];
        if results[k] {
          n := n + 1;
        }
      }
      assert results[..|results|] == results;
    }

    /** A slice has ten items, the last one what is left. */
    static method SliceEnd(n: nat, i: nat) returns (end: nat)
      requires i < n
      ensures end == if n - i < 10 then n else i + 10
    {
      end := if i + BATCH_SIZE <= n then i + BATCH_SIZE else n;
    }

    /**
     The slices, one after another.  The checks reach the first `upTo` items; unless an error
     ends the run these are all items, and the two counters are exact.
     */
    method CheckInSlices(list: seq<Item>, m: Departments, o: Outage)
      returns (processedCount: nat, invalidCount: nat, ghost upTo: nat, ghost added: seq<Log>)
      requires DistinctIds(list)
      modifies this`logs
      ensures logs == old(logs) + added && upTo <= |list|
      ensures multiset(added) == multiset(NewLogs(old(logs), list[..upTo], m, o))
      ensures AllRecord(added, list, m)
      ensures catchesPerItem || o == NO_OUTAGE ==> upTo == processedCount == |list| && invalidCount == |added|
    {
      processedCount, invalidCount, upTo, added := 0, 0, 0, [];
      ghost var base := logs;
      var i := 0;
      while i < |list|
        invariant 0 <= i <= |list|
        invariant upTo == processedCount == i && invalidCount == |added|
        invariant logs == base + added
        invariant multiset(added) == multiset(NewLogs(base, list[..i], m, o))
      {
        var end := SliceEnd(|list|, i);
        var batch := list[i..end];
        SliceOf(list, i, end);
        var results, failed := CheckBatch(batch, m, o);
        SliceAdds(base, added, logs, list[..i], batch, m, o);
        CountIsNewLogs(base + added, batch, m, o, results);
        assert |logs[|base|..]| == |added| + CountTrue(results);
        added, upTo := logs[|base|..], end;
        if failed && !catchesPerItem {
          NewLogsRecord(base, list, upTo, m, o, added);
          return;
        }
        var hits := Count(results);
        invalidCount, processedCount := invalidCount + hits, processedCount + |results|;
        i := end;
      }
      NewLogsRecord(base, list, upTo, m, o, added);
    }

    /** The steps of a run: ask the SSO system once, revalidate the open logs, then check the items. */
    method Perform(sso: Departments, o: Outage, now: nat, readFails: bool, failing: set<nat>)
      returns (processedCount: nat, invalidCount: nat, ghost skipped: set<nat>, ghost upTo: nat,
               ghost added: seq<Log>)
      requires DistinctIds(LiveItems(items))
      modifies this`logs
      ensures Follows(World(items, old(logs)), Event.Run(sso, o, now, skipped, upTo, added), World(items, logs))
      ensures catchesPerItem || (o == NO_OUTAGE && !readFails && failing == {}) ==>
                upTo == processedCount == |LiveItems(items)| && invalidCount == |added|
      ensures !readFails && failing == {} ==> skipped == {}
    {
      processedCount, invalidCount, skipped, upTo, added := 0, 0, {}, 0, [];
      var list := FindLive(items);
      if |list| == 0 {
        assert Revalidated(logs, IdsOf(list), Fetched(list, sso), now, {}) == logs == logs + added;
        return;
      }
      var requested := CollectDepartmentIds(list);
      var m: Departments := map[];
      if |requested| > 0 {
        m := map d | d in requested && d in sso :: sso[d];
      }
      assert m == Fetched(list, sso);
      var failed;
      failed, skipped := Revalidate(list, m, now, readFails, failing);
      if failed && !catchesPerItem {
        assert logs == logs + added;
        return;
      }
      processedCount, invalidCount, upTo, added := CheckInSlices(list, m, o);
    }

    /** One run. */
    method Run(sso: Departments, o: Outage, now: nat, readFails: bool, failing: set<nat>)
      returns (processedCount: nat, invalidCount: nat, ghost skipped: set<nat>, ghost upTo: nat,
               ghost added: seq<Log>)
      requires DistinctIds(LiveItems(items))
      modifies this`logs
      ensures Follows(World(items, old(logs)), Event.Run(sso, o, now, skipped, upTo, added), World(items, logs))
      ensures Ran(items, old(logs), sso, now, skipped, added, logs)
      ensures catchesPerItem || (o == NO_OUTAGE && !readFails && failing == {}) ==>
                upTo == processedCount == |LiveItems(items)| && invalidCount == |added|
      ensures !readFails && failing == {} ==> skipped == {}
    {
      ghost var before := logs;
      processedCount, invalidCount, skipped, upTo, added := Perform(sso, o, now, readFails, failing);
      RunMeans(World(items, before), Event.Run(sso, o, now, skipped, upTo, added), World(items, logs));
    }
  }
}
