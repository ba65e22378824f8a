/**
 The log of inactive departments kept for announcements and for wiki entries: what one
 scheduler run does to it, in which orders its parallel checks may interleave, and what
 every history of runs, edits and replacements keeps.
 */
module PermissionLogs {
  import opened Wrappers

  type Id = nat

  /** One department in the answer of the SSO system; a department it does not know is not in the map. */
  datatype Info = Info(name: string, isActive: bool)

  type Departments = map<Id, Info>

  datatype Item = Item(
    id: Id,
    deleted: bool,
    rankIds: Option<seq<Id>>,
    positionIds: Option<seq<Id>>,
    departmentIds: Option<seq<Id>>,
    employeeIds: Option<seq<Id>>)

  datatype DeptRef = DeptRef(id: Id, name: Option<string>)

  datatype Action = Detected | Removed | Notified | Resolved

  datatype Permissions = Permissions(rankIds: Option<seq<Id>>, positionIds: Option<seq<Id>>, departments: seq<DeptRef>)

  datatype Log = Log(
    itemId: Id,
    action: Action,
    invalid: Option<seq<DeptRef>>,
    snapshot: Permissions,
    resolvedAt: Option<nat>,
    resolvedBy: Option<Id>)

  /** The logs that the scheduler looks for. */
  predicate Open(l: Log) {
    l.action.Detected? && l.resolvedAt.None?
  }

  predicate HasOpen(logs: seq<Log>, id: Id) {
    exists i | 0 <= i < |logs| :: Open(logs[i]) && logs[i].itemId == id
  }

  ghost predicate AtMostOneOpen(logs: seq<Log>) {
    forall i, j :: 0 <= i < j < |logs| && Open(logs[i]) && Open(logs[j]) ==> logs[i].itemId != logs[j].itemId
  }

  predicate DistinctIds(list: seq<Item>) {
    forall i, j :: 0 <= i < j < |list| ==> list[i].id != list[j].id
  }

  function LiveItems(items: seq<Item>): seq<Item> {
    if items == [] then []
    else LiveItems(items[..|items| - 1]) + if items[|items| - 1].deleted then [] else [items[|items| - 1]]
  }

  function IdsOf(list: seq<Item>): set<Id> {
    set i | 0 <= i < |list| :: list[i].id
  }

  // ---- what the run asks and learns ----

  function DepartmentIds(item: Item): seq<Id> {
    if item.departmentIds.Some? then item.departmentIds.value else []
  }

  function Requested(list: seq<Item>): set<Id> {
    set i, k | 0 <= i < |list| && 0 <= k < |DepartmentIds(list[i])| :: DepartmentIds(list[i])[k]
  }

  /** What the SSO system knows about the departments it is asked for. */
  function Fetched(list: seq<Item>, sso: Departments): Departments {
    map d | d in Requested(list) && d in sso :: sso[d]
  }

  // ---- classifying the departments of an item ----

  function InvalidDepartments(ids: seq<Id>, m: Departments): seq<DeptRef> {
    if ids == [] then []
    else
      var d := ids[|ids| - 1];
      InvalidDepartments(ids[..|ids| - 1], m)
      + if d in m && !m[d].isActive then [DeptRef(d, Some(m[d].name))] else []
  }

  /** A department that the SSO system does not know counts as valid. */
  function ValidDepartments(ids: seq<Id>, m: Departments): seq<DeptRef> {
    if ids == [] then []
    else
      var d := ids[|ids| - 1];
      ValidDepartments(ids[..|ids| - 1], m)
      + if d !in m then [DeptRef(d, None)]
        else if m[d].isActive then [DeptRef(d, Some(m[d].name))] else []
  }

  /** A log is called for exactly if some listed department is known and inactive. */
  predicate HasInactive(item: Item, m: Departments) {
    exists d | d in DepartmentIds(item) :: d in m && !m[d].isActive
  }

  lemma {:induction false} InvalidAreInactive(ids: seq<Id>, m: Departments)
    ensures forall r :: r in InvalidDepartments(ids, m) ==>
              r.id in ids && r.id in m && !m[r.id].isActive && r.name == Some(m[r.id].name)
    ensures forall d :: d in ids && d in m && !m[d].isActive ==>
              DeptRef(d, Some(m[d].name)) in InvalidDepartments(ids, m)
  {
    if ids != [] {
      var front, d := ids[..|ids| - 1], ids[|ids| - 1];
      InvalidAreInactive(front, m);
      assert ids == front + [d];
    }
  }

  function RefIds(refs: seq<DeptRef>): multiset<Id> {
    if refs == [] then multiset{} else RefIds(refs[..|refs| - 1]) + multiset{refs[|refs| - 1].id}
  }

  lemma RefIdsLast(refs: seq<DeptRef>, r: DeptRef)
    ensures RefIds(refs + [r]) == RefIds(refs) + multiset{r.id}
  {
    assert (refs + [r])[..|refs|] == refs;
  }

  /** Where the last department goes. */
  lemma ClassifiesLast(ids: seq<Id>, m: Departments)
    requires ids != []
    ensures var front, d := ids[..|ids| - 1], ids[|ids| - 1];
            if d in m && !m[d].isActive then
              && ValidDepartments(ids, m) == ValidDepartments(front, m)
              && InvalidDepartments(ids, m) == InvalidDepartments(front, m) + [DeptRef(d, Some(m[d].name))]
            else
              && InvalidDepartments(ids, m) == InvalidDepartments(front, m)
              && ValidDepartments(ids, m) ==
                 ValidDepartments(front, m) + [DeptRef(d, if d in m then Some(m[d].name) else None)]
  {
  }

  lemma MultisetOfLast(ids: seq<Id>)
    requires ids != []
    ensures multiset(ids) == multiset(ids[..|ids| - 1]) + multiset{ids[|ids| - 1]}
  {
    assert ids == ids[..|ids| - 1] + [ids[|ids| - 1]];
  }

  /** One more department in one of two lists. */
  lemma PartitionGrows(a: seq<DeptRef>, b: seq<DeptRef>, r: DeptRef)
    ensures RefIds(a + [r]) + RefIds(b) == RefIds(a) + RefIds(b) + multiset{r.id}
    ensures RefIds(a) + RefIds(b + [r]) == RefIds(a) + RefIds(b) + multiset{r.id}
  {
    RefIdsLast(a, r);
    RefIdsLast(b, r);
  }

  /** Every listed department goes to exactly one of the two lists. */
  lemma {:induction false} ClassificationPartitions(ids: seq<Id>, m: Departments)
    ensures RefIds(ValidDepartments(ids, m)) + RefIds(InvalidDepartments(ids, m)) == multiset(ids)
  {
    if ids != [] {
      var front, d := ids[..|ids| - 1], ids[|ids| - 1];
      ClassificationPartitions(front, m);
      ClassifiesLast(ids, m);
      MultisetOfLast(ids);
      PartitionGrows(ValidDepartments(front, m), InvalidDepartments(front, m),
                     DeptRef(d, if d in m then Some(m[d].name) else None));
    }
  }

  predicate NeedsLog(item: Item, m: Departments) {
    InvalidDepartments(DepartmentIds(item), m) != []
  }

  lemma NeedsLogIffInactive(item: Item, m: Departments)
    ensures NeedsLog(item, m) <==> HasInactive(item, m)
  {
    var ids := DepartmentIds(item);
    InvalidAreInactive(ids, m);
    var refs := InvalidDepartments(ids, m);
    if refs != [] {
      assert refs[0] in refs;
    }
  }

  function NewLog(item: Item, m: Departments): Log {
    var invalid := InvalidDepartments(DepartmentIds(item), m);
    var valid := ValidDepartments(DepartmentIds(item), m);
    Log(item.id, Detected, Some(invalid), Permissions(item.rankIds, item.positionIds, valid + invalid), None, None)
  }

  // ---- what a new log records ----

  /** The ids of some departments, with multiplicity. */
  function IdBag(refs: seq<DeptRef>): multiset<Id> {
    multiset(seq(|refs|, i requires 0 <= i < |refs| => refs[i].id))
  }

  /** An open log of this item: its known inactive departments, and its permissions with all departments. */
  ghost predicate Records(l: Log, item: Item, m: Departments) {
    var listed := if item.departmentIds.Some? then multiset(item.departmentIds.value) else multiset{};
    && l.itemId == item.id && l.action == Detected && l.resolvedAt == None && l.resolvedBy == None
    && l.invalid.Some?
    && (forall r :: r in l.invalid.value ==> r.id in m && !m[r.id].isActive && r.name == Some(m[r.id].name))
    && (forall d :: IdBag(l.invalid.value)[d] == if d in m && !m[d].isActive then listed[d] else 0)
    && l.snapshot.rankIds == item.rankIds && l.snapshot.positionIds == item.positionIds
    && (forall r :: r in l.snapshot.departments ==> r.name == if r.id in m then Some(m[r.id].name) else None)
    && IdBag(l.snapshot.departments) == listed
  }

  lemma {:induction false} RefIdsIsBag(refs: seq<DeptRef>)
    ensures RefIds(refs) == IdBag(refs)
  {
    if refs != [] {
      var front, last := refs[..|refs| - 1], refs[|refs| - 1];
      RefIdsIsBag(front);
      var a, b := seq(|refs|, i requires 0 <= i < |refs| => refs[i].id),
                  seq(|front|, i requires 0 <= i < |front| => front[i].id);
      assert a == b + [last.id];
    }
  }

  lemma IdBagAppend(a: seq<DeptRef>, b: seq<DeptRef>)
    ensures IdBag(a + b) == IdBag(a) + IdBag(b)
  {
    assert seq(|a + b|, i requires 0 <= i < |a + b| => (a + b)[i].id)
        == seq(|a|, i requires 0 <= i < |a| => a[i].id) + seq(|b|, i requires 0 <= i < |b| => b[i].id);
  }

  lemma {:induction false} NamesAreKnown(ids: seq<Id>, m: Departments)
    ensures forall r :: r in ValidDepartments(ids, m) ==>
              && (r.id in m ==> m[r.id].isActive)
              && r.name == if r.id in m then Some(m[r.id].name) else None
    ensures forall r :: r in InvalidDepartments(ids, m) ==>
              r.id in m && !m[r.id].isActive && r.name == Some(m[r.id].name)
  {
    if ids != [] {
      NamesAreKnown(ids[..|ids| - 1], m);
    }
  }

  lemma {:induction false} InvalidCount(ids: seq<Id>, m: Departments, d: Id)
    ensures RefIds(InvalidDepartments(ids, m))[d] == if d in m && !m[d].isActive then multiset(ids)[d] else 0
  {
    if ids != [] {
      var front, last := ids[..|ids| - 1], ids[|ids| - 1];
      InvalidCount(front, m, d);
      ClassifiesLast(ids, m);
      MultisetOfLast(ids);
      if last in m && !m[last].isActive {
        RefIdsLast(InvalidDepartments(front, m), DeptRef(last, Some(m[last].name)));
      }
    }
  }

  /** This is what a new log records. */
  lemma NewLogRecords(item: Item, m: Departments)
    ensures Records(NewLog(item, m), item, m)
  {
    var ids := DepartmentIds(item);
    var valid, invalid := ValidDepartments(ids, m), InvalidDepartments(ids, m);
    NamesAreKnown(ids, m);
    ClassificationPartitions(ids, m);
    IdBagAppend(valid, invalid);
    RefIdsIsBag(valid);
    RefIdsIsBag(invalid);
    forall d ensures IdBag(invalid)[d] == if d in m && !m[d].isActive then multiset(ids)[d] else 0 {
      InvalidCount(ids, m, d);
    }
  }

  ghost predicate AllRecord(added: seq<Log>, list: seq<Item>, m: Departments) {
    forall l :: l in added ==> exists j :: 0 <= j < |list| && Records(l, list[j], m)
  }

  // ---- revalidating the open logs ----

  predicate Reactivated(l: Log, m: Departments) {
    && l.invalid.Some? && l.invalid.value != []
    && forall r | r in l.invalid.value :: r.id in m && m[r.id].isActive
  }

  predicate Closes(l: Log, ids: set<Id>, m: Departments) {
    Open(l) && l.itemId in ids && Reactivated(l, m)
  }

  function Closed(l: Log, now: nat): Log {
    l.(action := Resolved, resolvedAt := Some(now), resolvedBy := None)
  }

  /** The logs after revalidation, which did not get to the rows in `skipped`. */
  function Revalidated(logs: seq<Log>, ids: set<Id>, m: Departments, now: nat, skipped: set<nat>): (r: seq<Log>)
    ensures |r| == |logs|
  {
    seq(|logs|, i requires 0 <= i < |logs| =>
      if i !in skipped && Closes(logs[i], ids, m) then Closed(logs[i], now) else logs[i])
  }

  /** Revalidating one more row. */
  lemma RevalidatedNext(logs: seq<Log>, ids: set<Id>, m: Departments, now: nat, todo: set<nat>, i: nat)
    requires i in todo && i < |logs|
    ensures Revalidated(logs, ids, m, now, todo)[i] == logs[i]
    ensures Revalidated(logs, ids, m, now, todo - {i}) ==
            if Closes(logs[i], ids, m) then Revalidated(logs, ids, m, now, todo)[i := Closed(logs[i], now)]
            else Revalidated(logs, ids, m, now, todo)
  {
  }

  // ---- checking the items ----

  /** The items whose find or save call fails. */
  datatype Outage = Outage(find: set<Id>, save: set<Id>)

  const NO_OUTAGE := Outage({}, {})

  /** A check that runs alone on these logs creates a log. */
  predicate Adds(logs: seq<Log>, item: Item, m: Departments, o: Outage) {
    NeedsLog(item, m) && item.id !in o.find && !HasOpen(logs, item.id) && item.id !in o.save
  }

  /** The item lists a department that is known and inactive. */
  ghost predicate ListsInactive(item: Item, sso: Departments) {
    item.departmentIds.Some? &&
    exists k :: 0 <= k < |item.departmentIds.value| &&
                item.departmentIds.value[k] in sso && !sso[item.departmentIds.value[k]].isActive
  }

  /** One of these logs is an open one of the item. */
  ghost predicate StillOpen(logs: seq<Log>, id: Id) {
    exists i :: 0 <= i < |logs| && logs[i].itemId == id && logs[i].action == Detected && logs[i].resolvedAt == None
  }

  lemma StillOpenIsOpen(logs: seq<Log>, id: Id)
    ensures HasOpen(logs, id) <==> StillOpen(logs, id)
  {
  }

  /** When a check that runs alone creates a log. */
  lemma AddsMeans(logs: seq<Log>, item: Item, m: Departments, o: Outage)
    ensures NeedsLog(item, m) <==> ListsInactive(item, m)
    ensures Adds(logs, item, m, o) <==>
            ListsInactive(item, m) && item.id !in o.find && item.id !in o.save && !StillOpen(logs, item.id)
  {
    NeedsLogIffInactive(item, m);
    StillOpenIsOpen(logs, item.id);
    if d :| d in DepartmentIds(item) && d in m && !m[d].isActive {
      var k :| 0 <= k < |DepartmentIds(item)| && DepartmentIds(item)[k] == d;
      assert item.departmentIds.value[k] == d;
    }
    if ListsInactive(item, m) {
      var k :| 0 <= k < |item.departmentIds.value| && item.departmentIds.value[k] in m
               && !m[item.departmentIds.value[k]].isActive;
      assert item.departmentIds.value[k] in DepartmentIds(item);
    }
  }

  /** Checking the items one after another. */
  function CheckAll(logs: seq<Log>, list: seq<Item>, m: Departments, o: Outage): seq<Log> {
    if list == [] then logs
    else
      var before := CheckAll(logs, list[..|list| - 1], m, o);
      var item := list[|list| - 1];
      if Adds(before, item, m, o) then before + [NewLog(item, m)] else before
  }

  function LogFor(logs: seq<Log>, item: Item, m: Departments, o: Outage): seq<Log> {
    if Adds(logs, item, m, o) then [NewLog(item, m)] else []
  }

  /** The logs created for items that had no open log at the start. */
  function NewLogs(logs: seq<Log>, list: seq<Item>, m: Departments, o: Outage): seq<Log> {
    if list == [] then []
    else
      var item := list[|list| - 1];
      NewLogs(logs, list[..|list| - 1], m, o) + LogFor(logs, item, m, o)
  }

  lemma NewLogsLast(logs: seq<Log>, front: seq<Item>, item: Item, m: Departments, o: Outage)
    ensures NewLogs(logs, front + [item], m, o)
            == NewLogs(logs, front, m, o) + LogFor(logs, item, m, o)
  {
    assert (front + [item])[..|front|] == front;
  }

  lemma {:induction false} NewLogComesFrom(logs: seq<Log>, list: seq<Item>, m: Departments, o: Outage, l: Log)
    requires l in NewLogs(logs, list, m, o)
    ensures exists j :: 0 <= j < |list| && Adds(logs, list[j], m, o) && l == NewLog(list[j], m)
  {
    var n := |list| - 1;
    if l in NewLogs(logs, list[..n], m, o) {
      NewLogComesFrom(logs, list[..n], m, o, l);
      var j :| 0 <= j < n && Adds(logs, list[..n][j], m, o) && l == NewLog(list[..n][j], m);
      assert list[j] == list[..n][j];
    } else {
      assert Adds(logs, list[n], m, o) && l == NewLog(list[n], m);
    }
  }

  lemma {:induction false} NewLogIsThere(logs: seq<Log>, list: seq<Item>, m: Departments, o: Outage, j: nat)
    requires j < |list| && Adds(logs, list[j], m, o)
    ensures NewLog(list[j], m) in NewLogs(logs, list, m, o)
  {
    if j < |list| - 1 {
      NewLogIsThere(logs, list[..|list| - 1], m, o, j);
    }
  }

  lemma NewLogsAreOpen(logs: seq<Log>, list: seq<Item>, m: Departments, o: Outage)
    ensures forall l :: l in NewLogs(logs, list, m, o) ==>
              Open(l) && exists j :: 0 <= j < |list| && Adds(logs, list[j], m, o) && l == NewLog(list[j], m)
    ensures forall j :: 0 <= j < |list| && Adds(logs, list[j], m, o) ==> NewLog(list[j], m) in NewLogs(logs, list, m, o)
  {
    forall l | l in NewLogs(logs, list, m, o)
      ensures exists j :: 0 <= j < |list| && Adds(logs, list[j], m, o) && l == NewLog(list[j], m)
    {
      NewLogComesFrom(logs, list, m, o, l);
    }
    forall j | 0 <= j < |list| && Adds(logs, list[j], m, o)
      ensures NewLog(list[j], m) in NewLogs(logs, list, m, o)
    {
      NewLogIsThere(logs, list, m, o, j);
    }
  }

  /** No log of this item is created by checking a list that does not hold the item. */
  lemma NoNewLogForOthers(logs: seq<Log>, list: seq<Item>, m: Departments, o: Outage, id: Id)
    requires forall j :: 0 <= j < |list| ==> list[j].id != id
    ensures !HasOpen(NewLogs(logs, list, m, o), id)
  {
    NewLogsAreOpen(logs, list, m, o);
    var added := NewLogs(logs, list, m, o);
    forall i | 0 <= i < |added| ensures added[i].itemId != id {
      assert added[i] in added;
    }
  }

  lemma HasOpenAppend(a: seq<Log>, b: seq<Log>, id: Id)
    ensures HasOpen(a + b, id) <==> HasOpen(a, id) || HasOpen(b, id)
  {
    if i :| 0 <= i < |a| && Open(a[i]) && a[i].itemId == id {
      assert (a + b)[i] == a[i];
    }
    if i :| 0 <= i < |b| && Open(b[i]) && b[i].itemId == id {
      assert (a + b)[|a| + i] == b[i];
    }
    if i :| 0 <= i < |a + b| && Open((a + b)[i]) && (a + b)[i].itemId == id {
      assert (a + b)[i] == if i < |a| then a[i] else b[i - |a|];
    }
  }

  lemma NewLogsRecord(logs: seq<Log>, list: seq<Item>, upTo: nat, m: Departments, o: Outage, added: seq<Log>)
    requires upTo <= |list| && multiset(added) == multiset(NewLogs(logs, list[..upTo], m, o))
    ensures AllRecord(added, list[..upTo], m) && AllRecord(added, list, m)
  {
    forall l | l in added ensures exists j :: 0 <= j < upTo && Records(l, list[..upTo][j], m) {
      assert l in multiset(NewLogs(logs, list[..upTo], m, o));
      assert l in NewLogs(logs, list[..upTo], m, o);
      NewLogComesFrom(logs, list[..upTo], m, o, l);
      var j :| 0 <= j < |list[..upTo]| && Adds(logs, list[..upTo][j], m, o) && l == NewLog(list[..upTo][j], m);
      NewLogRecords(list[j], m);
    }
  }

  lemma BatchRecords(before: seq<Log>, after: seq<Log>, list: seq<Item>, m: Departments, o: Outage)
    requires before <= after && multiset(after) == multiset(before) + multiset(NewLogs(before, list, m, o))
    ensures AllRecord(after[|before|..], list, m)
  {
    assert before[|before|..] == [];
    assert list[..|list|] == list;
    MultisetOfRest(before, before, after, multiset(NewLogs(before, list, m, o)));
    NewLogsRecord(before, list, |list|, m, o, after[|before|..]);
  }

  /** For distinct items the order of the checks does not matter: each looks only at its own logs. */
  lemma {:induction false} SequentialChecksAdd(logs: seq<Log>, list: seq<Item>, m: Departments, o: Outage)
    requires DistinctIds(list)
    ensures CheckAll(logs, list, m, o) == logs + NewLogs(logs, list, m, o)
  {
    if list != [] {
      var front, item := list[..|list| - 1], list[|list| - 1];
      SequentialChecksAdd(logs, front, m, o);
      NoNewLogForOthers(logs, front, m, o, item.id);
      HasOpenAppend(logs, NewLogs(logs, front, m, o), item.id);
    }
  }

  // ---- parallel checks ----

  /** A check does its find, then perhaps its save; other checks may run in between. */
  datatype Phase = Ready | NoneFound | Finished(created: bool)

  datatype Batch = Batch(logs: seq<Log>, phases: seq<Phase>)

  predicate Fits(b: Batch, list: seq<Item>) {
    |b.phases| == |list|
  }

  predicate AllFinished(b: Batch) {
    forall j :: 0 <= j < |b.phases| ==> b.phases[j].Finished?
  }

  function StartBatch(logs: seq<Log>, list: seq<Item>): Batch {
    Batch(logs, seq(|list|, i => Ready))
  }

  /** The next step of one check; a failed call ends it without a log. */
  function StepCheck(logs: seq<Log>, phase: Phase, item: Item, m: Departments, o: Outage): (seq<Log>, Phase) {
    match phase
    case Ready =>
      if !NeedsLog(item, m) || item.id in o.find || HasOpen(logs, item.id) then (logs, Finished(false))
      else (logs, NoneFound)
    case NoneFound =>
      if item.id in o.save then (logs, Finished(false))
      else (logs + [NewLog(item, m)], Finished(true))
    case Finished(_) => (logs, phase)
  }

  function StepTask(b: Batch, list: seq<Item>, m: Departments, o: Outage, j: nat): Batch
    requires Fits(b, list) && j < |list|
  {
    var (logs, phase) := StepCheck(b.logs, b.phases[j], list[j], m, o);
    Batch(logs, b.phases[j := phase])
  }

  /** Steps that are still to be done. */
  function Remaining(phases: seq<Phase>): nat {
    if phases == [] then 0
    else
      Remaining(phases[..|phases| - 1])
      + match phases[|phases| - 1] case Ready => 2 case NoneFound => 1 case Finished(_) => 0
  }

  lemma {:induction false} StepLeavesFewer(logs: seq<Log>, phases: seq<Phase>, item: Item, m: Departments, o: Outage,
      j: nat)
    requires j < |phases| && !phases[j].Finished?
    ensures Remaining(phases[j := StepCheck(logs, phases[j], item, m, o).1]) < Remaining(phases)
  {
    var k := |phases| - 1;
    var phases' := phases[j := StepCheck(logs, phases[j], item, m, o).1];
    if j == k {
      assert phases'[..k] == phases[..k];
    } else {
      StepLeavesFewer(logs, phases[..k], item, m, o, j);
      assert phases'[..k] == phases[..k][j := phases'[j]];
    }
  }

  function SavedBy(item: Item, phase: Phase, m: Departments): multiset<Log> {
    if phase == Finished(true) then multiset{NewLog(item, m)} else multiset{}
  }

  /** The logs saved so far. */
  function Saved(list: seq<Item>, phases: seq<Phase>, m: Departments): multiset<Log>
    requires |list| == |phases|
  {
    if list == [] then multiset{}
    else
      var k := |list| - 1;
      Saved(list[..k], phases[..k], m) + SavedBy(list[k], phases[k], m)
  }

  ghost predicate BatchInvariant(b: Batch, logs: seq<Log>, list: seq<Item>, m: Departments, o: Outage) {
    && Fits(b, list)
    && logs <= b.logs
    && multiset(b.logs) == multiset(logs) + Saved(list, b.phases, m)
    && (forall j :: 0 <= j < |list| ==> PhaseInvariant(b, logs, list, m, o, j))
  }

  ghost predicate PhaseInvariant(b: Batch, logs: seq<Log>, list: seq<Item>, m: Departments, o: Outage, j: nat)
    requires Fits(b, list) && j < |list|
  {
    var item := list[j];
    && (HasOpen(b.logs, item.id) <==> HasOpen(logs, item.id) || b.phases[j] == Finished(true))
    && match b.phases[j]
       case Ready => true
       case NoneFound => NeedsLog(item, m) && item.id !in o.find && !HasOpen(logs, item.id)
       case Finished(created) => created == Adds(logs, item, m, o)
  }

  lemma {:induction false} SavedUnchanged(list: seq<Item>, a: seq<Phase>, b: seq<Phase>, m: Departments)
    requires |list| == |a| == |b|
    requires forall i :: 0 <= i < |list| ==> (a[i] == Finished(true) <==> b[i] == Finished(true))
    ensures Saved(list, a, m) == Saved(list, b, m)
  {
    if list != [] {
      var k := |list| - 1;
      SavedUnchanged(list[..k], a[..k], b[..k], m);
    }
  }

  lemma SavedUnfolds(list: seq<Item>, a: seq<Phase>, m: Departments)
    requires |list| == |a| > 0
    ensures var k := |list| - 1;
            Saved(list, a, m) == Saved(list[..k], a[..k], m) + SavedBy(list[k], a[k], m)
  {
  }

  lemma SumAssociative(a: multiset<Log>, b: multiset<Log>, c: multiset<Log>)
    ensures (a + b) + c == a + (b + c)
  {
  }

  lemma SwapLast(a: multiset<Log>, b: multiset<Log>, c: multiset<Log>)
    ensures (a + b) + c == (a + c) + b
  {
  }

  lemma {:induction false} SavedGrows(list: seq<Item>, a: seq<Phase>, b: seq<Phase>, m: Departments, j: nat)
    requires j < |list| == |a| && a[j] != Finished(true) && b == a[j := Finished(true)]
    ensures Saved(list, b, m) == Saved(list, a, m) + SavedBy(list[j], Finished(true), m)
  {
    var k := |list| - 1;
    SavedUnfolds(list, a, m);
    SavedUnfolds(list, b, m);
    if j == k {
      assert b[..k] == a[..k];
      assert SavedBy(list[k], a[k], m) == multiset{};
    } else {
      assert b[..k] == a[..k][j := Finished(true)];
      assert list[..k][j] == list[j];
      SavedGrows(list[..k], a[..k], b[..k], m, j);
      SwapLast(Saved(list[..k], a[..k], m), SavedBy(list[j], Finished(true), m), SavedBy(list[k], a[k], m));
    }
  }

  lemma HasOpenAfterSave(logs: seq<Log>, item: Item, m: Departments, id: Id)
    ensures HasOpen(logs + [NewLog(item, m)], id) <==> HasOpen(logs, id) || item.id == id
  {
    HasOpenAppend(logs, [NewLog(item, m)], id);
    assert [NewLog(item, m)][0] == NewLog(item, m);
  }

  lemma SaveKeepsPhase(b: Batch, logs: seq<Log>, list: seq<Item>, m: Departments, o: Outage, j: nat, i: nat)
    requires Fits(b, list) && DistinctIds(list) && j < |list| && i < |list|
    requires PhaseInvariant(b, logs, list, m, o, j) && PhaseInvariant(b, logs, list, m, o, i)
    requires b.phases[j].NoneFound? && list[j].id !in o.save
    ensures PhaseInvariant(Batch(b.logs + [NewLog(list[j], m)], b.phases[j := Finished(true)]), logs, list, m, o, i)
  {
    HasOpenAfterSave(b.logs, list[j], m, list[i].id);
  }

  lemma SaveKeepsBatch(b: Batch, logs: seq<Log>, list: seq<Item>, m: Departments, o: Outage, j: nat)
    requires BatchInvariant(b, logs, list, m, o) && DistinctIds(list) && j < |list|
    requires b.phases[j].NoneFound? && list[j].id !in o.save
    ensures BatchInvariant(Batch(b.logs + [NewLog(list[j], m)], b.phases[j := Finished(true)]), logs, list, m, o)
  {
    var b' := Batch(b.logs + [NewLog(list[j], m)], b.phases[j := Finished(true)]);
    SavedGrows(list, b.phases, b'.phases, m, j);
    var l := SavedBy(list[j], Finished(true), m);
    assert multiset(b'.logs) == multiset(b.logs) + l;
    SumAssociative(multiset(logs), Saved(list, b.phases, m), l);
    assert PhaseInvariant(b, logs, list, m, o, j);
    forall i | 0 <= i < |list| ensures PhaseInvariant(b', logs, list, m, o, i) {
      SaveKeepsPhase(b, logs, list, m, o, j, i);
    }
  }

  lemma QuietStepKeepsBatch(b: Batch, logs: seq<Log>, list: seq<Item>, m: Departments, o: Outage, j: nat, phase: Phase)
    requires BatchInvariant(b, logs, list, m, o) && j < |list|
    requires b.phases[j] != Finished(true) && phase != Finished(true)
    requires PhaseInvariant(b.(phases := b.phases[j := phase]), logs, list, m, o, j)
    ensures BatchInvariant(b.(phases := b.phases[j := phase]), logs, list, m, o)
  {
    var b' := b.(phases := b.phases[j := phase]);
    SavedUnchanged(list, b.phases, b'.phases, m);
    forall i | 0 <= i < |list| ensures PhaseInvariant(b', logs, list, m, o, i) {
      assert PhaseInvariant(b, logs, list, m, o, i);
    }
  }

  /** Any step of any check keeps the invariant. */
  lemma StepKeepsBatch(b: Batch, logs: seq<Log>, list: seq<Item>, m: Departments, o: Outage, j: nat)
    requires BatchInvariant(b, logs, list, m, o) && DistinctIds(list) && j < |list|
    ensures BatchInvariant(StepTask(b, list, m, o, j), logs, list, m, o)
  {
    assert PhaseInvariant(b, logs, list, m, o, j);
    if b.phases[j].Finished? {
      assert StepTask(b, list, m, o, j) == b;
    } else if b.phases[j].NoneFound? && list[j].id !in o.save {
      SaveKeepsBatch(b, logs, list, m, o, j);
    } else {
      QuietStepKeepsBatch(b, logs, list, m, o, j, StepTask(b, list, m, o, j).phases[j]);
    }
  }

  lemma StartKeepsBatch(logs: seq<Log>, list: seq<Item>, m: Departments, o: Outage)
    ensures BatchInvariant(StartBatch(logs, list), logs, list, m, o)
  {
    NothingSaved(list, StartBatch(logs, list).phases, m);
  }

  lemma {:induction false} NothingSaved(list: seq<Item>, phases: seq<Phase>, m: Departments)
    requires |list| == |phases| && forall i :: 0 <= i < |list| ==> phases[i].Ready?
    ensures Saved(list, phases, m) == multiset{}
  {
    if list != [] {
      NothingSaved(list[..|list| - 1], phases[..|list| - 1], m);
    }
  }

  lemma {:induction false} SavedAreNewLogs(logs: seq<Log>, list: seq<Item>, phases: seq<Phase>, m: Departments,
      o: Outage)
    requires |list| == |phases|
    requires forall i :: 0 <= i < |list| ==> phases[i] == Finished(Adds(logs, list[i], m, o))
    ensures Saved(list, phases, m) == multiset(NewLogs(logs, list, m, o))
  {
    if list != [] {
      var k := |list| - 1;
      SavedAreNewLogs(logs, list[..k], phases[..k], m, o);
    }
  }

  /** Steps of the checks in the order that `schedule` names them. */
  function RunSchedule(b: Batch, list: seq<Item>, m: Departments, o: Outage, schedule: seq<nat>): Batch
    requires Fits(b, list)
    decreases |schedule|
  {
    if schedule == [] then b
    else
      var next := if schedule[0] < |list| then StepTask(b, list, m, o, schedule[0]) else b;
      RunSchedule(next, list, m, o, schedule[1..])
  }

  lemma {:induction false} ScheduleKeepsBatch(b: Batch, logs: seq<Log>, list: seq<Item>, m: Departments, o: Outage,
      schedule: seq<nat>)
    requires BatchInvariant(b, logs, list, m, o) && DistinctIds(list)
    ensures BatchInvariant(RunSchedule(b, list, m, o, schedule), logs, list, m, o)
    decreases |schedule|
  {
    if schedule != [] {
      if schedule[0] < |list| {
        StepKeepsBatch(b, logs, list, m, o, schedule[0]);
        ScheduleKeepsBatch(StepTask(b, list, m, o, schedule[0]), logs, list, m, o, schedule[1..]);
      } else {
        ScheduleKeepsBatch(b, logs, list, m, o, schedule[1..]);
      }
    }
  }

  lemma FinishedBatch(b: Batch, logs: seq<Log>, list: seq<Item>, m: Departments, o: Outage)
    requires BatchInvariant(b, logs, list, m, o) && AllFinished(b)
    ensures multiset(b.logs) == multiset(logs) + multiset(NewLogs(logs, list, m, o))
    ensures forall j :: 0 <= j < |list| ==> b.phases[j].created == Adds(logs, list[j], m, o)
  {
    forall j | 0 <= j < |list| ensures b.phases[j] == Finished(Adds(logs, list[j], m, o)) {
      assert PhaseInvariant(b, logs, list, m, o, j);
    }
    SavedAreNewLogs(logs, list, b.phases, m, o);
  }

  /**
   Interleaving law: whatever the order of the find and save steps of the parallel checks,
   once all are finished the logs are those of checking the items one after another, up to
   order, nothing that was there has changed, and each check reports whether it created a log.
   */
  lemma {:induction false} AnyInterleavingIsSequential(logs: seq<Log>, list: seq<Item>, m: Departments, o: Outage,
      schedule: seq<nat>)
    requires DistinctIds(list)
    requires AllFinished(RunSchedule(StartBatch(logs, list), list, m, o, schedule))
    ensures var b := RunSchedule(StartBatch(logs, list), list, m, o, schedule);
            && multiset(b.logs) == multiset(CheckAll(logs, list, m, o))
            && logs <= b.logs && |b.phases| == |list|
            && forall j :: 0 <= j < |list| ==> b.phases[j].created == Adds(logs, list[j], m, o)
  {
    StartKeepsBatch(logs, list, m, o);
    ScheduleKeepsBatch(StartBatch(logs, list), logs, list, m, o, schedule);
    FinishedBatch(RunSchedule(StartBatch(logs, list), list, m, o, schedule), logs, list, m, o);
    SequentialChecksAdd(logs, list, m, o);
  }

  /**
   Why runs must not overlap: two checks of the same item, each doing its find before the
   other's save, both create a log.
   */
  lemma OverlappingChecksCreateTwoLogs(item: Item, m: Departments)
    requires NeedsLog(item, m)
    ensures !AtMostOneOpen(RunSchedule(StartBatch([], [item, item]), [item, item], m, NO_OUTAGE, [0, 1, 0, 1]).logs)
  {
    var list := [item, item];
    var l := NewLog(item, m);
    var b0 := StartBatch([], list);
    var b1 := StepTask(b0, list, m, NO_OUTAGE, 0);
    var b2 := StepTask(b1, list, m, NO_OUTAGE, 1);
    var b3 := StepTask(b2, list, m, NO_OUTAGE, 0);
    var b4 := StepTask(b3, list, m, NO_OUTAGE, 1);
    assert b2.phases[0] == NoneFound && b2.phases[1] == NoneFound;
    assert b4.logs == [l, l] && b4.logs[0] == b4.logs[1] == l;
    assert [0, 1, 0, 1][1..] == [1, 0, 1] && [1, 0, 1][1..] == [0, 1] && [0, 1][1..] == [1] && [1][1..] == [];
    assert RunSchedule(b3, list, m, NO_OUTAGE, [1]) == RunSchedule(b4, list, m, NO_OUTAGE, []) == b4;
    assert RunSchedule(b2, list, m, NO_OUTAGE, [0, 1]) == b4;
    assert RunSchedule(b1, list, m, NO_OUTAGE, [1, 0, 1]) == b4;
    assert RunSchedule(b0, list, m, NO_OUTAGE, [0, 1, 0, 1]) == b4;
  }

  // ---- slices ----

  lemma {:induction false} NewLogsAppend(logs: seq<Log>, a: seq<Item>, b: seq<Item>, m: Departments, o: Outage)
    ensures NewLogs(logs, a + b, m, o) == NewLogs(logs, a, m, o) + NewLogs(logs, b, m, o)
  {
    if b == [] {
      assert a + b == a;
    } else {
      var front, item := b[..|b| - 1], b[|b| - 1];
      assert b == front + [item] && a + b == (a + front) + [item];
      NewLogsAppend(logs, a, front, m, o);
      NewLogsLast(logs, a + front, item, m, o);
      NewLogsLast(logs, front, item, m, o);
      Associative(NewLogs(logs, a, m, o), NewLogs(logs, front, m, o), LogFor(logs, item, m, o));
    }
  }

  lemma Associative(a: seq<Log>, b: seq<Log>, c: seq<Log>)
    ensures (a + b) + c == a + (b + c)
  {
  }

  lemma {:induction false} NewLogsSameFor(logs: seq<Log>, logs': seq<Log>, list: seq<Item>, m: Departments, o: Outage)
    requires forall j :: 0 <= j < |list| ==> (HasOpen(logs, list[j].id) <==> HasOpen(logs', list[j].id))
    ensures NewLogs(logs, list, m, o) == NewLogs(logs', list, m, o)
  {
    if list != [] {
      NewLogsSameFor(logs, logs', list[..|list| - 1], m, o);
    }
  }

  /** The logs created by earlier slices do not affect a later slice. */
  lemma SlicesAreIndependent(logs: seq<Log>, added: seq<Log>, done: seq<Item>, next: seq<Item>, m: Departments,
      o: Outage)
    requires DistinctIds(done + next)
    requires multiset(added) == multiset(NewLogs(logs, done, m, o))
    ensures NewLogs(logs + added, next, m, o) == NewLogs(logs, next, m, o)
    ensures NewLogs(logs, done + next, m, o) == NewLogs(logs, done, m, o) + NewLogs(logs, next, m, o)
  {
    forall j | 0 <= j < |next| ensures HasOpen(logs, next[j].id) <==> HasOpen(logs + added, next[j].id) {
      forall i | 0 <= i < |done| ensures done[i].id != next[j].id {
        assert (done + next)[i] == done[i] && (done + next)[|done| + j] == next[j];
      }
      NoNewLogForOthers(logs, done, m, o, next[j].id);
      HasOpenAppend(logs, added, next[j].id);
      MultisetHasOpen(added, NewLogs(logs, done, m, o), next[j].id);
    }
    NewLogsSameFor(logs, logs + added, next, m, o);
    NewLogsAppend(logs, done, next, m, o);
  }

  lemma MultisetOfRest(r: seq<Log>, before: seq<Log>, logs: seq<Log>, created: multiset<Log>)
    requires r <= before <= logs && multiset(logs) == multiset(before) + created
    ensures multiset(logs[|r|..]) == multiset(before[|r|..]) + created
  {
    assert before == r + before[|r|..] && logs == r + logs[|r|..];
    assert multiset(before) == multiset(r) + multiset(before[|r|..]);
    assert multiset(logs) == multiset(r) + multiset(logs[|r|..]);
    forall l ensures multiset(logs[|r|..])[l] == multiset(before[|r|..])[l] + created[l] {
      assert multiset(logs)[l] == multiset(before)[l] + created[l];
    }
  }

  /** What the run has added once a further slice is done. */
  lemma SliceAdds(r: seq<Log>, added: seq<Log>, logs: seq<Log>, done: seq<Item>, next: seq<Item>, m: Departments,
      o: Outage)
    requires DistinctIds(done + next)
    requires multiset(added) == multiset(NewLogs(r, done, m, o))
    requires r + added <= logs
    requires multiset(logs) == multiset(r + added) + multiset(NewLogs(r + added, next, m, o))
    ensures logs == r + logs[|r|..]
    ensures multiset(logs[|r|..]) == multiset(NewLogs(r, done + next, m, o))
    ensures |logs[|r|..]| == |added| + |NewLogs(r + added, next, m, o)|
  {
    SlicesAreIndependent(r, added, done, next, m, o);
    var created := multiset(NewLogs(r, next, m, o));
    MultisetOfRest(r, r + added, logs, created);
    assert (r + added)[|r|..] == added;
    assert |logs[|r|..]| == |multiset(logs[|r|..])| == |multiset(added)| + |created|;
  }

  function CountTrue(results: seq<bool>): nat {
    if results == [] then 0
    else CountTrue(results[..|results| - 1]) + if results[|results| - 1] then 1 else 0
  }

  lemma {:induction false} CountIsNewLogs(logs: seq<Log>, list: seq<Item>, m: Departments, o: Outage,
      results: seq<bool>)
    requires |results| == |list| && forall j :: 0 <= j < |list| ==> results[j] == Adds(logs, list[j], m, o)
    ensures CountTrue(results) == |NewLogs(logs, list, m, o)|
  {
    if list != [] {
      CountIsNewLogs(logs, list[..|list| - 1], m, o, results[..|list| - 1]);
    }
  }

  lemma SliceOf(list: seq<Item>, i: nat, end: nat)
    requires DistinctIds(list) && i <= end <= |list|
    ensures list[..end] == list[..i] + list[i..end]
    ensures DistinctIds(list[..end]) && DistinctIds(list[i..end])
  {
  }

  // ---- a whole run ----

  /** The run reached the first `upTo` of its items; `added` are the logs it created, in some order. */
  ghost predicate RunEffect(logs: seq<Log>, logs': seq<Log>, list: seq<Item>, m: Departments, o: Outage,
                            now: nat, skipped: set<nat>, upTo: nat, added: seq<Log>)
  {
    var r := Revalidated(logs, IdsOf(list), m, now, skipped);
    && upTo <= |list|
    && logs' == r + added
    && multiset(added) == multiset(NewLogs(r, list[..upTo], m, o))
  }

  lemma OpenOnlyIfBefore(logs: seq<Log>, ids: set<Id>, m: Departments, now: nat, skipped: set<nat>)
    ensures forall i :: 0 <= i < |logs| ==>
              var r := Revalidated(logs, ids, m, now, skipped);
              (Open(r[i]) ==> Open(logs[i])) && r[i].itemId == logs[i].itemId
  {
  }

  /** Created logs belong to different items, none of which has another open log. */
  lemma {:induction false} NewLogsAreApart(logs: seq<Log>, list: seq<Item>, m: Departments, o: Outage)
    requires DistinctIds(list)
    ensures forall i, j :: 0 <= i < j < |NewLogs(logs, list, m, o)| ==>
              NewLogs(logs, list, m, o)[i].itemId != NewLogs(logs, list, m, o)[j].itemId
    ensures forall l :: l in NewLogs(logs, list, m, o) ==> !HasOpen(logs, l.itemId)
  {
    NewLogsAreOpen(logs, list, m, o);
    if list != [] {
      var front := list[..|list| - 1];
      NewLogsAreApart(logs, front, m, o);
      NewLogsAreOpen(logs, front, m, o);
      var added := NewLogs(logs, front, m, o);
      forall i | 0 <= i < |added| ensures added[i].itemId != list[|list| - 1].id {
        assert added[i] in added;
      }
    }
  }

  lemma PermutedLogsAreApart(a: seq<Log>, b: seq<Log>)
    requires multiset(a) == multiset(b)
    requires forall i, j :: 0 <= i < j < |a| ==> a[i].itemId != a[j].itemId
    ensures forall i, j :: 0 <= i < j < |b| ==> b[i].itemId != b[j].itemId
  {
    forall i, j | 0 <= i < j < |b| ensures b[i].itemId != b[j].itemId {
      assert b == b[..i] + [b[i]] + b[i + 1..j] + [b[j]] + b[j + 1..];
      assert b[i] in multiset(a) && b[j] in multiset(a);
      if b[i] == b[j] {
        assert multiset(b)[b[i]] >= 2;
        OccursOnce(a, b[i]);
      } else {
        var x :| 0 <= x < |a| && a[x] == b[i];
        var y :| 0 <= y < |a| && a[y] == b[j];
        assert x < y || y < x;
      }
    }
  }

  lemma {:induction false} OccursOnce(a: seq<Log>, l: Log)
    requires forall i, j :: 0 <= i < j < |a| ==> a[i].itemId != a[j].itemId
    ensures multiset(a)[l] <= 1
  {
    if a != [] {
      var front := a[..|a| - 1];
      OccursOnce(front, l);
      assert a == front + [a[|a| - 1]];
      if l == a[|a| - 1] {
        assert l !in front;
      }
    }
  }

  lemma RevalidationKeepsAtMostOneOpen(logs: seq<Log>, ids: set<Id>, m: Departments, now: nat, skipped: set<nat>)
    requires AtMostOneOpen(logs)
    ensures AtMostOneOpen(Revalidated(logs, ids, m, now, skipped))
  {
    OpenOnlyIfBefore(logs, ids, m, now, skipped);
  }

  /** Logs of different items, none of which has an open log yet, may be added. */
  lemma AddingKeepsAtMostOneOpen(logs: seq<Log>, added: seq<Log>)
    requires AtMostOneOpen(logs)
    requires forall i, j :: 0 <= i < j < |added| ==> added[i].itemId != added[j].itemId
    requires forall j :: 0 <= j < |added| ==> !HasOpen(logs, added[j].itemId)
    ensures AtMostOneOpen(logs + added)
  {
    var all := logs + added;
    forall i, j | 0 <= i < j < |all| && Open(all[i]) && Open(all[j]) ensures all[i].itemId != all[j].itemId {
      if i < |logs| <= j {
        assert all[i] == logs[i] && all[j] == added[j - |logs|];
      }
    }
  }

  /** A run, complete or not, never leaves an item with two open logs. */
  lemma RunKeepsAtMostOneOpen(logs: seq<Log>, logs': seq<Log>, list: seq<Item>, m: Departments, o: Outage,
                              now: nat, skipped: set<nat>, upTo: nat, added: seq<Log>)
    requires AtMostOneOpen(logs) && DistinctIds(list)
    requires RunEffect(logs, logs', list, m, o, now, skipped, upTo, added)
    ensures AtMostOneOpen(logs')
  {
    var r := Revalidated(logs, IdsOf(list), m, now, skipped);
    var created := NewLogs(r, list[..upTo], m, o);
    RevalidationKeepsAtMostOneOpen(logs, IdsOf(list), m, now, skipped);
    NewLogsAreApart(r, list[..upTo], m, o);
    PermutedLogsAreApart(created, added);
    forall j | 0 <= j < |added| ensures !HasOpen(r, added[j].itemId) {
      assert added[j] in multiset(created);
    }
    AddingKeepsAtMostOneOpen(r, added);
  }

  /** The parts of a log that no run touches. */
  predicate SameRecord(a: Log, b: Log) {
    a.itemId == b.itemId && a.invalid == b.invalid && a.snapshot == b.snapshot
  }

  /** `later` still holds every log of `earlier`, with its record, and with no change once resolved. */
  ghost predicate Preserves(earlier: seq<Log>, later: seq<Log>) {
    && |earlier| <= |later|
    && forall i :: 0 <= i < |earlier| ==>
         && SameRecord(earlier[i], later[i])
         && (earlier[i].action.Resolved? ==> later[i] == earlier[i])
  }

  lemma PreservesIsTransitive(a: seq<Log>, b: seq<Log>, c: seq<Log>)
    requires Preserves(a, b) && Preserves(b, c)
    ensures Preserves(a, c)
  {
  }

  lemma RunPreserves(logs: seq<Log>, logs': seq<Log>, list: seq<Item>, m: Departments, o: Outage,
                     now: nat, skipped: set<nat>, upTo: nat, added: seq<Log>)
    requires RunEffect(logs, logs', list, m, o, now, skipped, upTo, added)
    ensures Preserves(logs, logs')
  {
    var r := Revalidated(logs, IdsOf(list), m, now, skipped);
    forall i | 0 <= i < |logs| ensures logs'[i] == r[i] {
    }
  }

  // ---- histories ----

  datatype World = World(items: seq<Item>, logs: seq<Log>)

  /** What may happen between two looks at the world. */
  datatype Event =
    | Edit                        // items are created, edited and deleted at will
    | Replacement(log: Log)       // permissions replaced by hand: a RESOLVED log is added
    | Run(sso: Departments, outage: Outage, now: nat, skipped: set<nat>, upTo: nat, added: seq<Log>)

  ghost predicate Follows(w: World, e: Event, w': World) {
    && DistinctIds(LiveItems(w.items))
    && match e
       case Edit => w'.logs == w.logs
       case Replacement(log) => log.action.Resolved? && w'.logs == w.logs + [log]
       case Run(sso, outage, now, skipped, upTo, added) =>
         var list := LiveItems(w.items);
         && w'.items == w.items
         && RunEffect(w.logs, w'.logs, list, Fetched(list, sso), outage, now, skipped, upTo, added)
  }

  ghost predicate IsHistory(ws: seq<World>, es: seq<Event>) {
    && |ws| == |es| + 1
    && forall i :: 0 <= i < |es| ==> Follows(ws[i], es[i], ws[i + 1])
  }

  lemma {:induction false} EventKeepsLogs(w: World, e: Event, w': World)
    requires Follows(w, e, w')
    ensures Preserves(w.logs, w'.logs)
    ensures AtMostOneOpen(w.logs) ==> AtMostOneOpen(w'.logs)
  {
    if e.Run? {
      var list := LiveItems(w.items);
      RunPreserves(w.logs, w'.logs, list, Fetched(list, e.sso), e.outage, e.now, e.skipped, e.upTo, e.added);
      if AtMostOneOpen(w.logs) {
        RunKeepsAtMostOneOpen(w.logs, w'.logs, list, Fetched(list, e.sso), e.outage, e.now, e.skipped, e.upTo,
                              e.added);
      }
    }
  }

  /**
   Over every history, with arbitrary SSO answers, failing calls, edits and replacements: at
   most one open log per item, no log lost, no resolved log ever changed.
   */
  lemma {:induction false} HistoryKeepsLogs(ws: seq<World>, es: seq<Event>, i: nat, j: nat)
    requires IsHistory(ws, es) && i <= j < |ws| && AtMostOneOpen(ws[0].logs)
    ensures AtMostOneOpen(ws[j].logs)
    ensures Preserves(ws[i].logs, ws[j].logs)
    decreases j
  {
    if i < j {
      HistoryKeepsLogs(ws, es, i, j - 1);
      EventKeepsLogs(ws[j - 1], es[j - 1], ws[j]);
      PreservesIsTransitive(ws[i].logs, ws[j - 1].logs, ws[j].logs);
    } else if j > 0 {
      HistoryKeepsLogs(ws, es, j - 1, j - 1);
      EventKeepsLogs(ws[j - 1], es[j - 1], ws[j]);
    }
  }

  // ---- what a run without failures achieves ----

  ghost predicate CompleteRun(logs: seq<Log>, logs': seq<Log>, list: seq<Item>, m: Departments, now: nat,
      added: seq<Log>) {
    RunEffect(logs, logs', list, m, NO_OUTAGE, now, {}, |list|, added)
  }

  lemma MultisetHasOpen(a: seq<Log>, b: seq<Log>, id: Id)
    requires multiset(a) == multiset(b)
    ensures HasOpen(a, id) ==> HasOpen(b, id)
  {
    if i :| 0 <= i < |a| && Open(a[i]) && a[i].itemId == id {
      assert a[i] in multiset(b);
    }
  }

  /**
   Afterwards every item with an inactive department has exactly one open log, and an open
   log with recorded departments was closed exactly if all of them are known and active.
   */
  lemma RunPostcondition(logs: seq<Log>, logs': seq<Log>, list: seq<Item>, m: Departments, now: nat, added: seq<Log>)
    requires AtMostOneOpen(logs) && DistinctIds(list) && CompleteRun(logs, logs', list, m, now, added)
    ensures AtMostOneOpen(logs')
    ensures forall j :: 0 <= j < |list| && HasInactive(list[j], m) ==> HasOpen(logs', list[j].id)
    ensures forall i :: 0 <= i < |logs| && Open(logs[i]) && logs[i].itemId in IdsOf(list) ==>
              logs'[i] == if Reactivated(logs[i], m) then Closed(logs[i], now) else logs[i]
    ensures forall i :: 0 <= i < |logs| && !(Open(logs[i]) && logs[i].itemId in IdsOf(list)) ==> logs'[i] == logs[i]
  {
    RunKeepsAtMostOneOpen(logs, logs', list, m, NO_OUTAGE, now, {}, |list|, added);
    var r := Revalidated(logs, IdsOf(list), m, now, {});
    assert list[..|list|] == list;
    NewLogsAreOpen(r, list, m, NO_OUTAGE);
    forall j | 0 <= j < |list| && HasInactive(list[j], m) ensures HasOpen(logs', list[j].id) {
      NeedsLogIffInactive(list[j], m);
      HasOpenAppend(r, added, list[j].id);
      if !HasOpen(r, list[j].id) {
        assert NewLog(list[j], m) in multiset(added);
      }
    }
  }

  lemma NewLogsAreNotReactivated(logs: seq<Log>, list: seq<Item>, m: Departments, o: Outage, added: seq<Log>)
    requires multiset(added) == multiset(NewLogs(logs, list, m, o))
    ensures forall i :: 0 <= i < |added| ==> !Reactivated(added[i], m)
  {
    NewLogsAreOpen(logs, list, m, o);
    forall i | 0 <= i < |added| ensures !Reactivated(added[i], m) {
      var l := added[i];
      assert l in multiset(NewLogs(logs, list, m, o));
      assert l in NewLogs(logs, list, m, o);
      var j :| 0 <= j < |list| && Adds(logs, list[j], m, o) && l == NewLog(list[j], m);
      NewLogIsNotReactivated(list[j], m);
    }
  }

  lemma RevalidationCloses(logs: seq<Log>, ids: set<Id>, m: Departments, now: nat, i: nat)
    requires i < |logs|
    ensures !Closes(Revalidated(logs, ids, m, now, {})[i], ids, m)
  {
  }

  lemma NothingLeftToClose(logs: seq<Log>, logs': seq<Log>, list: seq<Item>, m: Departments, now: nat, added: seq<Log>)
    requires CompleteRun(logs, logs', list, m, now, added)
    ensures forall i :: 0 <= i < |logs'| ==> !Closes(logs'[i], IdsOf(list), m)
  {
    var r := Revalidated(logs, IdsOf(list), m, now, {});
    NewLogsAreNotReactivated(r, list[..|list|], m, NO_OUTAGE, added);
    forall i | 0 <= i < |r| ensures !Closes(r[i], IdsOf(list), m) {
      RevalidationCloses(logs, IdsOf(list), m, now, i);
    }
    NothingClosesInSum(r, added, IdsOf(list), m);
  }

  lemma NothingClosesInSum(a: seq<Log>, b: seq<Log>, ids: set<Id>, m: Departments)
    requires forall i :: 0 <= i < |a| ==> !Closes(a[i], ids, m)
    requires forall i :: 0 <= i < |b| ==> !Reactivated(b[i], m)
    ensures forall i :: 0 <= i < |a + b| ==> !Closes((a + b)[i], ids, m)
  {
    assert forall i :: 0 <= i < |a + b| ==> (a + b)[i] == if i < |a| then a[i] else b[i - |a|];
  }

  /** A second run with the same answer finds nothing to close and nothing to create. */
  lemma SecondRunChangesNothing(logs: seq<Log>, logs': seq<Log>, logs'': seq<Log>, list: seq<Item>, m: Departments,
                                now: nat, later: nat, added: seq<Log>, again: seq<Log>)
    requires DistinctIds(list) && AtMostOneOpen(logs)
    requires CompleteRun(logs, logs', list, m, now, added)
    requires CompleteRun(logs', logs'', list, m, later, again)
    ensures logs'' == logs'
  {
    NothingLeftToClose(logs, logs', list, m, now, added);
    RunPostcondition(logs, logs', list, m, now, added);
    IdleRun(logs', logs'', list, m, later, again);
  }

  lemma IdleRun(logs: seq<Log>, logs': seq<Log>, list: seq<Item>, m: Departments, now: nat, added: seq<Log>)
    requires CompleteRun(logs, logs', list, m, now, added)
    requires forall i :: 0 <= i < |logs| ==> !Closes(logs[i], IdsOf(list), m)
    requires forall j :: 0 <= j < |list| && HasInactive(list[j], m) ==> HasOpen(logs, list[j].id)
    ensures logs' == logs
  {
    var r := Revalidated(logs, IdsOf(list), m, now, {});
    assert r == logs;
    assert list[..|list|] == list;
    forall j | 0 <= j < |list| ensures !Adds(r, list[j], m, NO_OUTAGE) {
      NeedsLogIffInactive(list[j], m);
    }
    NothingAdded(r, list, m, NO_OUTAGE);
    assert |multiset(added)| == 0;
  }

  lemma NewLogIsNotReactivated(item: Item, m: Departments)
    requires NeedsLog(item, m)
    ensures !Reactivated(NewLog(item, m), m)
  {
    InvalidAreInactive(DepartmentIds(item), m);
    var refs := InvalidDepartments(DepartmentIds(item), m);
    assert refs[0] in refs;
  }

  lemma {:induction false} NothingAdded(logs: seq<Log>, list: seq<Item>, m: Departments, o: Outage)
    requires forall j :: 0 <= j < |list| ==> !Adds(logs, list[j], m, o)
    ensures NewLogs(logs, list, m, o) == []
  {
    if list != [] {
      NothingAdded(logs, list[..|list| - 1], m, o);
    }
  }

  // ---- departments that nobody asks for any more ----

  lemma {:induction false} LiveItemsAreItems(items: seq<Item>, item: Item)
    ensures item in LiveItems(items) <==> item in items && !item.deleted
  {
    if items != [] {
      var front, last := items[..|items| - 1], items[|items| - 1];
      LiveItemsAreItems(front, item);
      assert items == front + [last];
    }
  }

  lemma {:induction false} LiveItemsAreDistinct(items: seq<Item>)
    requires DistinctIds(items)
    ensures DistinctIds(LiveItems(items))
  {
    if items != [] {
      var front, last := items[..|items| - 1], items[|items| - 1];
      LiveItemsAreDistinct(front);
      var list := LiveItems(front);
      forall i | 0 <= i < |list| ensures list[i].id != last.id {
        LiveItemsAreItems(front, list[i]);
        assert list[i] in front;
      }
    }
  }

  /** A department is asked for exactly if some live item lists it. */
  lemma RequestedByLiveItem(items: seq<Item>, d: Id)
    ensures d in Requested(LiveItems(items)) <==>
            exists item :: item in items && !item.deleted && d in DepartmentIds(item)
  {
    var list := LiveItems(items);
    if d in Requested(list) {
      var i, k :| 0 <= i < |list| && 0 <= k < |DepartmentIds(list[i])| && DepartmentIds(list[i])[k] == d;
      LiveItemsAreItems(items, list[i]);
      assert list[i] in items && d in DepartmentIds(list[i]);
    }
    if item :| item in items && !item.deleted && d in DepartmentIds(item) {
      LiveItemsAreItems(items, item);
      var i :| 0 <= i < |list| && list[i] == item;
      var k :| 0 <= k < |DepartmentIds(item)| && DepartmentIds(item)[k] == d;
      assert DepartmentIds(list[i])[k] == d;
    }
  }

  /** Some live item lists this department. */
  ghost predicate Mentioned(items: seq<Item>, d: Id) {
    exists i, k :: 0 <= i < |items| && !items[i].deleted && items[i].departmentIds.Some?
                   && 0 <= k < |items[i].departmentIds.value| && items[i].departmentIds.value[k] == d
  }

  lemma MentionedIsRequested(items: seq<Item>, d: Id)
    ensures Mentioned(items, d) <==> d in Requested(LiveItems(items))
  {
    RequestedByLiveItem(items, d);
    if item :| item in items && !item.deleted && d in DepartmentIds(item) {
      var i :| 0 <= i < |items| && items[i] == item;
      var k :| 0 <= k < |DepartmentIds(item)| && DepartmentIds(item)[k] == d;
      assert items[i].departmentIds.value[k] == d;
    }
    if i, k :| 0 <= i < |items| && !items[i].deleted && items[i].departmentIds.Some?
               && 0 <= k < |items[i].departmentIds.value| && items[i].departmentIds.value[k] == d
    {
      assert items[i] in items && d in DepartmentIds(items[i]);
    }
  }

  /** The log is open, of a live item, and records departments all of which are listed and active. */
  ghost predicate Due(l: Log, items: seq<Item>, sso: Departments) {
    && l.action == Detected && l.resolvedAt == None
    && (exists i :: 0 <= i < |items| && !items[i].deleted && items[i].id == l.itemId)
    && l.invalid.Some? && |l.invalid.value| > 0
    && forall k :: 0 <= k < |l.invalid.value| ==>
         var d := l.invalid.value[k].id;
         Mentioned(items, d) && d in sso && sso[d].isActive
  }

  lemma LiveIds(items: seq<Item>, id: Id)
    ensures id in IdsOf(LiveItems(items)) <==>
            exists i :: 0 <= i < |items| && !items[i].deleted && items[i].id == id
  {
    var list := LiveItems(items);
    if id in IdsOf(list) {
      var j :| 0 <= j < |list| && list[j].id == id;
      LiveItemsAreItems(items, list[j]);
      assert list[j] in items;
    }
    if i :| 0 <= i < |items| && !items[i].deleted && items[i].id == id {
      LiveItemsAreItems(items, items[i]);
      assert items[i] in list;
    }
  }

  lemma DueIsClosed(l: Log, items: seq<Item>, sso: Departments)
    ensures Due(l, items, sso) <==> Closes(l, IdsOf(LiveItems(items)), Fetched(LiveItems(items), sso))
  {
    LiveIds(items, l.itemId);
    if l.invalid.Some? {
      var m := Fetched(LiveItems(items), sso);
      forall k | 0 <= k < |l.invalid.value|
        ensures l.invalid.value[k].id in m <==>
                Mentioned(items, l.invalid.value[k].id) && l.invalid.value[k].id in sso
      {
        MentionedIsRequested(items, l.invalid.value[k].id);
      }
      assert forall r :: r in l.invalid.value <==> exists k :: 0 <= k < |l.invalid.value| && l.invalid.value[k] == r;
    }
  }

  /**
   A run closes exactly the open logs of live items that record departments, each of which is
   listed by some live item and active, as far as it gets to them: they are marked as resolved
   by nobody at the time of the run.  No other log changes.
   */
  lemma RunClosesExactly(w: World, e: Event, w': World, i: nat)
    requires Follows(w, e, w') && e.Run? && i < |w.logs|
    ensures i < |w'.logs| && w'.logs[i] ==
            if i !in e.skipped && Due(w.logs[i], w.items, e.sso) then
              w.logs[i].(action := Resolved, resolvedAt := Some(e.now), resolvedBy := None)
            else w.logs[i]
  {
    var list := LiveItems(w.items);
    DueIsClosed(w.logs[i], w.items, e.sso);
    assert w'.logs[i] == Revalidated(w.logs, IdsOf(list), Fetched(list, e.sso), e.now, e.skipped)[i];
  }

  /** What the item lists is asked for. */
  lemma ListedIsFetched(items: seq<Item>, item: Item, sso: Departments, d: Id)
    requires item in LiveItems(items) && d in DepartmentIds(item)
    ensures d in Fetched(LiveItems(items), sso) <==> d in sso
  {
    LiveItemsAreItems(items, item);
    RequestedByLiveItem(items, d);
  }

  lemma ListsInactiveIsNeeded(items: seq<Item>, item: Item, sso: Departments)
    requires item in LiveItems(items)
    ensures NeedsLog(item, Fetched(LiveItems(items), sso)) <==> ListsInactive(item, sso)
  {
    var m := Fetched(LiveItems(items), sso);
    AddsMeans([], item, m, NO_OUTAGE);
    forall d | d in DepartmentIds(item) ensures d in m <==> d in sso {
      ListedIsFetched(items, item, sso, d);
    }
    assert item.departmentIds.Some? ==> forall k :: 0 <= k < |item.departmentIds.value| ==>
        item.departmentIds.value[k] in DepartmentIds(item);
  }

  /** Each created log records a live item as the SSO system describes its departments. */
  lemma RunRecords(w: World, e: Event, w': World)
    requires Follows(w, e, w') && e.Run?
    ensures w'.logs == w'.logs[..|w.logs|] + e.added
    ensures forall l :: l in e.added ==>
              exists i :: 0 <= i < |w.items| && !w.items[i].deleted && Records(l, w.items[i], e.sso)
  {
    var list := LiveItems(w.items);
    var m := Fetched(list, e.sso);
    NewLogsRecord(Revalidated(w.logs, IdsOf(list), m, e.now, e.skipped), list, e.upTo, m, e.outage, e.added);
    forall l | l in e.added
      ensures exists i :: 0 <= i < |w.items| && !w.items[i].deleted && Records(l, w.items[i], e.sso)
    {
      var j :| 0 <= j < |list| && Records(l, list[j], m);
      assert list[j] in list;
      LiveItemsAreItems(w.items, list[j]);
      RecordsAnswer(l, w.items, list[j], e.sso);
      var i :| 0 <= i < |w.items| && w.items[i] == list[j];
    }
  }

  /** The departments of a live item are all asked for. */
  lemma RecordsAnswer(l: Log, items: seq<Item>, item: Item, sso: Departments)
    requires item in LiveItems(items) && Records(l, item, Fetched(LiveItems(items), sso))
    ensures Records(l, item, sso)
  {
    var list := LiveItems(items);
    var m := Fetched(list, sso);
    var listed := if item.departmentIds.Some? then multiset(item.departmentIds.value) else multiset{};
    forall d | listed[d] > 0 ensures d in m <==> d in sso {
      assert d in DepartmentIds(item);
      ListedIsFetched(items, item, sso, d);
    }
    InBag(l.snapshot.departments);
  }

  lemma InBag(refs: seq<DeptRef>)
    ensures forall r :: r in refs ==> IdBag(refs)[r.id] > 0
  {
    var ids := seq(|refs|, i requires 0 <= i < |refs| => refs[i].id);
    forall r | r in refs ensures IdBag(refs)[r.id] > 0 {
      var i :| 0 <= i < |refs| && refs[i] == r;
      assert ids[i] == r.id && ids[i] in ids;
    }
  }

  /**
   A run that reaches all items, with no failing find or save, creates a log for exactly the
   live items that list an inactive department and have no open log left after revalidation.
   */
  lemma RunCreatesExactly(w: World, e: Event, w': World, i: nat)
    requires Follows(w, e, w') && e.Run? && e.outage == NO_OUTAGE && e.upTo == |LiveItems(w.items)|
    requires i < |w.items| && !w.items[i].deleted
    ensures (exists l :: l in e.added && l.itemId == w.items[i].id) <==>
            ListsInactive(w.items[i], e.sso) && !StillOpen(w'.logs[..|w.logs|], w.items[i].id)
  {
    var list := LiveItems(w.items);
    var m, item := Fetched(list, e.sso), w.items[i];
    var r := Revalidated(w.logs, IdsOf(list), m, e.now, e.skipped);
    assert w'.logs[..|w.logs|] == r;
    LiveItemsAreItems(w.items, item);
    assert item in w.items;
    ListsInactiveIsNeeded(w.items, item, e.sso);
    assert list[..e.upTo] == list;
    LogOfItem(r, list, m, e.added, item);
    StillOpenIsOpen(r, item.id);
  }

  lemma SameMembers(a: seq<Log>, b: seq<Log>, l: Log)
    requires multiset(a) == multiset(b)
    ensures l in a <==> l in b
  {
    assert l in a <==> l in multiset(a);
    assert l in b <==> l in multiset(b);
  }

  lemma CreatedForItem(logs: seq<Log>, list: seq<Item>, m: Departments, j: nat, l: Log)
    requires DistinctIds(list) && j < |list| && l in NewLogs(logs, list, m, NO_OUTAGE) && l.itemId == list[j].id
    ensures Adds(logs, list[j], m, NO_OUTAGE)
  {
    NewLogComesFrom(logs, list, m, NO_OUTAGE, l);
    var n :| 0 <= n < |list| && Adds(logs, list[n], m, NO_OUTAGE) && l == NewLog(list[n], m);
    assert n == j;
  }

  /** An item has a created log exactly if its check adds one. */
  lemma LogOfItem(logs: seq<Log>, list: seq<Item>, m: Departments, added: seq<Log>, item: Item)
    requires DistinctIds(list) && item in list && multiset(added) == multiset(NewLogs(logs, list, m, NO_OUTAGE))
    ensures (exists l :: l in added && l.itemId == item.id) <==> Adds(logs, item, m, NO_OUTAGE)
  {
    var created := NewLogs(logs, list, m, NO_OUTAGE);
    var j :| 0 <= j < |list| && list[j] == item;
    if l :| l in added && l.itemId == item.id {
      SameMembers(added, created, l);
      CreatedForItem(logs, list, m, j, l);
    }
    if Adds(logs, item, m, NO_OUTAGE) {
      NewLogIsThere(logs, list, m, NO_OUTAGE, j);
      SameMembers(added, created, NewLog(item, m));
      assert NewLog(item, m).itemId == item.id;
    }
  }

  /** No live item lists this department. */
  ghost predicate Unlisted(w: World, d: Id) {
    forall item :: item in w.items && !item.deleted ==> d !in DepartmentIds(item)
  }

  /** An open log that records an unlisted department survives any run, and its item gets no other log. */
  lemma UnlistedDepartmentKeepsLogOpen(w: World, e: Event, w': World, i: nat, d: DeptRef)
    requires Follows(w, e, w') && i < |w.logs| && Open(w.logs[i])
    requires w.logs[i].invalid.Some? && d in w.logs[i].invalid.value && Unlisted(w, d.id)
    ensures i < |w'.logs| && w'.logs[i] == w.logs[i]
    ensures e.Run? ==> forall l :: l in e.added ==> l.itemId != w.logs[i].itemId
  {
    if e.Run? {
      var list := LiveItems(w.items);
      var m := Fetched(list, e.sso);
      var r := Revalidated(w.logs, IdsOf(list), m, e.now, e.skipped);
      RequestedByLiveItem(w.items, d.id);
      assert r[i] == w.logs[i];
      assert HasOpen(r, w.logs[i].itemId);
      NewLogsAreApart(r, list[..e.upTo], m, e.outage);
      forall l | l in e.added ensures l.itemId != w.logs[i].itemId {
        assert l in multiset(NewLogs(r, list[..e.upTo], m, e.outage));
      }
    }
  }

  /**
   Over every history: as long as no live item lists one of its departments, an open log stays
   as it is and no run creates a log for its item.
   */
  lemma {:induction false} UnlistedDepartmentBlocksLogs(ws: seq<World>, es: seq<Event>, n: nat, i: nat, d: DeptRef)
    requires IsHistory(ws, es) && n < |ws| && i < |ws[0].logs| && Open(ws[0].logs[i])
    requires ws[0].logs[i].invalid.Some? && d in ws[0].logs[i].invalid.value
    requires forall k :: 0 <= k < n ==> Unlisted(ws[k], d.id)
    ensures i < |ws[n].logs| && ws[n].logs[i] == ws[0].logs[i]
    ensures forall k :: 0 <= k < n && es[k].Run? ==> forall l :: l in es[k].added ==> l.itemId != ws[0].logs[i].itemId
  {
    if n > 0 {
      UnlistedDepartmentBlocksLogs(ws, es, n - 1, i, d);
      UnlistedDepartmentKeepsLogOpen(ws[n - 1], es[n - 1], ws[n], i, d);
    }
  }
}
