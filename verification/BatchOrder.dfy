/**
 Changing the order of many rows at once: one update per payload entry inside a transaction
 (announcements), and one save per distinct row from a map of orders (IR).
 */
module BatchOrder {
  import opened Wrappers

  type Id = nat

  datatype Row = Row(order: int, deleted: bool, updatedBy: Option<Id>)

  type Table = map<Id, Row>

  datatype Entry = Entry(id: Id, order: int)

  datatype OrderError = NothingToUpdate | RowMissing | UpdateFailed

  predicate Live(t: Table, id: Id) {
    id in t && !t[id].deleted
  }

  function EntryIds(items: seq<Entry>): set<Id> {
    set i | 0 <= i < |items| :: items[i].id
  }

  /** The order that the last entry for this id asks for. */
  function LastOrder(items: seq<Entry>, id: Id): int
    requires id in EntryIds(items)
  {
    if items[|items| - 1].id == id then items[|items| - 1].order
    else
      assert forall i :: 0 <= i < |items| - 1 ==> items[..|items| - 1][i] == items[i];
      LastOrder(items[..|items| - 1], id)
  }

  function Reordered(row: Row, order: int, user: Option<Id>): Row {
    row.(order := order, updatedBy := if user.Some? then user else row.updatedBy)
  }

  /** Every named row gets the order of its last entry; all other rows stay. */
  function ApplyOrders(t: Table, items: seq<Entry>, user: Option<Id>): Table {
    map id | id in t :: if id in EntryIds(items) then Reordered(t[id], LastOrder(items, id), user) else t[id]
  }

  /** The same, when the rows in `failing` cannot be saved. */
  function ApplyOrdersExcept(t: Table, items: seq<Entry>, user: Option<Id>, failing: set<Id>): Table {
    map id | id in t ::
      if id in EntryIds(items) - failing then Reordered(t[id], LastOrder(items, id), user) else t[id]
  }

  function Refusal(t: Table, items: seq<Entry>): Option<OrderError> {
    if items == [] then Some(NothingToUpdate)
    else if exists id | id in EntryIds(items) :: !Live(t, id) then Some(RowMissing)
    else None
  }

  lemma {:induction false} LastOrderIsLast(items: seq<Entry>, id: Id, i: nat)
    requires i < |items| && items[i].id == id
    requires forall j :: i < j < |items| ==> items[j].id != id
    ensures id in EntryIds(items) && LastOrder(items, id) == items[i].order
  {
    if i < |items| - 1 {
      LastOrderIsLast(items[..|items| - 1], id, i);
    }
  }

  lemma LastOrderAppend(items: seq<Entry>, e: Entry, id: Id)
    ensures EntryIds(items + [e]) == EntryIds(items) + {e.id}
    ensures id in EntryIds(items + [e]) ==>
              LastOrder(items + [e], id) == if id == e.id then e.order else LastOrder(items, id)
  {
    assert (items + [e])[..|items|] == items;
    assert forall i :: 0 <= i < |items| ==> (items + [e])[i] == items[i];
    assert (items + [e])[|items|] == e;
  }

  lemma ApplyOneMore(t: Table, items: seq<Entry>, e: Entry, user: Option<Id>)
    requires e.id in t
    ensures ApplyOrders(t, items + [e], user) ==
            ApplyOrders(t, items, user)[e.id := Reordered(ApplyOrders(t, items, user)[e.id], e.order, user)]
  {
    forall id | id in t
      ensures ApplyOrders(t, items + [e], user)[id] ==
              if id == e.id then Reordered(ApplyOrders(t, items, user)[e.id], e.order, user)
              else ApplyOrders(t, items, user)[id]
    {
      LastOrderAppend(items, e, id);
    }
  }

  // ---- in terms of the rows ----

  /** Entry `i` is the last for its id. */
  predicate IsLast(items: seq<Entry>, i: nat) {
    i < |items| && forall j :: i < j < |items| ==> items[j].id != items[i].id
  }

  /** Every named row that does not fail has the order of its last entry; all other rows are as before. */
  ghost predicate Ordered(before: Table, after: Table, items: seq<Entry>, user: Option<Id>, failing: set<Id>) {
    && after.Keys == before.Keys
    && (forall i: nat :: IsLast(items, i) && items[i].id in before && items[i].id !in failing ==>
          var row := before[items[i].id];
          after[items[i].id] == Row(items[i].order, row.deleted, if user.Some? then user else row.updatedBy))
    && (forall id :: id in before && (id in failing || forall i :: 0 <= i < |items| ==> items[i].id != id) ==>
          after[id] == before[id])
  }

  lemma OrdersArrive(t: Table, items: seq<Entry>, user: Option<Id>, failing: set<Id>)
    ensures Ordered(t, ApplyOrdersExcept(t, items, user, failing), items, user, failing)
    ensures Ordered(t, ApplyOrders(t, items, user), items, user, {})
  {
    forall i: nat | IsLast(items, i) && items[i].id in t
      ensures items[i].id in EntryIds(items) && LastOrder(items, items[i].id) == items[i].order
    {
      LastOrderIsLast(items, items[i].id, i);
    }
  }

  /** Which error a batch ends with before anything is saved. */
  predicate Refuses(refused: Option<OrderError>, t: Table, items: seq<Entry>) {
    && (refused == Some(NothingToUpdate) <==> items == [])
    && (refused == Some(RowMissing) <==>
          exists i | 0 <= i < |items| :: items[i].id in t ==> t[items[i].id].deleted)
    && (refused.Some? ==> refused.value in {NothingToUpdate, RowMissing})
  }

  lemma RefusalMeans(t: Table, items: seq<Entry>)
    ensures Refuses(Refusal(t, items), t, items)
  {
    assert forall i :: 0 <= i < |items| ==> items[i].id in EntryIds(items);
  }

  /** How a batch ends: refused, failed while saving, or with a count. */
  ghost predicate Ends(r: Result<nat, OrderError>, t: Table, items: seq<Entry>, failing: set<Id>) {
    var refused := items == [] || exists i :: 0 <= i < |items| && (items[i].id in t ==> t[items[i].id].deleted);
    && (refused ==> r.Err? && Refuses(Some(r.error), t, items))
    && (r == Err(UpdateFailed) <==> !refused && exists i :: 0 <= i < |items| && items[i].id in failing)
    && (r.Ok? <==> !refused && forall i :: 0 <= i < |items| ==> items[i].id !in failing)
  }

  lemma EndMeans(t: Table, items: seq<Entry>, failing: set<Id>)
    ensures forall e :: Refusal(t, items) == Some(e) ==> Ends(Err(e), t, items, failing)
    ensures Refusal(t, items).None? && EntryIds(items) * failing != {} ==> Ends(Err(UpdateFailed), t, items, failing)
    ensures Refusal(t, items).None? && EntryIds(items) * failing == {} ==> forall n :: Ends(Ok(n), t, items, failing)
  {
    RefusalMeans(t, items);
    assert forall i :: 0 <= i < |items| ==> items[i].id in EntryIds(items);
    assert EntryIds(items) * failing != {} ==> exists id :: id in EntryIds(items) * failing;
    assert forall i :: 0 <= i < |items| && items[i].id in failing ==> items[i].id in EntryIds(items) * failing;
  }

  /**
   The two forms leave the same table exactly if no named row fails, or if the rows that do not
   fail would not change anyway: the sequential form undoes everything, the other nothing.
   */
  lemma FormsAgreeExactly(t: Table, items: seq<Entry>, user: Option<Id>, failing: set<Id>)
    requires Refusal(t, items).None?
    ensures var sequential := if EntryIds(items) * failing != {} then t else ApplyOrders(t, items, user);
            sequential == ApplyOrdersExcept(t, items, user, failing) <==>
            || EntryIds(items) * failing == {}
            || forall id :: id in EntryIds(items) - failing ==> Reordered(t[id], LastOrder(items, id), user) == t[id]
  {
    var some := ApplyOrdersExcept(t, items, user, failing);
    if EntryIds(items) * failing == {} {
      assert forall id :: id in EntryIds(items) && id in failing ==> id in EntryIds(items) * failing;
      assert some == ApplyOrders(t, items, user);
    } else if some == t {
      forall id | id in EntryIds(items) - failing ensures Reordered(t[id], LastOrder(items, id), user) == t[id] {
        assert some[id] == t[id];
      }
    }
  }

  class OrderService {
    var rows: Table

    constructor (rows: Table)
      ensures this.rows == rows
    {
      this.rows := rows;
    }

    /** The updates inside the transaction, entry by entry, up to the first that throws. */
    static method Stage(t: Table, items: seq<Entry>, user: Option<Id>, failing: set<Id>)
      returns (failed: bool, staged: Table, updatedCount: nat)
      requires forall i :: 0 <= i < |items| ==> items[i].id in t
      ensures failed <==> EntryIds(items) * failing != {}
      ensures !failed ==> staged == ApplyOrders(t, items, user) && updatedCount == |items|
    {
      failed, staged, updatedCount := false, t, 0;
      assert ApplyOrders(t, [], user) == t;
      for i := 0 to |items|
        invariant !failed && updatedCount == i
        invariant staged == ApplyOrders(t, items[..i], user)
        invariant EntryIds(items[..i]) * failing == {}
      {
        var item := items[i];
        assert item.id in EntryIds(items);
        if item.id in failing {
          assert item.id in EntryIds(items) * failing;
          return true, staged, updatedCount;
        }
        ApplyOneMore(t, items[..i], item, user);
        LastOrderAppend(items[..i], item, item.id);
        assert items[..i + 1] == items[..i] + [item];
        staged := staged[item.id := Reordered(staged[item.id], item.order, user)];
        updatedCount := updatedCount + 1;
      }
      assert items[..|items|] == items;
    }

    /**
     The announcement form: entries one by one, in a transaction that is rolled back when the
     update of some row in `failing` throws.  It reports the number of entries.
     */
    method UpdateSequentially(items: seq<Entry>, user: Option<Id>, failing: set<Id>)
      returns (r: Result<nat, OrderError>)
      modifies this
      ensures Ends(r, old(rows), items, failing)
      ensures r.Ok? ==> r.value == |items| && Ordered(old(rows), rows, items, user, {})
      ensures rows == if r.Ok? then ApplyOrders(old(rows), items, user) else old(rows)
    {
      EndMeans(rows, items, failing);
      OrdersArrive(rows, items, user, failing);
      if |items| == 0 {
        return Err(NothingToUpdate);
      }
      if exists i | 0 <= i < |items| :: !Live(rows, items[i].id) {
        assert exists id :: id in EntryIds(items) && !Live(rows, id);
        return Err(RowMissing);
      }
      assert forall i :: 0 <= i < |items| ==> items[i].id in EntryIds(items);
      var failed, staged, updatedCount := Stage(rows, items, user, failing);
      if failed {
        return Err(UpdateFailed);
      }
      rows := staged;
      r := Ok(updatedCount);
    }

    /** Repeated `set`: a later entry for the same id overwrites an earlier one. */
    static method BuildOrderMap(items: seq<Entry>) returns (orderMap: map<Id, int>)
      ensures orderMap.Keys == EntryIds(items)
      ensures forall id :: id in orderMap ==> orderMap[id] == LastOrder(items, id)
    {
      orderMap := map[];
      for i := 0 to |items|
        invariant orderMap.Keys == EntryIds(items[..i])
        invariant forall id :: id in orderMap ==> orderMap[id] == LastOrder(items[..i], id)
      {
        assert items[..i + 1] == items[..i] + [items[i]];
        forall id ensures id in EntryIds(items[..i + 1]) ==>
          LastOrder(items[..i + 1], id) == if id == items[i].id then items[i].order else LastOrder(items[..i], id)
        {
          LastOrderAppend(items[..i], items[i], id);
        }
        LastOrderAppend(items[..i], items[i], items[i].id);
        orderMap := orderMap[items[i].id := items[i].order];
      }
      assert items[..|items|] == items;
    }

    /** All saves are started at once and settle in any order; one that fails does not stop the others. */
    method SaveAll(ids: set<Id>, orderMap: map<Id, int>, user: Option<Id>, failing: set<Id>) returns (failed: bool)
      requires ids <= rows.Keys && ids <= orderMap.Keys
      modifies this
      ensures failed <==> ids * failing != {}
      ensures rows.Keys == old(rows).Keys
      ensures forall id :: id in rows ==>
                rows[id] == if id in ids - failing then Reordered(old(rows)[id], orderMap[id], user) else old(rows)[id]
    {
      var todo := ids;
      failed := false;
      while todo != {}
        invariant todo <= ids && rows.Keys == old(rows).Keys
        invariant failed <==> (ids - todo) * failing != {}
        invariant forall id :: id in rows ==>
                    rows[id] == if id in ids - todo - failing then Reordered(old(rows)[id], orderMap[id], user)
                        else old(rows)[id]
      {
        var id :| id in todo;
        todo := todo - {id};
        if id in failing {
          assert id in (ids - todo) * failing;
          failed := true;
        } else {
          assert (ids - todo) * failing == (ids - todo - {id}) * failing;
          rows := rows[id := Reordered(rows[id], orderMap[id], user)];
        }
      }
      assert ids - todo == ids;
    }

    /**
     The IR form: a map of orders built by repeated `set`, then one save per row, without a
     transaction.  It reports the number of distinct rows; if a save fails the call throws, and
     the rows whose saves work are changed all the same.
     */
    method UpdateByMap(items: seq<Entry>, user: Option<Id>, failing: set<Id>) returns (r: Result<nat, OrderError>)
      modifies this
      ensures Ends(r, old(rows), items, failing)
      ensures r.Ok? ==> r.value == |EntryIds(items)| && rows == ApplyOrders(old(rows), items, user)
      ensures if r.Ok? || r.error == UpdateFailed then Ordered(old(rows), rows, items, user, failing)
              else rows == old(rows)
    {
      EndMeans(rows, items, failing);
      OrdersArrive(rows, items, user, failing);
      if |items| == 0 {
        return Err(NothingToUpdate);
      }
      var uniqueIds := EntryIds(items);
      var existing := set id | id in uniqueIds && Live(rows, id);
      AllFound(rows, items, existing);
      if |existing| != |uniqueIds| {
        return Err(RowMissing);
      }
      NothingExcepted(rows, items, user, failing);
      var orderMap := BuildOrderMap(items);
      var failed := SaveAll(existing, orderMap, user, failing);
      SavedIsApplied(old(rows), rows, items, orderMap, user, failing);
      r := if failed then Err(UpdateFailed) else Ok(|existing|);
    }
  }

  lemma NothingExcepted(t: Table, items: seq<Entry>, user: Option<Id>, failing: set<Id>)
    ensures EntryIds(items) * failing == {} ==>
              ApplyOrdersExcept(t, items, user, failing) == ApplyOrders(t, items, user)
  {
    assert forall id :: id in EntryIds(items) && id in failing ==> id in EntryIds(items) * failing;
  }

  lemma SavedIsApplied(before: Table, after: Table, items: seq<Entry>, orderMap: map<Id, int>, user: Option<Id>,
                       failing: set<Id>)
    requires orderMap.Keys == EntryIds(items) && after.Keys == before.Keys
    requires forall id :: id in orderMap ==> orderMap[id] == LastOrder(items, id)
    requires forall id :: id in after ==>
               after[id] == if id in EntryIds(items) - failing then Reordered(before[id], orderMap[id], user)
                   else before[id]
    ensures after == ApplyOrdersExcept(before, items, user, failing)
  {
  }

  /** The number of rows found tells whether all were. */
  lemma AllFound(t: Table, items: seq<Entry>, existing: set<Id>)
    requires existing == set id | id in EntryIds(items) && Live(t, id)
    ensures |existing| == |EntryIds(items)| ==> existing == EntryIds(items) && Refusal(t, items) != Some(RowMissing)
    ensures |existing| != |EntryIds(items)| ==> items == [] || Refusal(t, items) == Some(RowMissing)
  {
    if |existing| == |EntryIds(items)| {
      SubsetOfSameSize(existing, EntryIds(items));
    } else {
      assert existing != EntryIds(items);
    }
  }

  lemma SubsetOfSameSize(a: set<Id>, b: set<Id>)
    requires a <= b && |a| == |b|
    ensures a == b
  {
    assert b == a + (b - a);
    assert |b| == |a| + |b - a|;
  }

  lemma {:induction false} DistinctIdsAtMostEntries(items: seq<Entry>)
    ensures |EntryIds(items)| <= |items|
    ensures |EntryIds(items)| == |items| <==> forall i, j :: 0 <= i < j < |items| ==> items[i].id != items[j].id
  {
    if items != [] {
      var front, e := items[..|items| - 1], items[|items| - 1];
      DistinctIdsAtMostEntries(front);
      assert items == front + [e];
      LastOrderAppend(front, e, e.id);
      if e.id in EntryIds(front) {
        assert EntryIds(items) == EntryIds(front);
      } else {
        assert |EntryIds(items)| == |EntryIds(front)| + 1;
      }
    }
  }
}
