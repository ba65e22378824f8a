/**
 The steps that change the wiki tree, as functions on the table, and what runs of them keep.
 */
module WikiRuns {
  import opened Wrappers
  import opened WikiForest
  import opened WikiAccess

  datatype WikiError =
    | NotFound
    | CannotMoveToDescendant
    | NotAFolder
    | FolderNotEmpty
    | ParentMissing              // the foreign key of `parentId`
    | NameMissing(depth: nat)    // no folder with the name at this position of a path
    | BadPath

  datatype Op =
    | Create(id: Id, node: Node)
    | Move(id: Id, parentId: Option<Id>)
    | Edit(id: Id, change: Change)
    | Publish(id: Id, visibility: Visibility)
    | Delete(id: Id)
    | DeleteFolderOnly(id: Id)

  /** What an edit may give; what is not given stays as it is. */
  datatype Change = Change(
    name: Option<string>,
    isPublic: Option<bool>,
    rankIds: Option<Option<seq<Id>>>,
    positionIds: Option<Option<seq<Id>>>,
    departmentIds: Option<Option<seq<Id>>>)

  /** A change of visibility always says whether the row is public, and gives no name. */
  datatype Visibility = Visibility(
    isPublic: bool,
    rankIds: Option<Option<seq<Id>>>,
    positionIds: Option<Option<seq<Id>>>,
    departmentIds: Option<Option<seq<Id>>>)

  function ChangeOf(v: Visibility): Change {
    Change(None, Some(v.isPublic), v.rankIds, v.positionIds, v.departmentIds)
  }

  function Given<T>(change: Option<T>, current: T): T {
    if change.Some? then change.value else current
  }

  function Edited(node: Node, c: Change): Node {
    node.(name := Given(c.name, node.name),
          isPublic := Given(c.isPublic, node.isPublic),
          rankIds := Given(c.rankIds, node.rankIds),
          positionIds := Given(c.positionIds, node.positionIds),
          departmentIds := Given(c.departmentIds, node.departmentIds))
  }

  function HasLiveChild(t: Table, id: Id): bool {
    exists x | x in t :: Live(t, x) && t[x].parentId == Some(id)
  }

  predicate ParentExists(t: Table, p: Option<Id>) {
    p.Some? ==> p.value in t
  }

  /** Why a step is refused, if it is. */
  function Refusal(t: Table, op: Op): Option<WikiError>
    requires Forest(t)
  {
    match op
    case Create(id, node) =>
      if ParentExists(t, node.parentId) then None else Some(ParentMissing)
    case Move(id, p) =>
      if !Live(t, id) then Some(NotFound)
      else if p.Some? && Live(t, p.value) && Below(t, p.value, id) then Some(CannotMoveToDescendant)
      else if ParentExists(t, p) then None else Some(ParentMissing)
    case Edit(id, _) =>
      if Live(t, id) then None else Some(NotFound)
    case Publish(id, _) =>
      if Live(t, id) then None else Some(NotFound)
    case Delete(id) =>
      if Live(t, id) then None else Some(NotFound)
    case DeleteFolderOnly(id) =>
      if !Live(t, id) then Some(NotFound)
      else if !t[id].kind.Folder? then Some(NotAFolder)
      else if HasLiveChild(t, id) then Some(FolderNotEmpty)
      else None
  }

  /** The table after a step; a refused step changes nothing. */
  function After(t: Table, op: Op): Table
    requires Forest(t)
  {
    if Refusal(t, op).Some? then t
    else
      match op
      case Create(id, node) => t[id := node]
      case Move(id, p) => Reparented(t, id, p)
      case Edit(id, change) => t[id := Edited(t[id], change)]
      case Publish(id, visibility) => t[id := Edited(t[id], ChangeOf(visibility))]
      case Delete(id) => t[id := t[id].(deleted := true)]
      case DeleteFolderOnly(id) => t[id := t[id].(deleted := true)]
  }

  /** The step hangs a live row under one of its own soft-deleted descendants. */
  predicate UnderOwnDeleted(t: Table, op: Op)
    requires Forest(t)
  {
    && op.Move? && op.parentId.Some?
    && Live(t, op.id)
    && op.parentId.value in t && t[op.parentId.value].deleted
    && Below(t, op.parentId.value, op.id)
  }

  /** New rows get an id that is not in use. */
  predicate FreshId(t: Table, op: Op) {
    op.Create? ==> op.id !in t
  }

  /** A single step keeps the forest, except when it hangs a row under its own deleted descendant. */
  lemma StepKeepsForest(t: Table, op: Op)
    requires Forest(t) && FreshId(t, op)
    ensures Forest(After(t, op)) <==> !UnderOwnDeleted(t, op)
  {
    if Refusal(t, op).None? {
      match op
      case Create(id, node) => InsertKeepsForest(t, id, node);
      case Move(id, p) =>
        if UnderOwnDeleted(t, op) {
          MoveUnderDescendantMakesCycle(t, id, p.value);
        } else {
          MoveSplicesChains(t, id, p);
        }
      case Edit(id, _) => ShapeKeepsForest(t, After(t, op));
      case Publish(id, _) => ShapeKeepsForest(t, After(t, op));
      case Delete(id) => ShapeKeepsForest(t, After(t, op));
      case DeleteFolderOnly(id) => ShapeKeepsForest(t, After(t, op));
    }
  }

  /** The table after all steps, or nothing once some step has left a row without a root. */
  ghost function RunOf(t: Table, ops: seq<Op>): Option<Table>
    decreases |ops|
  {
    if !Forest(t) then None
    else if ops == [] then Some(t)
    else RunOf(After(t, ops[0]), ops[1..])
  }

  ghost predicate FreshIds(t: Table, ops: seq<Op>)
    requires Forest(t)
    decreases |ops|
  {
    ops == [] || (FreshId(t, ops[0]) && (Forest(After(t, ops[0])) ==> FreshIds(After(t, ops[0]), ops[1..])))
  }

  /** No step of the run hangs a row under its own deleted descendant. */
  ghost predicate NeverUnderOwnDeleted(t: Table, ops: seq<Op>)
    requires Forest(t)
    decreases |ops|
  {
    ops == [] || (!UnderOwnDeleted(t, ops[0]) &&
                  (Forest(After(t, ops[0])) ==> NeverUnderOwnDeleted(After(t, ops[0]), ops[1..])))
  }

  /** Every run keeps every row connected to a root exactly if no step makes that one mistake. */
  lemma {:induction false} RunKeepsForest(t: Table, ops: seq<Op>)
    requires Forest(t) && FreshIds(t, ops)
    ensures RunOf(t, ops).Some? <==> NeverUnderOwnDeleted(t, ops)
    ensures RunOf(t, ops).Some? ==> Forest(RunOf(t, ops).value)
    decreases |ops|
  {
    if ops != [] {
      StepKeepsForest(t, ops[0]);
      if Forest(After(t, ops[0])) {
        RunKeepsForest(After(t, ops[0]), ops[1..]);
      }
    }
  }

  /**
   The rejection test is exact for live targets: whatever order the subtree is read in and
   whatever is deleted in between, the id is among those read exactly if it is the row itself
   or some number of parent hops below it, and exactly then the move is refused.
   */
  lemma RejectionIsExact(t: Table, id: Id, rows: seq<Row>, p: Id)
    requires Forest(t) && Live(t, id) && Live(t, p) && Answers(rows, RowsOfAncestor(t, id))
    ensures p in Ids(LiveDescendants(t, rows)) <==> p == id || exists k: nat :: k > 0 && IsAncestorAt(t, id, p, k)
    ensures p in Ids(LiveDescendants(t, rows)) <==>
            Refusal(t, Move(id, Some(p))) == Some(CannotMoveToDescendant)
  {
    SubtreeAnswer(t, id, rows, p);
    var c := Chain(t, p);
    assert c[0] == p;
    if Below(t, p, id) {
      var k :| 0 <= k < |c| && c[k] == id;
      assert IsAncestorAt(t, id, p, k);
    }
  }

  /** A deleted folder in between does not hide the cycle; a deleted target does. */
  lemma DeletedTargetMakesCycle()
    ensures exists t: Table, id, p :: Forest(t) && Live(t, id) && p in t && Below(t, p, id)
              && Refusal(t, Move(id, Some(p))).None? && !Forest(After(t, Move(id, Some(p))))
  {
    var top := Node("a", Folder, None, false, true, None, None, None);
    var t: Table := map[1 := top, 2 := top.(name := "b", parentId := Some(1), deleted := true)];
    assert IsChain(t, 1, [1]);
    assert [2, 1][1..] == [1];
    assert IsChain(t, 2, [2, 1]);
    ChainIsUnique(t, 2, Chain(t, 2), [2, 1]);
    assert UnderOwnDeleted(t, Move(1, Some(2)));
    StepKeepsForest(t, Move(1, Some(2)));
  }

  /** The tests that a move makes before it saves, and the one it does not make. */
  predicate Passed(t: Table, id: Id, p: Option<Id>)
    requires Forest(t)
  {
    Refusal(t, Move(id, p)).None? && !UnderOwnDeleted(t, Move(id, p))
  }

  lemma PassedIsOutside(t: Table, id: Id, p: Option<Id>)
    requires Forest(t) && Passed(t, id, p)
    ensures id in t && (p.Some? ==> p.value in t && !Below(t, p.value, id))
  {
  }

  /** The target of one move lies at or below the row of another. */
  predicate IntoSubtree(t: Table, p: Option<Id>, id: Id)
    requires Forest(t)
  {
    p.Some? && p.value in t && Below(t, p.value, id)
  }

  /** Where row `d` is after the first of two moves. */
  lemma BelowAfterMove(t: Table, a: Id, p: Option<Id>, d: Id, b: Id)
    requires Forest(t) && Passed(t, a, p) && d in t && b in t && a != b && !Below(t, d, b)
    ensures Forest(Reparented(t, a, p))
    ensures Below(Reparented(t, a, p), d, b) <==> Below(t, d, a) && IntoSubtree(t, p, b)
  {
    PassedIsOutside(t, a, p);
    MoveSplicesChains(t, a, p);
    var c := Chain(t, d);
    if a in c {
      assert UpTo(c, a) <= c;
    }
  }

  /**
   Two overlapping moves of different rows: both make their tests on the same table, then both
   save.  They leave a forest exactly if not each moves its row into the subtree of the other.
   */
  lemma OverlappingMoves(t: Table, a: Id, p: Option<Id>, b: Id, q: Option<Id>)
    requires Forest(t) && a != b && Passed(t, a, p) && Passed(t, b, q)
    ensures Forest(Reparented(Reparented(t, a, p), b, q)) <==> !(IntoSubtree(t, q, a) && IntoSubtree(t, p, b))
  {
    PassedIsOutside(t, a, p);
    PassedIsOutside(t, b, q);
    MoveSplicesChains(t, a, p);
    var t1 := Reparented(t, a, p);
    if q.Some? {
      BelowAfterMove(t, a, p, q.value, b);
    }
    if q.Some? && Below(t1, q.value, b) {
      MoveUnderDescendantMakesCycle(t1, b, q.value);
    } else {
      MoveSplicesChains(t1, b, q);
    }
  }

  /** A soft delete hides a row but keeps the tree: nothing moves, and nothing else is deleted. */
  lemma {:induction false} DeleteHidesOneRow(t: Table, id: Id, d: Id)
    requires Forest(t) && Live(t, id) && d in t
    ensures Forest(After(t, Delete(id)))
    ensures Chain(After(t, Delete(id)), d) == Chain(t, d)
    ensures Live(After(t, Delete(id)), d) <==> Live(t, d) && d != id
  {
    ShapeKeepsForest(t, After(t, Delete(id)));
  }

  lemma DeleteChangesOneCheck(t: Table, id: Id, a: Id, e: Employee)
    requires Forest(t) && Live(t, id)
    ensures Passes(After(t, Delete(id)), a, e) <==> a == id || Passes(t, a, e)
  {
  }

  /**
   Soft-deleting a folder never takes access away: its own check is no longer made, so
   everything below it opens to whoever passes the remaining folders.
   */
  lemma DeleteWidensAccess(t: Table, id: Id, d: Id, e: Employee)
    requires Forest(t) && Live(t, id) && d in t && d != id
    ensures Forest(After(t, Delete(id)))
    ensures MayOpen(After(t, Delete(id)), d, e) <==>
            && (t[d].kind.File? ==> t[d].isPublic)
            && forall a :: a in Chain(t, d) && a != id ==> Passes(t, a, e)
  {
    var t' := After(t, Delete(id));
    DeleteHidesOneRow(t, id, d);
    AllowedUpIsAlongChain(t', d, e);
    forall a | a in Chain(t, d) ensures Passes(t', a, e) <==> a == id || Passes(t, a, e) {
      DeleteChangesOneCheck(t, id, a, e);
    }
  }

  lemma {:induction false} CrumbsAfterEdit(t: Table, t': Table, c: seq<Id>, k: nat)
    requires forall a :: Live(t, a) <==> Live(t', a)
    ensures Crumbs(t', c, k) == Crumbs(t, c, k)
  {
    if c != [] {
      CrumbsAfterEdit(t, t', c[1..], k + 1);
    }
  }

  /** An edit moves nothing and leaves the rows of every breadcrumb. */
  lemma {:induction false} EditKeepsTree(t: Table, id: Id, change: Change, d: Id)
    requires Forest(t) && Live(t, id) && d in t
    ensures var t' := After(t, Edit(id, change));
            Forest(t') && Chain(t', d) == Chain(t, d) && Breadcrumb(t', d) == Breadcrumb(t, d)
  {
    var t' := After(t, Edit(id, change));
    ShapeKeepsForest(t, t');
    CrumbsAfterEdit(t, t', Chain(t, d), 0);
  }

  lemma EditKeepsOtherChecks(t: Table, id: Id, change: Change, a: Id, e: Employee)
    requires Forest(t) && Live(t, id) && a != id
    ensures Passes(After(t, Edit(id, change)), a, e) == Passes(t, a, e)
  {
  }

  lemma OnOwnChain(t: Table, d: Id)
    requires Forest(t) && d in t
    ensures Below(t, d, d)
  {
    assert Chain(t, d)[0] == d;
  }

  /** Editing a row changes the access to no row that is not at or below it. */
  lemma EditSparesOthers(t: Table, id: Id, change: Change, d: Id, e: Employee)
    requires Forest(t) && Live(t, id) && d in t && !Below(t, d, id)
    ensures Forest(After(t, Edit(id, change)))
    ensures MayOpen(After(t, Edit(id, change)), d, e) == MayOpen(t, d, e)
  {
    var t' := After(t, Edit(id, change));
    EditKeepsTree(t, id, change, d);
    AllowedUpIsAlongChain(t, d, e);
    AllowedUpIsAlongChain(t', d, e);
    forall a | a in Chain(t, d) ensures Passes(t', a, e) == Passes(t, a, e) {
      EditKeepsOtherChecks(t, id, change, a, e);
    }
    OnOwnChain(t, d);
  }

  /** At and below the row only its own check differs. */
  lemma EditReachesSubtree(t: Table, id: Id, change: Change, d: Id, e: Employee)
    requires Forest(t) && Live(t, id) && d in t && Below(t, d, id)
    ensures var t' := After(t, Edit(id, change));
            && Forest(t')
            && (MayOpen(t', d, e) <==>
                 && (t'[d].kind.File? ==> t'[d].isPublic)
                 && Passes(t', id, e)
                 && forall a :: a in Chain(t, d) && a != id ==> Passes(t, a, e))
  {
    var t' := After(t, Edit(id, change));
    EditKeepsTree(t, id, change, d);
    AllowedUpIsAlongChain(t', d, e);
    forall a | a in Chain(t, d) && a != id ensures Passes(t', a, e) == Passes(t, a, e) {
      EditKeepsOtherChecks(t, id, change, a, e);
    }
  }

  /**
   A change of visibility is such an edit: it moves nothing, leaves every breadcrumb, and
   changes access only at and below the row, by its own check.
   */
  lemma PublishReachesOnlySubtree(t: Table, id: Id, v: Visibility, d: Id, e: Employee)
    requires Forest(t) && Live(t, id) && d in t
    ensures var t' := After(t, Publish(id, v));
            && Forest(t')
            && Chain(t', d) == Chain(t, d) && Breadcrumb(t', d) == Breadcrumb(t, d)
            && (!Below(t, d, id) ==> MayOpen(t', d, e) == MayOpen(t, d, e))
            && (Below(t, d, id) ==>
                  (MayOpen(t', d, e) <==>
                    && (t'[d].kind.File? ==> t'[d].isPublic)
                    && Passes(t', id, e)
                    && forall a :: a in Chain(t, d) && a != id ==> Passes(t, a, e)))
  {
    var change := ChangeOf(v);
    assert After(t, Publish(id, v)) == After(t, Edit(id, change));
    EditKeepsTree(t, id, change, d);
    if Below(t, d, id) {
      EditReachesSubtree(t, id, change, d, e);
    } else {
      EditSparesOthers(t, id, change, d, e);
    }
  }
}
