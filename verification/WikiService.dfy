/**
 The wiki file system service.  `nodes` is its table; the closure rows it reads are those
 derived from `nodes`, delivered in any order the query allows.
 */
module WikiService {
  import opened Wrappers
  import opened WikiForest
  import opened WikiAccess
  import opened WikiRuns
  import opened WikiPath

  class WikiFileSystemService {
    var nodes: Table

    ghost predicate Valid()
      reads this
    {
      Forest(nodes)
    }

    constructor ()
      ensures Valid() && nodes == map[]
    {
      nodes := map[];
    }

    // ---- queries ----

    static lemma SomeRowIsDeepest(rows: set<Row>)
      requires rows != {}
      ensures exists r :: r in rows && forall q :: q in rows ==> q.depth <= r.depth
    {
      var r :| r in rows;
      if rows != {r} {
        SomeRowIsDeepest(rows - {r});
        var s :| s in rows - {r} && forall q :: q in rows - {r} ==> q.depth <= s.depth;
        assert forall q :: q in rows ==> q == r || q in rows - {r};
        var top := if s.depth < r.depth then r else s;
        assert top in rows && forall q :: q in rows ==> q.depth <= top.depth;
      }
    }

    /** The rows of `q`, in some order. */
    static method Query(q: set<Row>) returns (rows: seq<Row>)
      ensures Answers(rows, q)
    {
      rows := [];
      var todo := q;
      while todo != {}
        invariant NoDuplicates(rows) && todo <= q
        invariant forall r :: r in rows <==> r in q && r !in todo
      {
        var r :| r in todo;
        rows, todo := rows + [r], todo - {r};
      }
    }

    /** The rows of `q`, by falling depth. */
    static method QueryRootFirst(q: set<Row>) returns (rows: seq<Row>)
      ensures Answers(rows, q) && RootFirst(rows)
    {
      rows := [];
      var todo := q;
      while todo != {}
        invariant NoDuplicates(rows) && todo <= q && RootFirst(rows)
        invariant forall r :: r in rows <==> r in q && r !in todo
        invariant forall r, s :: r in rows && s in todo ==> s.depth <= r.depth
      {
        SomeRowIsDeepest(todo);
        var r :| r in todo && forall s :: s in todo ==> s.depth <= r.depth;
        assert forall i :: 0 <= i < |rows| ==> rows[i] in rows;
        rows, todo := rows + [r], todo - {r};
      }
    }

    /** The live rows at or below `id`. */
    method FolderStructure(id: Id) returns (r: seq<Crumb>)
      requires Valid()
      ensures forall x :: x in Ids(r) <==> Live(nodes, x) && Below(nodes, x, id)
      ensures NoDuplicates(r)
      ensures forall x, k: nat :: Crumb(x, k) in r <==>
                x in nodes && !nodes[x].deleted && k < |Chain(nodes, x)| && Chain(nodes, x)[k] == id
    {
      var rows := Query(RowsOfAncestor(nodes, id));
      r := LiveDescendants(nodes, rows);
      DescendantCrumbs(nodes, id, rows);
      forall x ensures x in Ids(r) <==> Live(nodes, x) && Below(nodes, x, id) {
        SubtreeAnswer(nodes, id, rows, x);
      }
    }

    /** The breadcrumb of `id`, root first. */
    method PathToRoot(id: Id) returns (r: seq<Crumb>)
      requires Valid()
      ensures r == if id in nodes then Breadcrumb(nodes, id) else []
      ensures forall i, j :: 0 <= i < j < |r| ==> r[i].depth > r[j].depth
      ensures forall x, k: nat :: Crumb(x, k) in r <==>
                && id in nodes && k < |Chain(nodes, id)| && Chain(nodes, id)[k] == x
                && x in nodes && !nodes[x].deleted
    {
      var rows := QueryRootFirst(RowsOfDescendant(nodes, id));
      r := LiveAncestors(nodes, rows);
      if id in nodes {
        BreadcrumbAnswer(nodes, id, rows);
        CrumbsMean(nodes, Chain(nodes, id), 0);
      } else {
        EmptyOrHasFirst(rows);
      }
    }

    // ---- creating ----

    method Insert(id: Id, node: Node) returns (r: Result<Node, WikiError>)
      requires Valid() && id !in nodes
      modifies this
      ensures nodes == After(old(nodes), Create(id, node)) && Valid()
      ensures r == match Refusal(old(nodes), Create(id, node)) case None => Ok(node) case Some(e) => Err(e)
    {
      StepKeepsForest(nodes, Create(id, node));
      if !ParentExists(nodes, node.parentId) {
        return Err(ParentMissing);
      }
      nodes := nodes[id := node];
      r := Ok(node);
    }

    /** A folder is public unless stated otherwise. */
    method CreateFolder(id: Id, name: string, parentId: Option<Id>, isPublic: Option<bool>,
                        rankIds: Option<seq<Id>>, positionIds: Option<seq<Id>>, departmentIds: Option<seq<Id>>)
      returns (r: Result<Node, WikiError>)
      requires Valid() && id !in nodes
      modifies this
      ensures Valid()
      ensures r.Err? <==> parentId.Some? && parentId.value !in old(nodes)
      ensures r.Err? ==> r.error == ParentMissing && nodes == old(nodes)
      ensures r.Ok? ==> nodes == old(nodes)[id := r.value]
      ensures r.Ok? ==> r.value == Node(name, Folder, parentId, false, isPublic != Some(false),
                                        rankIds, positionIds, departmentIds)
    {
      var public := if isPublic.Some? then isPublic.value else true;
      r := Insert(id, Node(name, Folder, parentId, false, public, rankIds, positionIds, departmentIds));
    }

    /** A file carries no permission lists. */
    method CreateFile(id: Id, name: string, parentId: Option<Id>, isPublic: Option<bool>)
      returns (r: Result<Node, WikiError>)
      requires Valid() && id !in nodes
      modifies this
      ensures Valid()
      ensures r.Err? <==> parentId.Some? && parentId.value !in old(nodes)
      ensures r.Err? ==> r.error == ParentMissing && nodes == old(nodes)
      ensures r.Ok? ==> nodes == old(nodes)[id := r.value]
      ensures r.Ok? ==> r.value == Node(name, File, parentId, false, isPublic != Some(false), None, None, None)
    {
      var public := if isPublic.Some? then isPublic.value else true;
      r := Insert(id, Node(name, File, parentId, false, public, None, None, None));
    }

    // ---- moving and deleting ----

    /**
     Moves a row under another parent.  The state stays a forest exactly if the row is not
     hung under one of its own deleted descendants.
     */
    method UpdatePath(id: Id, parentId: Option<Id>) returns (r: Result<Node, WikiError>)
      requires Valid()
      modifies this
      ensures nodes == After(old(nodes), Move(id, parentId))
      ensures var found := id in old(nodes) && !old(nodes)[id].deleted;
              var cyclic := parentId.Some? && parentId.value in old(nodes) && !old(nodes)[parentId.value].deleted
                && id in Chain(old(nodes), parentId.value);
              var missing := parentId.Some? && parentId.value !in old(nodes);
              && (r == Err(NotFound) <==> !found)
              && (r == Err(CannotMoveToDescendant) <==> found && cyclic)
              && (r == Err(ParentMissing) <==> found && missing)
              && (r.Ok? <==> found && !cyclic && !missing)
              && nodes == if r.Ok? then old(nodes)[id := old(nodes)[id].(parentId := parentId)] else old(nodes)
      ensures match Refusal(old(nodes), Move(id, parentId))
              case Some(e) => r == Err(e)
              case None => r == Ok(old(nodes)[id].(parentId := parentId)) && nodes[id] == r.value
      ensures Valid() <==> !UnderOwnDeleted(old(nodes), Move(id, parentId))
    {
      StepKeepsForest(nodes, Move(id, parentId));
      if !Live(nodes, id) {
        return Err(NotFound);
      }
      var wiki := nodes[id];
      if parentId.Some? {
        var descendants := FolderStructure(id);
        if parentId.value in Ids(descendants) {
          return Err(CannotMoveToDescendant);
        }
      }
      wiki := wiki.(parentId := parentId);
      if !ParentExists(nodes, parentId) {
        return Err(ParentMissing);
      }
      nodes := nodes[id := wiki];
      r := Ok(wiki);
    }

    /** The general edit: each part is overwritten only if it is given. */
    method UpdateWiki(id: Id, change: Change) returns (r: Result<Node, WikiError>)
      requires Valid()
      modifies this
      ensures Valid() && nodes == After(old(nodes), Edit(id, change))
      ensures r == if id in nodes && !nodes[id].deleted then Ok(nodes[id]) else Err(NotFound)
      ensures r.Err? ==> nodes == old(nodes)
      ensures r.Ok? ==> nodes == old(nodes)[id := r.value] && var was := old(nodes)[id];
                && r.value.name == (if change.name.Some? then change.name.value else was.name)
                && r.value.isPublic == (if change.isPublic.Some? then change.isPublic.value else was.isPublic)
                && r.value.rankIds == (if change.rankIds.Some? then change.rankIds.value else was.rankIds)
                && r.value.positionIds ==
                   (if change.positionIds.Some? then change.positionIds.value else was.positionIds)
                && r.value.departmentIds ==
                   (if change.departmentIds.Some? then change.departmentIds.value else was.departmentIds)
                && r.value.kind == was.kind && r.value.parentId == was.parentId && r.value.deleted == was.deleted
      ensures r == match Refusal(old(nodes), Edit(id, change)) case None => Ok(nodes[id]) case Some(e) => Err(e)
    {
      StepKeepsForest(nodes, Edit(id, change));
      if !Live(nodes, id) {
        return Err(NotFound);
      }
      var wiki := nodes[id];
      if change.name.Some? {
        wiki := wiki.(name := change.name.value);
      }
      if change.isPublic.Some? {
        wiki := wiki.(isPublic := change.isPublic.value);
      }
      wiki := WithLists(wiki, change.rankIds, change.positionIds, change.departmentIds);
      nodes := nodes[id := wiki];
      r := Ok(wiki);
    }

    static method WithLists(node: Node, rankIds: Option<Option<seq<Id>>>, positionIds: Option<Option<seq<Id>>>,
                            departmentIds: Option<Option<seq<Id>>>) returns (wiki: Node)
      ensures wiki == node.(rankIds := Given(rankIds, node.rankIds),
                            positionIds := Given(positionIds, node.positionIds),
                            departmentIds := Given(departmentIds, node.departmentIds))
    {
      wiki := node;
      if rankIds.Some? {
        wiki := wiki.(rankIds := rankIds.value);
      }
      if positionIds.Some? {
        wiki := wiki.(positionIds := positionIds.value);
      }
      if departmentIds.Some? {
        wiki := wiki.(departmentIds := departmentIds.value);
      }
    }

    method UpdateVisibility(id: Id, v: Visibility) returns (r: Result<Node, WikiError>)
      requires Valid()
      modifies this
      ensures Valid() && nodes == After(old(nodes), Publish(id, v))
      ensures r == if id in nodes && !nodes[id].deleted then Ok(nodes[id]) else Err(NotFound)
      ensures r.Err? ==> nodes == old(nodes)
      ensures r.Ok? ==> nodes == old(nodes)[id := r.value] && var was := old(nodes)[id];
                && r.value.isPublic == v.isPublic
                && r.value.rankIds == (if v.rankIds.Some? then v.rankIds.value else was.rankIds)
                && r.value.positionIds == (if v.positionIds.Some? then v.positionIds.value else was.positionIds)
                && r.value.departmentIds == (if v.departmentIds.Some? then v.departmentIds.value else was.departmentIds)
                && r.value.name == was.name && r.value.kind == was.kind
                && r.value.parentId == was.parentId && r.value.deleted == was.deleted
      ensures r == match Refusal(old(nodes), Publish(id, v)) case None => Ok(nodes[id]) case Some(e) => Err(e)
    {
      StepKeepsForest(nodes, Publish(id, v));
      if !Live(nodes, id) {
        return Err(NotFound);
      }
      var wiki := WithLists(nodes[id].(isPublic := v.isPublic), v.rankIds, v.positionIds, v.departmentIds);
      nodes := nodes[id := wiki];
      r := Ok(wiki);
    }

    method DeleteWiki(id: Id) returns (r: Result<bool, WikiError>)
      requires Valid()
      modifies this
      ensures Valid() && nodes == After(old(nodes), Delete(id))
      ensures r == match Refusal(old(nodes), Delete(id)) case None => Ok(true) case Some(e) => Err(e)
      ensures r == if id in old(nodes) && !old(nodes)[id].deleted then Ok(true) else Err(NotFound)
      ensures nodes == if r.Ok? then old(nodes)[id := old(nodes)[id].(deleted := true)] else old(nodes)
    {
      StepKeepsForest(nodes, Delete(id));
      if !Live(nodes, id) {
        return Err(NotFound);
      }
      nodes := nodes[id := nodes[id].(deleted := true)];
      r := Ok(true);
    }

    method DeleteEmptyFolder(id: Id) returns (r: Result<bool, WikiError>)
      requires Valid()
      modifies this
      ensures Valid() && nodes == After(old(nodes), DeleteFolderOnly(id))
      ensures r == match Refusal(old(nodes), DeleteFolderOnly(id)) case None => Ok(true) case Some(e) => Err(e)
      ensures r.Ok? ==> forall x :: x in nodes && nodes[x].parentId == Some(id) ==> nodes[x].deleted
      ensures var found := id in old(nodes) && !old(nodes)[id].deleted;
              && (r == Err(NotFound) <==> !found)
              && (r == Err(NotAFolder) <==> found && old(nodes)[id].kind == File)
              && (r == Err(FolderNotEmpty) <==>
                   && found && old(nodes)[id].kind == Folder
                   && exists x :: x in old(nodes) && !old(nodes)[x].deleted && old(nodes)[x].parentId == Some(id))
              && (r.Ok? ==> r.value)
              && nodes == if r.Ok? then old(nodes)[id := old(nodes)[id].(deleted := true)] else old(nodes)
    {
      StepKeepsForest(nodes, DeleteFolderOnly(id));
      if !Live(nodes, id) {
        return Err(NotFound);
      }
      if !nodes[id].kind.Folder? {
        return Err(NotAFolder);
      }
      if HasLiveChild(nodes, id) {
        return Err(FolderNotEmpty);
      }
      nodes := nodes[id := nodes[id].(deleted := true)];
      r := Ok(true);
    }

    // ---- access ----

    /** Scans the folders above in whatever order they arrive and stops at the first refusal. */
    method CheckAccess(id: Id, e: Employee) returns (r: Result<bool, WikiError>)
      requires Valid()
      ensures r == if id in nodes && !nodes[id].deleted then Ok(Decision(nodes, id, e)) else Err(NotFound)
    {
      if id in nodes {
        AccessIsDecided(nodes, id, e);
      }
      if !Live(nodes, id) {
        return Err(NotFound);
      }
      var target := nodes[id];
      if target.kind.File? && !target.isPublic {
        return Ok(false);
      }
      ScanDecidesAccess(nodes, id, e);
      var rows := Query(AncestorFolders(nodes, id));
      for i := 0 to |rows|
        invariant forall k :: 0 <= k < i ==> rows[k].ancestor in nodes && Admits(nodes[rows[k].ancestor], e)
      {
        assert rows[i] in rows;
        var folder := nodes[rows[i].ancestor];
        if folder.isPublic {
          continue;
        }
        if !(Grants(folder.rankIds, e.rankId) || Grants(folder.positionIds, e.positionId)
             || Grants(folder.departmentIds, e.departmentId)) {
          return Ok(false);
        }
      }
      r := Ok(true);
    }

    // ---- folders by path ----

    /** Some live folder with this name under this parent, if there is one. */
    method FindFolder(parent: Option<Id>, name: string) returns (r: Option<Id>)
      ensures match r
              case Some(x) => IsFolderNamed(nodes, x, parent, name)
              case None => forall x :: !IsFolderNamed(nodes, x, parent, name)
    {
      if x :| x in nodes && IsFolderNamed(nodes, x, parent, name) {
        r := Some(x);
      } else {
        r := None;
      }
    }

    /** Descends from the top, one name at a time, without going back. */
    method FolderAtPath(path: string) returns (r: Result<Id, WikiError>)
      ensures r == Err(BadPath) <==> ParsePath(path).Err?
      ensures r.Ok? ==> Located(nodes, Some(r.value), ParsePath(path).value)
      ensures r.Ok? ==> exists c: seq<Id> :: c != [] && c[|c| - 1] == r.value && IsPath(nodes, c, ParsePath(path).value)
      ensures r.Err? && r.error != BadPath ==>
                r.error.NameMissing? && exists at :: DeadEnd(nodes, ParsePath(path).value, r.error.depth, at)
      ensures ParsePath(path).Ok? && AlikeAlong(nodes, ParsePath(path).value) ==>
                (r.Ok? <==> exists x :: Located(nodes, Some(x), ParsePath(path).value))
    {
      var parsed := ParsePath(path);
      if parsed.Err? {
        return Err(BadPath);
      }
      var names := parsed.value;
      ParsedPathIsCanonical(path, names);
      var currentParentId: Option<Id> := None;
      var i := 0;
      while i < |names|
        invariant 0 <= i <= |names|
        invariant Located(nodes, currentParentId, names[..i])
      {
        var folder := FindFolder(currentParentId, names[i]);
        if folder.None? {
          assert DeadEnd(nodes, names, i, currentParentId);
          if x :| Located(nodes, Some(x), names) {
            LookupIsExact(nodes, x, names);
          }
          return Err(NameMissing(i));
        }
        assert names[..i + 1][..i] == names[..i];
        currentParentId := folder;
        i := i + 1;
      }
      assert names[..i] == names;
      r := Ok(currentParentId.value);
      var c := LocatedIsPath(nodes, r.value, names);
    }
  }
}
