/**
 What the wiki service reads from the closure table: the subtree of a row, the breadcrumb
 of a row, and the cascading access check.  A query answer is any sequence holding exactly
 the selected rows.
 */
module WikiAccess {
  import opened Wrappers
  import opened WikiForest

  datatype Employee = Employee(rankId: Option<Id>, positionId: Option<Id>, departmentId: Option<Id>)

  datatype Crumb = Crumb(id: Id, depth: nat)

  /** `rows` lists the rows of `q`, each once, in some order. */
  ghost predicate Answers(rows: seq<Row>, q: set<Row>) {
    NoDuplicates(rows) && forall r :: r in rows <==> r in q
  }

  predicate RootFirst(rows: seq<Row>) {
    forall i, j :: 0 <= i < j < |rows| ==> rows[i].depth >= rows[j].depth
  }

  function RowsOfAncestor(t: Table, id: Id): set<Row>
    requires Forest(t)
  {
    set r | r in ClosureOf(t) && r.ancestor == id
  }

  function RowsOfDescendant(t: Table, id: Id): set<Row>
    requires Forest(t)
  {
    set r | r in ClosureOf(t) && r.descendant == id
  }

  // ---- the subtree of a row ----

  /** Drops the rows whose descendant is soft-deleted. */
  function LiveDescendants(t: Table, rows: seq<Row>): seq<Crumb> {
    if rows == [] then []
    else (if Live(t, rows[0].descendant) then [Crumb(rows[0].descendant, rows[0].depth)] else [])
         + LiveDescendants(t, rows[1..])
  }

  function Ids(crumbs: seq<Crumb>): seq<Id> {
    if crumbs == [] then [] else [crumbs[0].id] + Ids(crumbs[1..])
  }

  lemma {:induction false} LiveDescendantIds(t: Table, rows: seq<Row>, x: Id)
    ensures x in Ids(LiveDescendants(t, rows)) <==> Live(t, x) && exists q :: q in rows && q.descendant == x
  {
    if rows != [] {
      assert rows == [rows[0]] + rows[1..];
      LiveDescendantIds(t, rows[1..], x);
      var rest := LiveDescendants(t, rows[1..]);
      if Live(t, rows[0].descendant) {
        var c := Crumb(rows[0].descendant, rows[0].depth);
        assert LiveDescendants(t, rows) == [c] + rest && ([c] + rest)[1..] == rest;
      } else {
        assert LiveDescendants(t, rows) == rest;
      }
    }
  }

  lemma {:induction false} LiveDescendantsMean(t: Table, rows: seq<Row>, id: Id, x: Id, k: nat)
    requires forall r :: r in rows ==> r.ancestor == id
    ensures Crumb(x, k) in LiveDescendants(t, rows) <==> Live(t, x) && Row(id, x, k) in rows
  {
    if rows != [] {
      var first := if Live(t, rows[0].descendant) then [Crumb(rows[0].descendant, rows[0].depth)] else [];
      assert rows == [rows[0]] + rows[1..];
      LiveDescendantsMean(t, rows[1..], id, x, k);
      assert LiveDescendants(t, rows) == first + LiveDescendants(t, rows[1..]);
    }
  }

  lemma {:induction false} LiveDescendantsDiffer(t: Table, rows: seq<Row>, id: Id)
    requires NoDuplicates(rows) && forall r :: r in rows ==> r.ancestor == id
    ensures NoDuplicates(LiveDescendants(t, rows))
  {
    if rows != [] {
      var rest := LiveDescendants(t, rows[1..]);
      assert rows == [rows[0]] + rows[1..];
      LiveDescendantsDiffer(t, rows[1..], id);
      var c := Crumb(rows[0].descendant, rows[0].depth);
      LiveDescendantsMean(t, rows[1..], id, c.id, c.depth);
      assert c !in rest;
    }
  }

  /** The subtree read lists each live row with its distance below `id`, once. */
  lemma DescendantCrumbs(t: Table, id: Id, rows: seq<Row>)
    requires Forest(t) && Answers(rows, RowsOfAncestor(t, id))
    ensures NoDuplicates(LiveDescendants(t, rows))
    ensures forall x, k: nat :: Crumb(x, k) in LiveDescendants(t, rows) <==>
              x in t && !t[x].deleted && k < |Chain(t, x)| && Chain(t, x)[k] == id
  {
    LiveDescendantsDiffer(t, rows, id);
    forall x, k: nat
      ensures Crumb(x, k) in LiveDescendants(t, rows) <==>
              x in t && !t[x].deleted && k < |Chain(t, x)| && Chain(t, x)[k] == id
    {
      LiveDescendantsMean(t, rows, id, x, k);
      ClosureRow(t, id, x, k);
    }
  }

  /**
   The ids that the cycle test compares with: exactly the live rows at or below `id`, also
   those under a soft-deleted row.
   */
  lemma SubtreeAnswer(t: Table, id: Id, rows: seq<Row>, x: Id)
    requires Forest(t) && Answers(rows, RowsOfAncestor(t, id))
    ensures x in Ids(LiveDescendants(t, rows)) <==> Live(t, x) && Below(t, x, id)
  {
    LiveDescendantIds(t, rows, x);
    if Live(t, x) && Below(t, x, id) {
      var k :| 0 <= k < |Chain(t, x)| && Chain(t, x)[k] == id;
      ClosureRow(t, id, x, k);
      assert Row(id, x, k) in rows;
    }
    if q :| q in rows && q.descendant == x {
      assert q in RowsOfAncestor(t, id);
      ClosureRow(t, id, x, q.depth);
    }
  }

  // ---- the breadcrumb of a row ----

  /** Drops the rows whose ancestor is soft-deleted. */
  function LiveAncestors(t: Table, rows: seq<Row>): seq<Crumb> {
    if rows == [] then []
    else (if Live(t, rows[0].ancestor) then [Crumb(rows[0].ancestor, rows[0].depth)] else [])
         + LiveAncestors(t, rows[1..])
  }

  /** The live rows of the chain `c`, root first, where `c[0]` has distance `k`. */
  function Crumbs(t: Table, c: seq<Id>, k: nat): seq<Crumb> {
    if c == [] then []
    else Crumbs(t, c[1..], k + 1) + (if Live(t, c[0]) then [Crumb(c[0], k)] else [])
  }

  function Breadcrumb(t: Table, d: Id): seq<Crumb>
    requires Forest(t) && d in t
  {
    Crumbs(t, Chain(t, d), 0)
  }

  /** The crumbs of a chain are its live rows with their distances, by falling distance. */
  lemma {:induction false} CrumbsMean(t: Table, c: seq<Id>, k: nat)
    ensures forall x, n: nat :: Crumb(x, n) in Crumbs(t, c, k) <==> k <= n < k + |c| && c[n - k] == x && Live(t, x)
    ensures forall i, j :: 0 <= i < j < |Crumbs(t, c, k)| ==> Crumbs(t, c, k)[i].depth > Crumbs(t, c, k)[j].depth
  {
    if c != [] {
      CrumbsMean(t, c[1..], k + 1);
      var rest := Crumbs(t, c[1..], k + 1);
      var own := if Live(t, c[0]) then [Crumb(c[0], k)] else [];
      assert Crumbs(t, c, k) == rest + own;
      forall x, n: nat
        ensures Crumb(x, n) in rest + own <==> k <= n < k + |c| && c[n - k] == x && Live(t, x)
      {
        assert Crumb(x, n) in rest + own <==> Crumb(x, n) in rest || Crumb(x, n) in own;
        assert k + 1 <= n < k + |c| ==> c[1..][n - k - 1] == c[n - k];
      }
      forall i | 0 <= i < |rest| ensures rest[i].depth > k {
        assert Crumb(rest[i].id, rest[i].depth) in rest;
      }
    }
  }

  lemma {:induction false} CrumbsAppend(t: Table, a: seq<Id>, b: seq<Id>, k: nat)
    ensures Crumbs(t, a + b, k) == Crumbs(t, b, k + |a|) + Crumbs(t, a, k)
  {
    if a == [] {
      assert a + b == b;
    } else {
      CrumbsAppend(t, a[1..], b, k + 1);
      assert (a + b)[1..] == a[1..] + b;
    }
  }

  /** `rows` holds the rows of the chain `c` and no others. */
  ghost predicate RowsOfChain(rows: seq<Row>, d: Id, c: seq<Id>) {
    && NoDuplicates(rows)
    && (forall r :: r in rows ==> r.descendant == d && r.depth < |c| && r.ancestor == c[r.depth])
    && (forall k :: 0 <= k < |c| ==> Row(c[k], d, k) in rows)
  }

  /** The first of the sorted rows is the root's; the others are those of the chain without it. */
  lemma RootRowComesFirst(d: Id, c: seq<Id>, rows: seq<Row>)
    requires RowsOfChain(rows, d, c) && RootFirst(rows) && c != []
    ensures rows != [] && rows[0] == Row(c[|c| - 1], d, |c| - 1)
    ensures RowsOfChain(rows[1..], d, c[..|c| - 1])
  {
    var n := |c| - 1;
    assert Row(c[n], d, n) in rows;
    assert rows[0] in rows;
    assert rows == [rows[0]] + rows[1..];
    forall k | 0 <= k < n ensures Row(c[..n][k], d, k) in rows[1..] {
      assert Row(c[k], d, k) in rows;
    }
    forall r | r in rows[1..] ensures r.depth < n {
      assert r in rows;
    }
  }

  lemma CrumbsOfLast(t: Table, c: seq<Id>)
    requires c != []
    ensures Crumbs(t, c, 0) ==
            (if Live(t, c[|c| - 1]) then [Crumb(c[|c| - 1], |c| - 1)] else []) + Crumbs(t, c[..|c| - 1], 0)
  {
    var n := |c| - 1;
    CrumbsAppend(t, c[..n], [c[n]], 0);
    assert c == c[..n] + [c[n]];
    assert Crumbs(t, [c[n]], n) == Crumbs(t, [], n + 1) + if Live(t, c[n]) then [Crumb(c[n], n)] else [];
  }

  lemma {:induction false} SortedRowsAreCrumbs(t: Table, d: Id, c: seq<Id>, rows: seq<Row>)
    requires RowsOfChain(rows, d, c) && RootFirst(rows)
    ensures LiveAncestors(t, rows) == Crumbs(t, c, 0)
    decreases |c|
  {
    if c == [] {
      EmptyOrHasFirst(rows);
    } else {
      var n := |c| - 1;
      RootRowComesFirst(d, c, rows);
      SortedRowsAreCrumbs(t, d, c[..n], rows[1..]);
      CrumbsOfLast(t, c);
    }
  }

  /** Whatever rows the ordered query returns, the result is the live part of the chain, root first. */
  lemma BreadcrumbAnswer(t: Table, d: Id, rows: seq<Row>)
    requires Forest(t) && d in t
    requires Answers(rows, RowsOfDescendant(t, d)) && RootFirst(rows)
    ensures LiveAncestors(t, rows) == Breadcrumb(t, d)
  {
    var c := Chain(t, d);
    assert RowsOfChain(rows, d, c) by {
      forall r | r in rows ensures r.descendant == d && r.depth < |c| && r.ancestor == c[r.depth] {
        ClosureRow(t, r.ancestor, d, r.depth);
      }
      forall k | 0 <= k < |c| ensures Row(c[k], d, k) in rows {
        ClosureRow(t, c[k], d, k);
        assert Row(c[k], d, k) in RowsOfDescendant(t, d);
      }
    }
    SortedRowsAreCrumbs(t, d, c, rows);
  }

  // ---- the access check ----

  predicate Grants(ids: Option<seq<Id>>, own: Option<Id>) {
    ids.Some? && own.Some? && own.value in ids.value
  }

  /** The check made on one folder. */
  predicate Admits(folder: Node, e: Employee) {
    || folder.isPublic
    || Grants(folder.rankIds, e.rankId)
    || Grants(folder.positionIds, e.positionId)
    || Grants(folder.departmentIds, e.departmentId)
  }

  predicate IsLiveFolder(t: Table, a: Id) {
    Live(t, a) && t[a].kind.Folder?
  }

  /** Deleted rows and files on the way up are skipped. */
  predicate Passes(t: Table, a: Id, e: Employee) {
    IsLiveFolder(t, a) ==> Admits(t[a], e)
  }

  /** The reference check: this row, then its parent, and so on. */
  predicate AllowedUp(t: Table, d: Id, e: Employee)
    requires Forest(t) && d in t
    decreases |Chain(t, d)|
  {
    && Passes(t, d, e)
    && match t[d].parentId
       case None => true
       case Some(p) =>
         ParentChain(t, d);
         AllowedUp(t, p, e)
  }

  predicate AllowedAlong(t: Table, c: seq<Id>, e: Employee) {
    forall a :: a in c ==> Passes(t, a, e)
  }

  /** A file that is not public is closed to everyone; anything else follows its folders. */
  predicate MayOpen(t: Table, d: Id, e: Employee)
    requires Forest(t) && d in t
  {
    (t[d].kind.File? ==> t[d].isPublic) && AllowedUp(t, d, e)
  }

  lemma {:induction false} AllowedUpIsAlongChain(t: Table, d: Id, e: Employee)
    requires Forest(t) && d in t
    ensures AllowedUp(t, d, e) <==> AllowedAlong(t, Chain(t, d), e)
    decreases |Chain(t, d)|
  {
    if t[d].parentId.Some? {
      ParentChain(t, d);
      AllowedUpIsAlongChain(t, t[d].parentId.value, e);
    }
  }

  /** An id of the employee is in a list that is given. */
  predicate Listed(ids: Option<seq<Id>>, own: Option<Id>) {
    exists k | 0 <= k < |(if ids.Some? then ids.value else [])| :: own == Some(ids.value[k])
  }

  /**
   The decision in terms of the rows: the row is not a private file, and each folder on its
   chain that is not deleted is public or lists the employee's rank, position or department.
   */
  predicate Decision(t: Table, d: Id, e: Employee)
    requires Forest(t) && d in t
  {
    && !(t[d].kind == File && !t[d].isPublic)
    && forall a :: a in Chain(t, d) && a in t && !t[a].deleted && t[a].kind == Folder ==>
         || t[a].isPublic
         || Listed(t[a].rankIds, e.rankId)
         || Listed(t[a].positionIds, e.positionId)
         || Listed(t[a].departmentIds, e.departmentId)
  }

  lemma AccessIsDecided(t: Table, d: Id, e: Employee)
    requires Forest(t) && d in t
    ensures MayOpen(t, d, e) <==> Decision(t, d, e)
  {
    AllowedUpIsAlongChain(t, d, e);
    forall ids: Option<seq<Id>>, own ensures Grants(ids, own) <==> Listed(ids, own) {
    }
  }

  /** Whoever may open a row may open every live folder above it. */
  lemma AccessReachesFoldersAbove(t: Table, d: Id, a: Id, e: Employee)
    requires Forest(t) && d in t && Below(t, d, a) && IsLiveFolder(t, a)
    requires MayOpen(t, d, e)
    ensures MayOpen(t, a, e)
  {
    var c := Chain(t, d);
    var k :| 0 <= k < |c| && c[k] == a;
    ChainTail(t, d, c, k);
    ChainIsUnique(t, a, c[k..], Chain(t, a));
    AllowedUpIsAlongChain(t, d, e);
    AllowedUpIsAlongChain(t, a, e);
  }

  /** The rows the check scans: the live folders at or above `d`. */
  function AncestorFolders(t: Table, d: Id): set<Row>
    requires Forest(t)
  {
    set r | r in RowsOfDescendant(t, d) && IsLiveFolder(t, r.ancestor)
  }

  /** Scanning those rows in any order decides the reference check. */
  lemma ScanDecidesAccess(t: Table, d: Id, e: Employee)
    requires Forest(t) && d in t
    ensures AllowedUp(t, d, e) <==> forall r :: r in AncestorFolders(t, d) ==> Admits(t[r.ancestor], e)
  {
    var c := Chain(t, d);
    AllowedUpIsAlongChain(t, d, e);
    if forall r :: r in AncestorFolders(t, d) ==> Admits(t[r.ancestor], e) {
      forall a | a in c ensures Passes(t, a, e) {
        var k :| 0 <= k < |c| && c[k] == a;
        ClosureRow(t, a, d, k);
        assert IsLiveFolder(t, a) ==> Row(a, d, k) in AncestorFolders(t, d);
      }
    }
    if AllowedAlong(t, c, e) {
      forall r | r in AncestorFolders(t, d) ensures Admits(t[r.ancestor], e) {
        ClosureRow(t, r.ancestor, d, r.depth);
        assert r.ancestor in c && Passes(t, r.ancestor, e);
      }
    }
  }

  // ---- what a move does to the reads ----

  lemma {:induction false} CrumbsAfterMove(t: Table, id: Id, p: Option<Id>, c: seq<Id>, k: nat)
    requires id in t
    ensures Crumbs(Reparented(t, id, p), c, k) == Crumbs(t, c, k)
  {
    if c != [] {
      CrumbsAfterMove(t, id, p, c[1..], k + 1);
    }
  }

  /** Rows outside the moved subtree keep their breadcrumb and their access decision. */
  lemma MoveLeavesOthers(t: Table, id: Id, p: Option<Id>, d: Id, e: Employee)
    requires Forest(t) && id in t && d in t && !Below(t, d, id)
    requires p.Some? ==> p.value in t && !Below(t, p.value, id)
    ensures Forest(Reparented(t, id, p))
    ensures Breadcrumb(Reparented(t, id, p), d) == Breadcrumb(t, d)
    ensures MayOpen(Reparented(t, id, p), d, e) == MayOpen(t, d, e)
  {
    var t' := Reparented(t, id, p);
    MoveSplicesChains(t, id, p);
    CrumbsAfterMove(t, id, p, Chain(t, d), 0);
    AllowedUpIsAlongChain(t, d, e);
    AllowedUpIsAlongChain(t', d, e);
    MoveKeepsChecks(t, id, p, e);
  }

  /**
   A row at distance `m` below the moved one: its breadcrumb is the one of the new parent
   with distances shifted, followed by the old part.
   */
  lemma MoveSplicesBreadcrumb(t: Table, id: Id, p: Option<Id>, d: Id, m: nat)
    requires Forest(t) && id in t && IsAncestorAt(t, id, d, m)
    requires p.Some? ==> p.value in t && !Below(t, p.value, id)
    ensures Forest(Reparented(t, id, p))
    ensures Breadcrumb(Reparented(t, id, p), d) ==
            Crumbs(t, ChainAbove(t, p), m + 1) + Crumbs(t, Chain(t, d)[..m + 1], 0)
  {
    MovedChain(t, id, p, d, m);
    CrumbsAfterMove(t, id, p, Chain(Reparented(t, id, p), d), 0);
    CrumbsAppend(t, Chain(t, d)[..m + 1], ChainAbove(t, p), 0);
  }

  /**
   The same row may be opened exactly if the checks between it and the moved row pass and
   those from the new parent upwards pass.
   */
  lemma MoveSplicesAccess(t: Table, id: Id, p: Option<Id>, d: Id, m: nat, e: Employee)
    requires Forest(t) && id in t && IsAncestorAt(t, id, d, m)
    requires p.Some? ==> p.value in t && !Below(t, p.value, id)
    ensures Forest(Reparented(t, id, p))
    ensures MayOpen(Reparented(t, id, p), d, e) <==>
            && (t[d].kind.File? ==> t[d].isPublic)
            && AllowedAlong(t, Chain(t, d)[..m + 1], e)
            && (p.Some? ==> AllowedUp(t, p.value, e))
  {
    var t' := Reparented(t, id, p);
    MovedChain(t, id, p, d, m);
    AllowedUpIsAlongChain(t', d, e);
    MoveKeepsChecks(t, id, p, e);
    AllowedConcat(t', Chain(t, d)[..m + 1], ChainAbove(t, p), e);
    if p.Some? {
      AllowedUpIsAlongChain(t, p.value, e);
    }
  }

  lemma MoveKeepsChecks(t: Table, id: Id, p: Option<Id>, e: Employee)
    requires id in t
    ensures forall a :: Passes(Reparented(t, id, p), a, e) == Passes(t, a, e)
  {
  }

  lemma AllowedConcat(t: Table, a: seq<Id>, b: seq<Id>, e: Employee)
    ensures AllowedAlong(t, a + b, e) <==> AllowedAlong(t, a, e) && AllowedAlong(t, b, e)
  {
    assert forall x :: x in a + b <==> x in a || x in b;
  }
}
