/**
 The tree of wiki entries.  Each row names its parent; the closure table of the database
 lists every (ancestor, descendant, distance) triple and is derived from the parents.
 */
module WikiForest {
  import opened Wrappers

  type Id = nat

  datatype Kind = Folder | File

  datatype Node = Node(
    name: string,
    kind: Kind,
    parentId: Option<Id>,
    deleted: bool,
    isPublic: bool,
    rankIds: Option<seq<Id>>,
    positionIds: Option<seq<Id>>,
    departmentIds: Option<seq<Id>>)

  type Table = map<Id, Node>

  /** A row of the closure table: `ancestor` is the `depth`-th ancestor of `descendant`. */
  datatype Row = Row(ancestor: Id, descendant: Id, depth: nat)

  predicate Live(t: Table, d: Id) {
    d in t && !t[d].deleted
  }

  /** `c` lists `d`, its parent, its grandparent, and so on up to a root. */
  ghost predicate IsChain(t: Table, d: Id, c: seq<Id>)
    decreases |c|
  {
    && c != []
    && c[0] == d
    && d in t
    && match t[d].parentId
       case None => |c| == 1
       case Some(p) => IsChain(t, p, c[1..])
  }

  /** Every row reaches a root in finitely many parent hops. */
  ghost predicate Forest(t: Table) {
    forall d :: d in t ==> exists c :: IsChain(t, d, c)
  }

  lemma {:induction false} ChainIsUnique(t: Table, d: Id, c: seq<Id>, b: seq<Id>)
    requires IsChain(t, d, c) && IsChain(t, d, b)
    ensures c == b
    decreases |c|
  {
    assert c == [c[0]] + c[1..] && b == [b[0]] + b[1..];
    match t[d].parentId
    case None =>
    case Some(p) => ChainIsUnique(t, p, c[1..], b[1..]);
  }

  ghost function SomeChain(t: Table, d: Id): (c: seq<Id>)
    requires Forest(t) && d in t
    ensures IsChain(t, d, c)
  {
    var c :| IsChain(t, d, c);
    c
  }

  lemma ParentIsCloser(t: Table, d: Id)
    requires Forest(t) && d in t && t[d].parentId.Some?
    ensures t[d].parentId.value in t
    ensures |SomeChain(t, t[d].parentId.value)| < |SomeChain(t, d)|
  {
    var p := t[d].parentId.value;
    assert IsChain(t, p, SomeChain(t, d)[1..]);
    ChainIsUnique(t, p, SomeChain(t, d)[1..], SomeChain(t, p));
  }

  /** The chain from a row to its root, computed by following `parentId`. */
  function Chain(t: Table, d: Id): (c: seq<Id>)
    requires Forest(t) && d in t
    ensures IsChain(t, d, c)
    decreases |SomeChain(t, d)|
  {
    match t[d].parentId
    case None => [d]
    case Some(p) =>
      ParentIsCloser(t, d);
      assert ([d] + Chain(t, p))[1..] == Chain(t, p);
      [d] + Chain(t, p)
  }

  lemma ParentChain(t: Table, d: Id)
    requires Forest(t) && d in t && t[d].parentId.Some?
    ensures t[d].parentId.value in t
    ensures Chain(t, d) == [d] + Chain(t, t[d].parentId.value)
  {
    ParentIsCloser(t, d);
  }

  /** The closure table. */
  function ClosureOf(t: Table): set<Row>
    requires Forest(t)
  {
    set d, k | d in t && 0 <= k < |Chain(t, d)| :: Row(Chain(t, d)[k], d, k)
  }

  /** `d` is `a` or lies below it. */
  predicate Below(t: Table, d: Id, a: Id)
    requires Forest(t) && d in t
  {
    a in Chain(t, d)
  }

  /** The part of a chain up to and including `a`. */
  function UpTo(c: seq<Id>, a: Id): (r: seq<Id>)
    requires a in c
    ensures r <= c && r != [] && r[|r| - 1] == a
    ensures forall i :: 0 <= i < |r| - 1 ==> r[i] != a
  {
    if c[0] == a then [a] else [c[0]] + UpTo(c[1..], a)
  }

  lemma ChainInTable(t: Table, d: Id, c: seq<Id>)
    requires IsChain(t, d, c)
    ensures forall x :: x in c ==> x in t
    decreases |c|
  {
    assert c == [c[0]] + c[1..];
    if t[d].parentId.Some? {
      ChainInTable(t, t[d].parentId.value, c[1..]);
    }
  }

  /** Each tail of a chain is the chain of the row it starts with. */
  lemma {:induction false} ChainTail(t: Table, d: Id, c: seq<Id>, k: nat)
    requires IsChain(t, d, c) && k < |c|
    ensures IsChain(t, c[k], c[k..])
    decreases k
  {
    if k == 0 {
      assert c[0..] == c;
    } else {
      ChainTail(t, t[d].parentId.value, c[1..], k - 1);
      assert c[1..][k - 1..] == c[k..];
    }
  }

  /** A chain visits no row twice, so a row has one distance from each of its ancestors. */
  lemma {:induction false} ChainHasNoRepeats(t: Table, d: Id, c: seq<Id>)
    requires IsChain(t, d, c)
    ensures NoDuplicates(c)
  {
    forall i, j | 0 <= i < j < |c| ensures c[i] != c[j] {
      ChainTail(t, d, c, i);
      ChainTail(t, d, c, j);
      if c[i] == c[j] {
        ChainIsUnique(t, c[i], c[i..], c[j..]);
      }
    }
  }

  // ---- creating a row ----

  lemma {:induction false} ChainSurvivesInsert(t: Table, id: Id, node: Node, d: Id, c: seq<Id>)
    requires id !in t && IsChain(t, d, c)
    ensures IsChain(t[id := node], d, c)
    decreases |c|
  {
    if t[d].parentId.Some? {
      ChainSurvivesInsert(t, id, node, t[d].parentId.value, c[1..]);
    }
  }

  lemma InsertKeepsForest(t: Table, id: Id, node: Node)
    requires Forest(t) && id !in t
    requires node.parentId.Some? ==> node.parentId.value in t
    ensures Forest(t[id := node])
    ensures forall d :: d in t ==> Chain(t[id := node], d) == Chain(t, d)
  {
    var t' := t[id := node];
    forall d | d in t ensures IsChain(t', d, Chain(t, d)) {
      ChainSurvivesInsert(t, id, node, d, Chain(t, d));
    }
    match node.parentId {
      case None => assert IsChain(t', id, [id]);
      case Some(p) =>
        var c := [id] + Chain(t, p);
        assert c[1..] == Chain(t, p);
        assert IsChain(t', id, c);
    }
    forall d | d in t ensures Chain(t', d) == Chain(t, d) {
      ChainIsUnique(t', d, Chain(t', d), Chain(t, d));
    }
  }

  // ---- changing only attributes ----

  /** The two tables have the same rows with the same parents. */
  predicate SameShape(t: Table, t': Table) {
    t.Keys == t'.Keys && forall d :: d in t ==> t[d].parentId == t'[d].parentId
  }

  lemma {:induction false} ChainFollowsShape(t: Table, t': Table, d: Id, c: seq<Id>)
    requires SameShape(t, t') && IsChain(t, d, c)
    ensures IsChain(t', d, c)
    decreases |c|
  {
    if t[d].parentId.Some? {
      ChainFollowsShape(t, t', t[d].parentId.value, c[1..]);
    }
  }

  lemma ShapeKeepsForest(t: Table, t': Table)
    requires Forest(t) && SameShape(t, t')
    ensures Forest(t')
    ensures forall d :: d in t ==> Chain(t', d) == Chain(t, d)
  {
    forall d | d in t' ensures IsChain(t', d, Chain(t, d)) {
      ChainFollowsShape(t, t', d, Chain(t, d));
    }
    forall d | d in t ensures Chain(t', d) == Chain(t, d) {
      ChainIsUnique(t', d, Chain(t', d), Chain(t, d));
    }
  }

  // ---- moving a row ----

  /** The table after row `id` is given the parent `p`. */
  function Reparented(t: Table, id: Id, p: Option<Id>): Table
    requires id in t
  {
    t[id := t[id].(parentId := p)]
  }

  function ChainAbove(t: Table, p: Option<Id>): seq<Id>
    requires Forest(t) && (p.Some? ==> p.value in t)
  {
    if p.None? then [] else Chain(t, p.value)
  }

  /** The chain of `d` once `id` hangs under `p`: the old part up to `id`, then the chain of `p`. */
  function Spliced(t: Table, id: Id, p: Option<Id>, d: Id): seq<Id>
    requires Forest(t) && d in t && (p.Some? ==> p.value in t)
  {
    if id in Chain(t, d) then UpTo(Chain(t, d), id) + ChainAbove(t, p) else Chain(t, d)
  }

  /** A chain that does not pass through `id` is the same after the move. */
  lemma {:induction false} ChainAvoiding(t: Table, id: Id, p: Option<Id>, d: Id, c: seq<Id>)
    requires id in t && IsChain(t, d, c) && id !in c
    ensures IsChain(Reparented(t, id, p), d, c)
    decreases |c|
  {
    assert c == [c[0]] + c[1..];
    if t[d].parentId.Some? {
      ChainAvoiding(t, id, p, t[d].parentId.value, c[1..]);
    }
  }

  /** A chain through `id` keeps its part up to `id` and continues with the new parent's chain. */
  lemma {:induction false} ChainThrough(t: Table, id: Id, p: Option<Id>, d: Id, c: seq<Id>, above: seq<Id>)
    requires id in t && IsChain(t, d, c) && id in c
    requires match p case None => above == [] case Some(q) => IsChain(Reparented(t, id, p), q, above)
    ensures IsChain(Reparented(t, id, p), d, UpTo(c, id) + above)
    decreases |c|
  {
    assert c == [c[0]] + c[1..];
    if d == id {
      assert (UpTo(c, id) + above)[1..] == above;
    } else {
      ChainThrough(t, id, p, t[d].parentId.value, c[1..], above);
      assert (UpTo(c, id) + above)[1..] == UpTo(c[1..], id) + above;
    }
  }

  /**
   Splice law: hanging `id` under a row outside its own subtree keeps a forest, and every
   chain of the new table is the spliced one.
   */
  lemma MoveSplicesChains(t: Table, id: Id, p: Option<Id>)
    requires Forest(t) && id in t
    requires p.Some? ==> p.value in t && !Below(t, p.value, id)
    ensures Forest(Reparented(t, id, p))
    ensures forall d :: d in t ==> Chain(Reparented(t, id, p), d) == Spliced(t, id, p, d)
  {
    var t' := Reparented(t, id, p);
    var above := ChainAbove(t, p);
    if p.Some? {
      ChainAvoiding(t, id, p, p.value, above);
    }
    forall d | d in t ensures IsChain(t', d, Spliced(t, id, p, d)) {
      if id in Chain(t, d) {
        ChainThrough(t, id, p, d, Chain(t, d), above);
      } else {
        ChainAvoiding(t, id, p, d, Chain(t, d));
      }
    }
    assert Forest(t') by {
      forall d | d in t' ensures exists c :: IsChain(t', d, c) {
        assert IsChain(t', d, Spliced(t, id, p, d));
      }
    }
    forall d | d in t ensures Chain(t', d) == Spliced(t, id, p, d) {
      ChainIsUnique(t', d, Chain(t', d), Spliced(t, id, p, d));
    }
  }

  /** Walking up from a row below `id` in the moved table still comes to `id`. */
  lemma {:induction false} WalkMeetsMoved(t: Table, id: Id, p: Option<Id>, d: Id, c: seq<Id>, b: seq<Id>)
    requires id in t && IsChain(t, d, c) && id in c
    requires IsChain(Reparented(t, id, p), d, b)
    ensures id in b
    decreases |c|
  {
    assert c == [c[0]] + c[1..];
    if d != id {
      WalkMeetsMoved(t, id, p, t[d].parentId.value, c[1..], b[1..]);
    }
  }

  /** Hanging `id` under itself or one of its own descendants leaves it without a root. */
  lemma MoveUnderDescendantMakesCycle(t: Table, id: Id, p: Id)
    requires Forest(t) && id in t && p in t && Below(t, p, id)
    ensures !Forest(Reparented(t, id, Some(p)))
  {
    var t' := Reparented(t, id, Some(p));
    if Forest(t') {
      var b := Chain(t', id);
      ChainHasNoRepeats(t', id, b);
      WalkMeetsMoved(t, id, Some(p), p, Chain(t, p), b[1..]);
    }
  }

  /** Row (a, d, k) of the closure table: `a` is the k-th ancestor of `d`. */
  predicate IsAncestorAt(t: Table, a: Id, d: Id, k: nat)
    requires Forest(t)
  {
    d in t && k < |Chain(t, d)| && Chain(t, d)[k] == a
  }

  lemma ClosureRow(t: Table, a: Id, d: Id, k: nat)
    requires Forest(t)
    ensures Row(a, d, k) in ClosureOf(t) <==> IsAncestorAt(t, a, d, k)
  {
  }

  lemma PositionInPrefix(c: seq<Id>, id: Id, m: nat)
    requires NoDuplicates(c) && m < |c| && c[m] == id
    ensures UpTo(c, id) == c[..m + 1]
  {
    var low := UpTo(c, id);
    assert low[|low| - 1] == c[|low| - 1];
  }

  lemma MovedChain(t: Table, id: Id, p: Option<Id>, d: Id, m: nat)
    requires Forest(t) && id in t && IsAncestorAt(t, id, d, m)
    requires p.Some? ==> p.value in t && !Below(t, p.value, id)
    ensures Forest(Reparented(t, id, p))
    ensures Chain(Reparented(t, id, p), d) == Chain(t, d)[..m + 1] + ChainAbove(t, p)
  {
    MoveSplicesChains(t, id, p);
    var c := Chain(t, d);
    ChainHasNoRepeats(t, d, c);
    PositionInPrefix(c, id, m);
  }

  lemma EntryOfSplice(c: seq<Id>, above: seq<Id>, m: nat, a: Id, k: nat)
    requires m < |c|
    ensures var s := c[..m + 1] + above;
            k < |s| && s[k] == a <==>
              if k <= m then c[k] == a else k - m - 1 < |above| && above[k - m - 1] == a
  {
  }

  /**
   Splice law on closure rows.  For `d` at distance `m` below `id`: rows at distance up to
   `m` are the old ones, rows beyond are those of `p` shifted by `m + 1`.
   */
  lemma MoveShiftsClosure(t: Table, id: Id, p: Option<Id>, d: Id, m: nat, a: Id, k: nat)
    requires Forest(t) && id in t && IsAncestorAt(t, id, d, m)
    requires p.Some? ==> p.value in t && !Below(t, p.value, id)
    ensures Forest(Reparented(t, id, p))
    ensures IsAncestorAt(Reparented(t, id, p), a, d, k) <==>
            if k <= m then IsAncestorAt(t, a, d, k)
            else p.Some? && IsAncestorAt(t, a, p.value, k - m - 1)
  {
    MovedChain(t, id, p, d, m);
    EntryOfSplice(Chain(t, d), ChainAbove(t, p), m, a, k);
  }
}
