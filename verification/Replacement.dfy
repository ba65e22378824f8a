/**
 Replacing permission ids by hand: the loop overwrites the first occurrence of each old id in
 a copy of the list, then a RESOLVED log is written in the same transaction.
 */
module Replacement {
  import opened Wrappers
  import opened PermissionLogs

  datatype Mapping = Mapping(oldId: Id, newId: Id)

  /** The position of the first occurrence, or -1. */
  function IndexOf(ids: seq<Id>, x: Id): (k: int)
    ensures -1 <= k < |ids|
    ensures k == -1 <==> x !in ids
    ensures k >= 0 ==> ids[k] == x && x !in ids[..k]
  {
    if ids == [] then -1
    else if ids[0] == x then 0
    else
      var k := IndexOf(ids[1..], x);
      assert k >= 0 ==> ids[..k + 1] == [ids[0]] + ids[1..][..k];
      if k == -1 then -1 else k + 1
  }

  function ReplaceOne(ids: seq<Id>, m: Mapping): (r: seq<Id>)
    ensures |r| == |ids|
  {
    var index := IndexOf(ids, m.oldId);
    if index != -1 then ids[index := m.newId] else ids
  }

  function ReplaceAll(ids: seq<Id>, ms: seq<Mapping>): (r: seq<Id>)
    ensures |r| == |ids|
  {
    if ms == [] then ids else ReplaceOne(ReplaceAll(ids, ms[..|ms| - 1]), ms[|ms| - 1])
  }

  /** The mappings that found their old id when their turn came. */
  function Hits(ids: seq<Id>, ms: seq<Mapping>): seq<Mapping> {
    if ms == [] then []
    else
      var last := ms[|ms| - 1];
      Hits(ids, ms[..|ms| - 1]) + if last.oldId in ReplaceAll(ids, ms[..|ms| - 1]) then [last] else []
  }

  function OldIds(ms: seq<Mapping>): seq<Id> {
    seq(|ms|, i requires 0 <= i < |ms| => ms[i].oldId)
  }

  function NewIds(ms: seq<Mapping>): seq<Id> {
    seq(|ms|, i requires 0 <= i < |ms| => ms[i].newId)
  }

  lemma ReplaceOneConserves(ids: seq<Id>, m: Mapping)
    requires m.oldId in ids
    ensures multiset(ids) + multiset{m.newId} == multiset(ReplaceOne(ids, m)) + multiset{m.oldId}
  {
    var k := IndexOf(ids, m.oldId);
    assert ids == ids[..k] + [m.oldId] + ids[k + 1..];
    assert ReplaceOne(ids, m) == ids[..k] + [m.newId] + ids[k + 1..];
  }

  lemma Rebalance(a: multiset<Id>, n: multiset<Id>, b: multiset<Id>, o: multiset<Id>,
                  c: multiset<Id>, x: multiset<Id>, y: multiset<Id>)
    requires a + n == b + o && b + x == c + y
    ensures a + (n + x) == c + (o + y)
  {
    calc {
      a + (n + x);
      (a + n) + x;
      (b + x) + o;
      c + (o + y);
    }
  }

  /** Each hit trades one old id for one new id; nothing else appears or disappears. */
  lemma {:induction false} ReplacementConserves(ids: seq<Id>, ms: seq<Mapping>)
    ensures |ReplaceAll(ids, ms)| == |ids|
    ensures multiset(ids) + multiset(NewIds(Hits(ids, ms)))
            == multiset(ReplaceAll(ids, ms)) + multiset(OldIds(Hits(ids, ms)))
  {
    if ms != [] {
      var front, last := ms[..|ms| - 1], ms[|ms| - 1];
      var before, hits := ReplaceAll(ids, front), Hits(ids, front);
      ReplacementConserves(ids, front);
      if last.oldId in before {
        ReplaceOneConserves(before, last);
        assert NewIds(hits + [last]) == NewIds(hits) + [last.newId];
        assert OldIds(hits + [last]) == OldIds(hits) + [last.oldId];
        Rebalance(multiset(ids), multiset(NewIds(hits)), multiset(before), multiset(OldIds(hits)),
                  multiset(ReplaceOne(before, last)), multiset{last.newId}, multiset{last.oldId});
      } else {
        assert Hits(ids, ms) == hits + [] == hits && ReplaceAll(ids, ms) == before;
      }
    }
  }

  // ---- replacing all at once ----

  /** What the mappings say about one id. */
  function Subst(x: Id, ms: seq<Mapping>): Id {
    if ms == [] then x
    else if ms[|ms| - 1].oldId == x then ms[|ms| - 1].newId
    else Subst(x, ms[..|ms| - 1])
  }

  function SubstAll(ids: seq<Id>, ms: seq<Mapping>): seq<Id> {
    seq(|ids|, i requires 0 <= i < |ids| => Subst(ids[i], ms))
  }

  predicate Unchained(ms: seq<Mapping>) {
    forall i, j :: 0 <= i < j < |ms| ==> ms[i].newId != ms[j].oldId
  }

  /**
   Mapping `i` writes the old id of the later mapping `j` into the list, in front of where that
   id stands, or while it does not stand there at all.
   */
  predicate Clash(ids: seq<Id>, ms: seq<Mapping>, i: nat, j: nat)
    requires i < j < |ms|
  {
    && ms[i].newId == ms[j].oldId != ms[j].newId
    && ms[i].oldId in ids
    && (ms[j].oldId !in ids || IndexOf(ids, ms[i].oldId) < IndexOf(ids, ms[j].oldId))
  }

  lemma {:induction false} SubstIsOldOrNew(x: Id, ms: seq<Mapping>)
    ensures (Subst(x, ms) == x && forall i :: 0 <= i < |ms| ==> ms[i].oldId != x)
            || exists i :: 0 <= i < |ms| && ms[i].oldId == x && Subst(x, ms) == ms[i].newId
  {
    if ms != [] && ms[|ms| - 1].oldId != x {
      var front := ms[..|ms| - 1];
      SubstIsOldOrNew(x, front);
      if i :| 0 <= i < |front| && front[i].oldId == x && Subst(x, ms) == front[i].newId {
        assert ms[i] == front[i];
      }
    }
  }

  lemma OldIdsFront(ms: seq<Mapping>)
    requires ms != [] && NoDuplicates(OldIds(ms))
    ensures NoDuplicates(OldIds(ms[..|ms| - 1]))
    ensures forall i :: 0 <= i < |ms| - 1 ==> ms[i].oldId != ms[|ms| - 1].oldId
  {
    var n := |ms| - 1;
    var all, front := OldIds(ms), OldIds(ms[..n]);
    assert front == all[..n];
    assert forall i :: 0 <= i < n ==> all[i] != all[n];
    assert forall i :: 0 <= i < |ms| ==> all[i] == ms[i].oldId;
  }

  lemma {:induction false} SubstAt(ms: seq<Mapping>, i: nat)
    requires i < |ms| && NoDuplicates(OldIds(ms))
    ensures Subst(ms[i].oldId, ms) == ms[i].newId
  {
    OldIdsFront(ms);
    if i < |ms| - 1 {
      SubstAt(ms[..|ms| - 1], i);
    }
  }

  /** Before the last mapping, its old id stands where it stood, and where an earlier mapping has written it. */
  // ---- which place each mapping overwrites ----

  /**
   When the turn of mapping `j` comes, place `p` holds its old id: it did from the start, or it
   was overwritten with it.  `w` says which place each mapping overwrites.
   */
  predicate Arrives(ids: seq<Id>, ms: seq<Mapping>, w: seq<Option<nat>>, j: nat, p: nat)
    requires j < |ms| && j <= |w|
  {
    p < |ids| && (ids[p] == ms[j].oldId || exists i :: 0 <= i < j && ms[i].newId == ms[j].oldId && w[i] == Some(p))
  }

  function FirstArrival(ids: seq<Id>, ms: seq<Mapping>, w: seq<Option<nat>>, j: nat, from: nat): (r: Option<nat>)
    requires j < |ms| && j <= |w| && from <= |ids|
    ensures r.Some? ==> Arrives(ids, ms, w, j, r.value)
    ensures forall q :: from <= q && (r.Some? ==> q < r.value) ==> !Arrives(ids, ms, w, j, q)
    decreases |ids| - from
  {
    if from == |ids| then None
    else if Arrives(ids, ms, w, j, from) then Some(from)
    else FirstArrival(ids, ms, w, j, from + 1)
  }

  predicate IsFirst(ids: seq<Id>, ms: seq<Mapping>, w: seq<Option<nat>>, j: nat)
    requires j < |ms| && j < |w|
  {
    && (w[j].Some? ==> Arrives(ids, ms, w, j, w[j].value))
    && forall q: nat :: q < |ids| && (w[j].Some? ==> q < w[j].value) ==> !Arrives(ids, ms, w, j, q)
  }

  predicate IsRace(ids: seq<Id>, ms: seq<Mapping>, w: seq<Option<nat>>) {
    |w| == |ms| && forall j :: 0 <= j < |ms| ==> IsFirst(ids, ms, w, j)
  }

  /** Each mapping overwrites the first place at which its old id has arrived. */
  function Race(ids: seq<Id>, ms: seq<Mapping>, n: nat): (w: seq<Option<nat>>)
    requires n <= |ms|
    ensures |w| == n && forall j :: 0 <= j < n ==> IsFirst(ids, ms, w, j)
  {
    if n == 0 then []
    else
      var w := Race(ids, ms, n - 1);
      var all := w + [FirstArrival(ids, ms, w, n - 1, 0)];
      assert forall j, q :: 0 <= j < n && 0 <= q < |ids| ==>
          (Arrives(ids, ms, all, j, q) <==> Arrives(ids, ms, w, j, q));
      assert forall j :: 0 <= j < n - 1 ==> IsFirst(ids, ms, w, j) && all[j] == w[j];
      all
  }

  /** What place `p` holds after `k` mappings. */
  function Held(ids: seq<Id>, ms: seq<Mapping>, w: seq<Option<nat>>, k: nat, p: nat): Id
    requires k <= |ms| == |w| && p < |ids|
  {
    if k == 0 then ids[p]
    else if w[k - 1] == Some(p) then ms[k - 1].newId
    else Held(ids, ms, w, k - 1, p)
  }

  lemma OldIdsDiffer(ms: seq<Mapping>, i: nat, j: nat)
    requires NoDuplicates(OldIds(ms)) && i < |ms| && j < |ms| && i != j
    ensures ms[i].oldId != ms[j].oldId
  {
    assert OldIds(ms)[i] != OldIds(ms)[j];
  }

  predicate WrittenTo(ms: seq<Mapping>, w: seq<Option<nat>>, k: nat, p: nat, x: Id)
    requires k <= |ms| == |w|
  {
    exists i :: 0 <= i < k && ms[i].newId == x && w[i] == Some(p)
  }

  /** An id whose turn is still to come stands where it stood, and where it has been written. */
  lemma {:induction false} HeldBeforeTurn(ids: seq<Id>, ms: seq<Mapping>, w: seq<Option<nat>>, k: nat, j: nat, p: nat)
    requires IsRace(ids, ms, w) && NoDuplicates(OldIds(ms)) && k <= j < |ms| && p < |ids|
    ensures Held(ids, ms, w, k, p) == ms[j].oldId <==> ids[p] == ms[j].oldId || WrittenTo(ms, w, k, p, ms[j].oldId)
  {
    if k > 0 {
      var n := k - 1;
      HeldBeforeTurn(ids, ms, w, n, j, p);
      HeldBeforeTurn(ids, ms, w, n, n, p);
      OldIdsDiffer(ms, n, j);
      assert IsFirst(ids, ms, w, n);
      assert Arrives(ids, ms, w, n, p) <==> Held(ids, ms, w, n, p) == ms[n].oldId;
      assert WrittenTo(ms, w, k, p, ms[j].oldId) <==>
          WrittenTo(ms, w, n, p, ms[j].oldId) || (ms[n].newId == ms[j].oldId && w[n] == Some(p));
    }
  }

  lemma ArrivesIfHeld(ids: seq<Id>, ms: seq<Mapping>, w: seq<Option<nat>>, j: nat, p: nat)
    requires IsRace(ids, ms, w) && NoDuplicates(OldIds(ms)) && j < |ms| && p < |ids|
    ensures Arrives(ids, ms, w, j, p) <==> Held(ids, ms, w, j, p) == ms[j].oldId
    ensures w[j] == Some(p) ==> Held(ids, ms, w, j, p) == ms[j].oldId
  {
    HeldBeforeTurn(ids, ms, w, j, j, p);
    assert IsFirst(ids, ms, w, j);
  }

  /** The loop is this race. */
  lemma {:induction false} LoopIsRace(ids: seq<Id>, ms: seq<Mapping>, w: seq<Option<nat>>, k: nat)
    requires IsRace(ids, ms, w) && NoDuplicates(OldIds(ms)) && k <= |ms|
    ensures forall p :: 0 <= p < |ids| ==> ReplaceAll(ids, ms[..k])[p] == Held(ids, ms, w, k, p)
  {
    if k > 0 {
      var n := k - 1;
      assert ms[..k][..n] == ms[..n];
      LoopIsRace(ids, ms, w, n);
      var before := ReplaceAll(ids, ms[..n]);
      assert ReplaceAll(ids, ms[..k]) == ReplaceOne(before, ms[n]);
      FirstHolder(ids, ms, w, n, before);
    }
  }

  lemma {:induction false} FirstHolder(ids: seq<Id>, ms: seq<Mapping>, w: seq<Option<nat>>, n: nat, before: seq<Id>)
    requires IsRace(ids, ms, w) && NoDuplicates(OldIds(ms)) && n < |ms| && |before| == |ids|
    requires forall p :: 0 <= p < |ids| ==> before[p] == Held(ids, ms, w, n, p)
    ensures w[n] == if ms[n].oldId in before then Some(IndexOf(before, ms[n].oldId)) else None
  {
    var k := IndexOf(before, ms[n].oldId);
    forall p | 0 <= p < |ids| ensures Arrives(ids, ms, w, n, p) <==> before[p] == ms[n].oldId {
      ArrivesIfHeld(ids, ms, w, n, p);
    }
    assert IsFirst(ids, ms, w, n);
    if w[n].Some? {
      FirstIn(before, ms[n].oldId, w[n].value);
    }
  }

  /** The first occurrence is at or before any other. */
  lemma FirstIn(ids: seq<Id>, x: Id, p: nat)
    requires p < |ids| && ids[p] == x
    ensures 0 <= IndexOf(ids, x) <= p
  {
    var k := IndexOf(ids, x);
    forall j | 0 <= j < k ensures ids[j] != x {
      assert ids[..k][j] in ids[..k];
    }
  }

  /** A place keeps an id that no remaining mapping overwrites there. */
  lemma {:induction false} Keeps(ids: seq<Id>, ms: seq<Mapping>, w: seq<Option<nat>>, k: nat, m: nat, p: nat)
    requires IsRace(ids, ms, w) && NoDuplicates(OldIds(ms)) && k <= m <= |ms| && p < |ids|
    requires forall j :: k <= j < m && w[j] == Some(p) ==>
               ms[j].oldId != Held(ids, ms, w, k, p) || ms[j].newId == ms[j].oldId
    ensures Held(ids, ms, w, m, p) == Held(ids, ms, w, k, p)
  {
    if k < m {
      Keeps(ids, ms, w, k, m - 1, p);
      ArrivesIfHeld(ids, ms, w, m - 1, p);
    }
  }

  /** An id that a place has come to hold was written there. */
  lemma {:induction false} WrittenOnTheWay(ids: seq<Id>, ms: seq<Mapping>, w: seq<Option<nat>>, k: nat, m: nat, p: nat)
    requires IsRace(ids, ms, w) && k <= m <= |ms| && p < |ids|
    requires Held(ids, ms, w, m, p) != Held(ids, ms, w, k, p)
    ensures exists l :: k <= l < m && w[l] == Some(p) && ms[l].newId == Held(ids, ms, w, m, p)
  {
    if w[m - 1] != Some(p) {
      WrittenOnTheWay(ids, ms, w, k, m - 1, p);
    }
  }

  // ---- when the loop is the substitution ----

  /** A later mapping writes the old id of mapping `j` to the place that mapping `j` overwrites. */
  predicate Returns(ms: seq<Mapping>, w: seq<Option<nat>>, j: nat)
    requires j < |ms| == |w|
  {
    exists l :: j < l < |ms| && w[l] == w[j] && ms[l].newId == ms[j].oldId
  }

  /** Mapping `j` overwrites at `p` what mapping `i` has written there. */
  predicate Overwrites(ms: seq<Mapping>, w: seq<Option<nat>>, p: nat, i: nat, j: nat)
    requires i < |ms| == |w|
  {
    i < j < |ms| && ms[i].newId == ms[j].oldId != ms[j].newId && w[j] == Some(p)
  }

  /**
   The mapping of the id at `p` overwrites that place and no other; if a later mapping
   overwrites there what it has written, then a still later one writes it there again.
   */
  predicate ComesOut(ids: seq<Id>, ms: seq<Mapping>, w: seq<Option<nat>>, p: nat)
    requires |w| == |ms| && p < |ids|
  {
    forall i :: 0 <= i < |ms| && ms[i].oldId == ids[p] != ms[i].newId ==>
      && w[i] == Some(p)
      && forall j :: i < j < |ms| && Overwrites(ms, w, p, i, j) ==> Returns(ms, w, j)
  }

  /** No mapping can overwrite an id whose turn is over. */
  lemma {:induction false} KeepsAfterTurn(ids: seq<Id>, ms: seq<Mapping>, w: seq<Option<nat>>, k: nat, m: nat,
                                          j: nat, p: nat)
    requires IsRace(ids, ms, w) && NoDuplicates(OldIds(ms)) && j < k <= m <= |ms| && p < |ids|
    requires Held(ids, ms, w, k, p) == ms[j].oldId
    ensures Held(ids, ms, w, m, p) == ms[j].oldId
  {
    forall l | k <= l < m ensures ms[l].oldId != ms[j].oldId {
      OldIdsDiffer(ms, l, j);
    }
    Keeps(ids, ms, w, k, m, p);
  }

  lemma {:induction false} HeldAtTurn(ids: seq<Id>, ms: seq<Mapping>, w: seq<Option<nat>>, i: nat, p: nat)
    requires IsRace(ids, ms, w) && NoDuplicates(OldIds(ms)) && i < |ms| && p < |ids| && ms[i].oldId == ids[p]
    ensures Held(ids, ms, w, i, p) == ids[p]
    ensures w[i] != Some(p) ==> Held(ids, ms, w, |ms|, p) == ids[p]
    ensures w[i] == Some(p) ==> Held(ids, ms, w, i + 1, p) == ms[i].newId
  {
    HeldBeforeTurn(ids, ms, w, i, i, p);
    if w[i] != Some(p) {
      KeepsAfterTurn(ids, ms, w, i + 1, |ms|, i, p);
    }
  }

  /** What a mapping has written is there at the end, unless it is overwritten for good. */
  lemma {:induction false} WrittenStays(ids: seq<Id>, ms: seq<Mapping>, w: seq<Option<nat>>, i: nat, p: nat)
    requires IsRace(ids, ms, w) && NoDuplicates(OldIds(ms)) && i < |ms| && p < |ids| && w[i] == Some(p)
    ensures Held(ids, ms, w, |ms|, p) == ms[i].newId <==>
            forall j :: i < j < |ms| && Overwrites(ms, w, p, i, j) ==> Returns(ms, w, j)
  {
    var x := ms[i].newId;
    if j: nat :| Overwrites(ms, w, p, i, j) {
      forall l: nat | Overwrites(ms, w, p, i, l) ensures l == j {
        if l != j {
          OldIdsDiffer(ms, l, j);
        }
      }
      if Returns(ms, w, j) {
        var l :| j < l < |ms| && w[l] == w[j] && ms[l].newId == ms[j].oldId;
        assert Held(ids, ms, w, l + 1, p) == x;
        KeepsAfterTurn(ids, ms, w, l + 1, |ms|, j, p);
      } else if Held(ids, ms, w, |ms|, p) == x {
        assert Held(ids, ms, w, j + 1, p) == ms[j].newId;
        WrittenOnTheWay(ids, ms, w, j + 1, |ms|, p);
      }
    } else {
      assert forall j :: i < j < |ms| && w[j] == Some(p) && ms[j].oldId == x && ms[j].newId != x ==>
          Overwrites(ms, w, p, i, j);
      Keeps(ids, ms, w, i + 1, |ms|, p);
    }
  }

  lemma {:induction false} PlaceComesOut(ids: seq<Id>, ms: seq<Mapping>, w: seq<Option<nat>>, p: nat)
    requires IsRace(ids, ms, w) && NoDuplicates(OldIds(ms)) && p < |ids|
    ensures Held(ids, ms, w, |ms|, p) == Subst(ids[p], ms) <==> ComesOut(ids, ms, w, p)
  {
    if i :| 0 <= i < |ms| && ms[i].oldId == ids[p] {
      SubstAt(ms, i);
      HeldAtTurn(ids, ms, w, i, p);
      forall l | 0 <= l < |ms| && ms[l].oldId == ids[p] ensures l == i {
        if l != i {
          OldIdsDiffer(ms, l, i);
        }
      }
      if ms[i].newId == ids[p] {
        KeepsAfterTurn(ids, ms, w, i + 1, |ms|, i, p);
      } else if w[i] == Some(p) {
        WrittenStays(ids, ms, w, i, p);
      }
    } else {
      SubstIsOldOrNew(ids[p], ms);
      Keeps(ids, ms, w, 0, |ms|, p);
    }
  }

  predicate AllComeOut(ids: seq<Id>, ms: seq<Mapping>, w: seq<Option<nat>>)
    requires |w| == |ms|
  {
    forall p :: 0 <= p < |ids| ==> ComesOut(ids, ms, w, p)
  }

  /**
   For any list and distinct old ids: the loop returns the simultaneous substitution exactly if
   every place comes out right in the race.
   */
  lemma {:induction false} LoopIsSubstitutionExactly(ids: seq<Id>, ms: seq<Mapping>)
    requires NoDuplicates(OldIds(ms))
    ensures ReplaceAll(ids, ms) == SubstAll(ids, ms) <==> AllComeOut(ids, ms, Race(ids, ms, |ms|))
  {
    var w := Race(ids, ms, |ms|);
    assert ms[..|ms|] == ms;
    LoopIsRace(ids, ms, w, |ms|);
    var r, q := ReplaceAll(ids, ms), SubstAll(ids, ms);
    forall p | 0 <= p < |ids| ensures r[p] == q[p] <==> ComesOut(ids, ms, w, p) {
      PlaceComesOut(ids, ms, w, p);
    }
    assert r == q <==> forall p :: 0 <= p < |ids| ==> r[p] == q[p];
  }

  lemma PositionOf(ids: seq<Id>, p: nat)
    requires NoDuplicates(ids) && p < |ids|
    ensures IndexOf(ids, ids[p]) == p
  {
  }

  predicate ClashFree(ids: seq<Id>, ms: seq<Mapping>) {
    forall i, j :: 0 <= i < j < |ms| ==> !Clash(ids, ms, i, j)
  }

  lemma NoClash(ids: seq<Id>, ms: seq<Mapping>, i: nat, j: nat)
    requires ClashFree(ids, ms) && i < j < |ms|
    ensures !Clash(ids, ms, i, j)
  {
  }

  /** Without a clash each mapping overwrites only the place where its old id stood. */
  lemma {:induction false} OverwritesOwnPlace(ids: seq<Id>, ms: seq<Mapping>, w: seq<Option<nat>>, k: nat, p: nat)
    requires NoDuplicates(ids) && NoDuplicates(OldIds(ms)) && IsRace(ids, ms, w) && ClashFree(ids, ms)
    requires k < |ms| && w[k] == Some(p) && ms[k].oldId != ms[k].newId
    ensures p < |ids| && ids[p] == ms[k].oldId
    decreases k
  {
    assert IsFirst(ids, ms, w, k);
    assert Arrives(ids, ms, w, k, p);
    var q := IndexOf(ids, ms[k].oldId);
    assert q >= 0 ==> Arrives(ids, ms, w, k, q);
    if ids[p] != ms[k].oldId {
      var i :| 0 <= i < k && ms[i].newId == ms[k].oldId && w[i] == Some(p);
      OldIdsDiffer(ms, i, k);
      OverwritesOwnPlace(ids, ms, w, i, p);
      PositionOf(ids, p);
      NoClash(ids, ms, i, k);
    }
  }

  lemma ClashFreeComesOut(ids: seq<Id>, ms: seq<Mapping>, w: seq<Option<nat>>, p: nat)
    requires NoDuplicates(ids) && NoDuplicates(OldIds(ms)) && IsRace(ids, ms, w) && ClashFree(ids, ms)
    requires p < |ids|
    ensures ComesOut(ids, ms, w, p)
  {
    forall i | 0 <= i < |ms| && ms[i].oldId == ids[p] != ms[i].newId
      ensures w[i] == Some(p)
      ensures forall j: nat :: !Overwrites(ms, w, p, i, j)
    {
      assert Arrives(ids, ms, w, i, p) && IsFirst(ids, ms, w, i);
      OverwritesOwnPlace(ids, ms, w, i, w[i].value);
      PositionOf(ids, p);
      PositionOf(ids, w[i].value);
      forall j: nat ensures !Overwrites(ms, w, p, i, j) {
        if i < j < |ms| && ms[j].oldId != ms[j].newId && w[j] == Some(p) {
          OverwritesOwnPlace(ids, ms, w, j, p);
          OldIdsDiffer(ms, i, j);
        }
      }
    }
  }

  /** If all comes out right, a listed id is overwritten only at its own place. */
  lemma ListedOverwritten(ids: seq<Id>, ms: seq<Mapping>, w: seq<Option<nat>>, j: nat)
    requires NoDuplicates(ids) && IsRace(ids, ms, w) && AllComeOut(ids, ms, w)
    requires j < |ms| && ms[j].oldId in ids && ms[j].oldId != ms[j].newId
    ensures w[j] == Some(IndexOf(ids, ms[j].oldId))
  {
    var q := IndexOf(ids, ms[j].oldId);
    assert ComesOut(ids, ms, w, q);
  }

  /** A clash about a listed id always spoils the result. */
  lemma {:induction false} ListedClashDiffers(ids: seq<Id>, ms: seq<Mapping>, i: nat, j: nat)
    requires NoDuplicates(ids) && NoDuplicates(OldIds(ms)) && i < j < |ms|
    requires Clash(ids, ms, i, j) && ms[j].oldId in ids
    ensures ReplaceAll(ids, ms) != SubstAll(ids, ms)
  {
    LoopIsSubstitutionExactly(ids, ms);
    var w := Race(ids, ms, |ms|);
    OldIdsDiffer(ms, i, j);
    if AllComeOut(ids, ms, w) {
      ListedOverwritten(ids, ms, w, i);
      ListedOverwritten(ids, ms, w, j);
      assert IsFirst(ids, ms, w, j);
      assert Arrives(ids, ms, w, j, IndexOf(ids, ms[i].oldId));
    }
  }

  /** A later mapping writes the old id of mapping `j`. */
  predicate WrittenLater(ms: seq<Mapping>, j: nat) {
    exists l :: j < l < |ms| && ms[l].newId == ms[j].oldId
  }

  /** No clash is about an unlisted id that is written again after its turn. */
  predicate NoneRepaired(ids: seq<Id>, ms: seq<Mapping>) {
    forall i, j :: 0 <= i < j < |ms| && Clash(ids, ms, i, j) ==> ms[j].oldId in ids || !WrittenLater(ms, j)
  }

  /** The id at `p` has the mapping `r`, and mapping `k` comes after it to overwrite what it wrote. */
  predicate ComesNext(ids: seq<Id>, ms: seq<Mapping>, w: seq<Option<nat>>, r: nat, k: nat, p: nat)
    requires r < |ms| == |w| && k < |ms| && p < |ids|
  {
    r < k && ids[p] == ms[r].oldId && ms[r].newId == ms[k].oldId && w[r] == Some(p)
  }

  /** If all comes out right, overwriting what the mapping of a place wrote is a clash that is repaired. */
  lemma {:induction false} OverwritingIsRepaired(ids: seq<Id>, ms: seq<Mapping>, w: seq<Option<nat>>, r: nat,
                                                 k: nat, p: nat)
    requires NoDuplicates(ids) && NoDuplicates(OldIds(ms)) && IsRace(ids, ms, w) && AllComeOut(ids, ms, w)
    requires r < |ms| && k < |ms| && p < |ids| && ComesNext(ids, ms, w, r, k, p)
    requires w[k] == Some(p) && ms[k].oldId != ms[k].newId
    ensures !NoneRepaired(ids, ms)
  {
    OldIdsDiffer(ms, r, k);
    assert ComesOut(ids, ms, w, p) && Overwrites(ms, w, p, r, k);
    assert Returns(ms, w, k) && WrittenLater(ms, k);
    if ms[k].oldId in ids {
      ListedOverwritten(ids, ms, w, k);
    }
    assert ms[k].oldId !in ids && Clash(ids, ms, r, k);
  }

  lemma {:induction false} OverwritesNearHome(ids: seq<Id>, ms: seq<Mapping>, w: seq<Option<nat>>, k: nat, p: nat)
    requires NoDuplicates(ids) && NoDuplicates(OldIds(ms)) && IsRace(ids, ms, w) && AllComeOut(ids, ms, w)
    requires NoneRepaired(ids, ms)
    requires k < |ms| && w[k] == Some(p) && ms[k].oldId != ms[k].newId
    ensures p < |ids|
    ensures ids[p] == ms[k].oldId || exists r :: 0 <= r < |ms| && ComesNext(ids, ms, w, r, k, p)
    decreases k
  {
    assert IsFirst(ids, ms, w, k);
    assert Arrives(ids, ms, w, k, p);
    if ids[p] != ms[k].oldId {
      var i :| 0 <= i < k && ms[i].newId == ms[k].oldId && w[i] == Some(p);
      OldIdsDiffer(ms, i, k);
      OverwritesNearHome(ids, ms, w, i, p);
      if ids[p] == ms[i].oldId {
        assert ComesNext(ids, ms, w, i, k, p);
      } else {
        var r :| 0 <= r < |ms| && ComesNext(ids, ms, w, r, i, p);
        OverwritingIsRepaired(ids, ms, w, r, i, p);
      }
    }
  }

  lemma {:induction false} UnrepairedClashDiffers(ids: seq<Id>, ms: seq<Mapping>, w: seq<Option<nat>>, i: nat, j: nat)
    requires NoDuplicates(ids) && NoDuplicates(OldIds(ms)) && IsRace(ids, ms, w) && NoneRepaired(ids, ms)
    requires i < j < |ms| && Clash(ids, ms, i, j) && ms[j].oldId !in ids
    ensures !AllComeOut(ids, ms, w)
  {
    if AllComeOut(ids, ms, w) {
      OldIdsDiffer(ms, i, j);
      ListedOverwritten(ids, ms, w, i);
      assert Arrives(ids, ms, w, j, IndexOf(ids, ms[i].oldId)) && IsFirst(ids, ms, w, j);
      var p := w[j].value;
      OverwritesNearHome(ids, ms, w, j, p);
      var r :| 0 <= r < |ms| && ComesNext(ids, ms, w, r, j, p);
      OverwritingIsRepaired(ids, ms, w, r, j, p);
    }
  }

  /**
   Read off the mappings alone: on a list without duplicates and with distinct old ids, unless
   some clash is about an unlisted id that is written again after its turn, the loop returns
   the simultaneous substitution exactly if no mapping clashes with a later one.
   */
  lemma {:induction false} LoopIsSubstitution(ids: seq<Id>, ms: seq<Mapping>)
    requires NoDuplicates(ids) && NoDuplicates(OldIds(ms)) && NoneRepaired(ids, ms)
    ensures ReplaceAll(ids, ms) == SubstAll(ids, ms) <==> ClashFree(ids, ms)
  {
    LoopIsSubstitutionExactly(ids, ms);
    var w := Race(ids, ms, |ms|);
    if ClashFree(ids, ms) {
      forall p | 0 <= p < |ids| ensures ComesOut(ids, ms, w, p) {
        ClashFreeComesOut(ids, ms, w, p);
      }
    } else {
      var i, j :| 0 <= i < j < |ms| && Clash(ids, ms, i, j);
      if ms[j].oldId in ids {
        ListedClashDiffers(ids, ms, i, j);
      } else {
        UnrepairedClashDiffers(ids, ms, w, i, j);
      }
    }
  }

  /** In particular if no new id is replaced again by a later mapping. */
  lemma ReplacementIsSimultaneous(ids: seq<Id>, ms: seq<Mapping>)
    requires NoDuplicates(ids) && NoDuplicates(OldIds(ms)) && Unchained(ms)
    ensures ReplaceAll(ids, ms) == SubstAll(ids, ms)
  {
    LoopIsSubstitution(ids, ms);
  }

  /** A clash that a third mapping repairs, and one that is written again too but not repaired. */
  lemma ClashMayBeRepaired(a: Id, b: Id, c: Id, d: Id)
    requires a != b && a != c && b != c && d != a && d != b && d != c
    ensures var repaired, spoilt := [Mapping(a, b), Mapping(b, c), Mapping(c, b)],
                                    [Mapping(a, b), Mapping(b, c), Mapping(d, b)];
            && Clash([a], repaired, 0, 1) && ReplaceAll([a], repaired) == SubstAll([a], repaired) == [b]
            && Clash([a], spoilt, 0, 1) && ReplaceAll([a], spoilt) == [c] && SubstAll([a], spoilt) == [b]
  {
    var two := [Mapping(a, b), Mapping(b, c)];
    ChainedMappingsCompose(a, b, c);
    forall x | x == c || x == d
      ensures ReplaceAll([a], two + [Mapping(x, b)]) == if x == c then [b] else [c]
      ensures Subst(a, two + [Mapping(x, b)]) == b
    {
      var ms := two + [Mapping(x, b)];
      assert ms[..2] == two;
      assert ReplaceAll([a], ms) == ReplaceOne([c], Mapping(x, b));
    }
    assert two + [Mapping(c, b)] == [Mapping(a, b), Mapping(b, c), Mapping(c, b)];
    assert two + [Mapping(d, b)] == [Mapping(a, b), Mapping(b, c), Mapping(d, b)];
  }

  /** With chained mappings the loop composes them instead. */
  lemma ChainedMappingsCompose(a: Id, b: Id, c: Id)
    requires a != b
    ensures ReplaceAll([a], [Mapping(a, b), Mapping(b, c)]) == [c]
    ensures Subst(a, [Mapping(a, b), Mapping(b, c)]) == b
  {
    var ms := [Mapping(a, b), Mapping(b, c)];
    assert ms[..1] == [Mapping(a, b)] && [Mapping(a, b)][..0] == [];
    assert ReplaceAll([a], ms[..1]) == ReplaceOne([a], Mapping(a, b)) == [b];
  }

  // ---- undoing ----

  function Inverse(ms: seq<Mapping>): seq<Mapping> {
    if ms == [] then []
    else [Mapping(ms[|ms| - 1].newId, ms[|ms| - 1].oldId)] + Inverse(ms[..|ms| - 1])
  }

  lemma {:induction false} ReplaceFirst(ids: seq<Id>, m: Mapping, ms: seq<Mapping>)
    ensures ReplaceAll(ids, [m] + ms) == ReplaceAll(ReplaceOne(ids, m), ms)
  {
    if ms == [] {
      assert [m] + ms == [m] && [m][..0] == [];
    } else {
      var all, front := [m] + ms, ms[..|ms| - 1];
      ReplaceFirst(ids, m, front);
      assert all[..|all| - 1] == [m] + front;
      assert all[|all| - 1] == ms[|ms| - 1];
      assert ReplaceAll(ids, all) == ReplaceOne(ReplaceAll(ids, [m] + front), ms[|ms| - 1]);
    }
  }

  lemma {:induction false} ReplacedIdsComeFrom(ids: seq<Id>, ms: seq<Mapping>)
    ensures forall x :: x in ReplaceAll(ids, ms) ==> x in ids || x in NewIds(ms)
  {
    if ms != [] {
      var front := ms[..|ms| - 1];
      ReplacedIdsComeFrom(ids, front);
      assert NewIds(ms) == NewIds(front) + [ms[|ms| - 1].newId];
    }
  }

  lemma UndoOne(ids: seq<Id>, m: Mapping)
    requires m.newId !in ids
    ensures ReplaceOne(ReplaceOne(ids, m), Mapping(m.newId, m.oldId)) == ids
  {
    var k := IndexOf(ids, m.oldId);
    if k != -1 {
      var once := ids[k := m.newId];
      assert once[k] == m.newId;
      assert IndexOf(once, m.newId) == k;
    }
  }

  /** With new ids that are distinct and not in the list, the inverse mappings restore the list. */
  lemma {:induction false} ReplacementCanBeUndone(ids: seq<Id>, ms: seq<Mapping>)
    requires NoDuplicates(NewIds(ms))
    requires forall x :: x in NewIds(ms) ==> x !in ids
    ensures ReplaceAll(ReplaceAll(ids, ms), Inverse(ms)) == ids
  {
    if ms != [] {
      var front, last := ms[..|ms| - 1], ms[|ms| - 1];
      assert NewIds(ms) == NewIds(front) + [last.newId];
      assert last.newId !in NewIds(front) by {
        assert forall i :: 0 <= i < |front| ==> NewIds(front)[i] == NewIds(ms)[i] != NewIds(ms)[|ms| - 1];
      }
      var before := ReplaceAll(ids, front);
      ReplacedIdsComeFrom(ids, front);
      assert last.newId in NewIds(ms);
      UndoOne(before, last);
      ReplaceFirst(ReplaceAll(ids, ms), Mapping(last.newId, last.oldId), Inverse(front));
      assert NoDuplicates(NewIds(front)) by {
        assert forall i :: 0 <= i < |front| ==> NewIds(front)[i] == NewIds(ms)[i];
      }
      ReplacementCanBeUndone(ids, front);
    }
  }

  // ---- the service ----

  datatype ReplaceError = NotFound | SaveFailed

  /** The list after the request; a request without mappings leaves even a missing list as it is. */
  function ReplacedList(ids: Option<seq<Id>>, ms: seq<Mapping>): Option<seq<Id>> {
    if ms == [] then ids else Some(ReplaceAll(if ids.Some? then ids.value else [], ms))
  }

  function HitCount(ids: Option<seq<Id>>, ms: seq<Mapping>): nat {
    |Hits(if ids.Some? then ids.value else [], ms)|
  }

  /** Without mappings a list stays as it is; otherwise a missing one counts as empty. */
  predicate ListReplaced(before: Option<seq<Id>>, after: Option<seq<Id>>, ms: seq<Mapping>) {
    if ms == [] then after == before
    else after == Some(ReplaceAll(if before.Some? then before.value else [], ms))
  }

  function ReplacedItem(item: Item, departments: seq<Mapping>, employees: seq<Mapping>): Item {
    item.(departmentIds := ReplacedList(item.departmentIds, departments),
          employeeIds := ReplacedList(item.employeeIds, employees))
  }

  function ResolvedLog(item: Item, user: Option<Id>, now: nat): Log {
    Log(item.id, Resolved, None, Permissions(item.rankIds, item.positionIds, []), Some(now), user)
  }

  /** One item is replaced and the log written. */
  ghost predicate Replaces(w: World, w': World, at: nat, departments: seq<Mapping>, employees: seq<Mapping>,
                           user: Option<Id>, now: nat)
  {
    && at < |w.items| && !w.items[at].deleted
    && w'.items == w.items[at := ReplacedItem(w.items[at], departments, employees)]
    && w'.logs == w.logs + [ResolvedLog(w.items[at], user, now)]
  }

  // ---- replacements and the runs of the scheduler ----

  /** Each mapping takes away one occurrence of its old id, as long as there is one. */
  lemma {:induction false} ReplacedCount(ids: seq<Id>, ms: seq<Mapping>, x: Id)
    requires x !in NewIds(ms)
    ensures multiset(ReplaceAll(ids, ms))[x] ==
            if multiset(ids)[x] <= multiset(OldIds(ms))[x] then 0
            else multiset(ids)[x] - multiset(OldIds(ms))[x]
  {
    if ms != [] {
      var front, last := ms[..|ms| - 1], ms[|ms| - 1];
      assert NewIds(ms) == NewIds(front) + [last.newId];
      assert OldIds(ms) == OldIds(front) + [last.oldId];
      assert last.newId in NewIds(ms);
      ReplacedCount(ids, front, x);
      var before := ReplaceAll(ids, front);
      if last.oldId in before {
        ReplaceOneConserves(before, last);
      } else {
        assert last.oldId !in multiset(before);
      }
    }
  }

  /** Of the other live items, none lists this department. */
  ghost predicate OthersDoNotList(w: World, at: nat, d: Id) {
    forall k :: 0 <= k < |w.items| && k != at && !w.items[k].deleted ==> d !in DepartmentIds(w.items[k])
  }

  /**
   A department that no mapping brings in is unlisted after the replacement exactly if no other
   live item lists it and there are at least as many mappings for it as occurrences.
   */
  lemma ReplacementUnlists(w: World, w': World, at: nat, departments: seq<Mapping>, employees: seq<Mapping>,
                           user: Option<Id>, now: nat, d: Id)
    requires Replaces(w, w', at, departments, employees, user, now) && d !in NewIds(departments)
    ensures Unlisted(w', d) <==>
            && OthersDoNotList(w, at, d)
            && multiset(DepartmentIds(w.items[at]))[d] <= multiset(OldIds(departments))[d]
  {
    var item, item' := w.items[at], w'.items[at];
    ReplacedCount(DepartmentIds(item), departments, d);
    assert DepartmentIds(item') == ReplaceAll(DepartmentIds(item), departments);
    assert d in DepartmentIds(item') <==> multiset(DepartmentIds(item'))[d] > 0;
    assert item' in w'.items && !item'.deleted;
    if Unlisted(w', d) {
      forall k | 0 <= k < |w.items| && k != at && !w.items[k].deleted ensures d !in DepartmentIds(w.items[k]) {
        assert w'.items[k] in w'.items;
      }
    }
  }

  /**
   Replacing the last mention of a department by hand: the open log that records it stays as it
   is over every later history in which no live item lists the department again, and no run
   creates a log for the item of that log.
   */
  lemma ReplacementBlocksLogs(w: World, ws: seq<World>, es: seq<Event>, at: nat, departments: seq<Mapping>,
                              employees: seq<Mapping>, user: Option<Id>, now: nat, n: nat, i: nat, d: DeptRef)
    requires IsHistory(ws, es) && n < |ws| && Replaces(w, ws[0], at, departments, employees, user, now)
    requires i < |w.logs| && Open(w.logs[i]) && w.logs[i].invalid.Some? && d in w.logs[i].invalid.value
    requires d.id !in NewIds(departments) && OthersDoNotList(w, at, d.id)
    requires multiset(DepartmentIds(w.items[at]))[d.id] <= multiset(OldIds(departments))[d.id]
    requires forall k :: 0 < k < n ==> Unlisted(ws[k], d.id)
    ensures i < |ws[n].logs| && ws[n].logs[i] == w.logs[i]
    ensures forall k :: 0 <= k < n && es[k].Run? ==> forall l :: l in es[k].added ==> l.itemId != w.logs[i].itemId
  {
    ReplacementUnlists(w, ws[0], at, departments, employees, user, now, d.id);
    UnlistedDepartmentBlocksLogs(ws, es, n, i, d);
  }

  /**
   One department is replaced by another, the old one is active again and the new one is not:
   a run follows, and whatever run follows neither closes the old log nor records the new
   department.
   */
  lemma ReplacedDepartmentHidesInactiveOne(now: nat, added: seq<Log>, last: World)
    ensures var old1, new1 := DeptRef(7, Some("Sales")), 8;
            var item := Item(1, false, None, None, Some([7]), None);
            var log := Log(1, Detected, Some([old1]), Permissions(None, None, [old1]), None, None);
            var w := World([item], [log]);
            var w' := World([item.(departmentIds := Some([new1]))], [log, ResolvedLog(item, None, 3)]);
            var sso: Departments := map[7 := Info("Sales", true), new1 := Info("Shop", false)];
            && Replaces(w, w', 0, [Mapping(7, new1)], [], None, 3)
            && HasInactive(w'.items[0], sso)
            && Follows(w', Event.Run(sso, NO_OUTAGE, now, {}, 1, []), w')
            && (Follows(w', Event.Run(sso, NO_OUTAGE, now, {}, 1, added), last) ==> last.logs == w'.logs)
  {
    var old1, new1 := DeptRef(7, Some("Sales")), 8;
    var item := Item(1, false, None, None, Some([7]), None);
    var log := Log(1, Detected, Some([old1]), Permissions(None, None, [old1]), None, None);
    var w := World([item], [log]);
    var ms := [Mapping(7, new1)];
    assert ms[..0] == [] && ReplaceAll([7], ms) == ReplaceOne([7], ms[0]) == [new1];
    var w' := World([item.(departmentIds := Some([new1]))], [log, ResolvedLog(item, None, 3)]);
    assert w'.items == w.items[0 := ReplacedItem(item, ms, [])];
    var sso: Departments := map[7 := Info("Sales", true), new1 := Info("Shop", false)];
    assert new1 in DepartmentIds(w'.items[0]);
    EmptyRunFollows(w', sso, now, item.(departmentIds := Some([new1])), log);
    var e := Event.Run(sso, NO_OUTAGE, now, {}, 1, added);
    if Follows(w', e, last) {
      HiddenRun(w', e, last, 0, old1);
    }
  }

  /** A run over one live item whose open log names an unlisted department may change nothing. */
  lemma EmptyRunFollows(w: World, sso: Departments, now: nat, item: Item, log: Log)
    requires w.items == [item] && !item.deleted && |w.logs| == 2 && w.logs[0] == log && !Open(w.logs[1])
    requires Open(log) && log.itemId == item.id
    requires log.invalid.Some? && exists d :: d in log.invalid.value && Unlisted(w, d.id)
    ensures Follows(w, Event.Run(sso, NO_OUTAGE, now, {}, 1, []), w)
  {
    assert w.items[..0] == [];
    assert LiveItems([]) == [];
    var list := LiveItems(w.items);
    assert list == [] + [item] == [item];
    var m := Fetched(list, sso);
    var d :| d in log.invalid.value && Unlisted(w, d.id);
    RequestedByLiveItem(w.items, d.id);
    assert !Reactivated(log, m);
    var r := Revalidated(w.logs, IdsOf(list), m, now, {});
    assert r == w.logs;
    assert HasOpen(r, item.id) by {
      assert r[0] == log;
    }
    NothingAdded(r, list[..1], m, NO_OUTAGE);
    assert r + [] == w.logs;
  }

  lemma NewLogsOfOneItem(logs: seq<Log>, items: seq<Item>, upTo: nat, m: Departments, o: Outage)
    requires |items| == 1 && upTo <= |LiveItems(items)|
    ensures forall l :: l in NewLogs(logs, LiveItems(items)[..upTo], m, o) ==> l.itemId == items[0].id
  {
    var list := LiveItems(items);
    NewLogsAreOpen(logs, list[..upTo], m, o);
    forall l | l in NewLogs(logs, list[..upTo], m, o) ensures l.itemId == items[0].id {
      var j :| 0 <= j < |list[..upTo]| && l == NewLog(list[..upTo][j], m);
      LiveItemsAreItems(items, list[j]);
    }
  }

  /** A run over one item whose log cannot be closed. */
  lemma HiddenRun(w: World, e: Event, w': World, i: nat, d: DeptRef)
    requires Follows(w, e, w') && e.Run? && |w.items| == 1 && i < |w.logs| && Open(w.logs[i])
    requires w.logs[i].itemId == w.items[0].id && w.logs[i].invalid.Some? && d in w.logs[i].invalid.value
    requires Unlisted(w, d.id) && forall k :: 0 <= k < |w.logs| && Open(w.logs[k]) ==> k == i
    ensures w'.logs == w.logs
  {
    UnlistedDepartmentKeepsLogOpen(w, e, w', i, d);
    var list := LiveItems(w.items);
    var r := Revalidated(w.logs, IdsOf(list), Fetched(list, e.sso), e.now, e.skipped);
    assert r == w.logs by {
      assert w'.logs[i] == r[i];
    }
    var created := NewLogs(r, list[..e.upTo], Fetched(list, e.sso), e.outage);
    NewLogsOfOneItem(r, w.items, e.upTo, Fetched(list, e.sso), e.outage);
    assert forall l :: l in e.added ==> l in multiset(created);
    EmptyOrHasFirst(e.added);
  }

  method FindIndex(a: array<Id>, x: Id) returns (index: int)
    ensures index == IndexOf(a[..], x)
  {
    index := 0;
    while index < a.Length
      invariant 0 <= index <= a.Length && x !in a[..index]
    {
      if a[index] == x {
        FirstIsUnique(a[..], x, index);
        return;
      }
      index := index + 1;
    }
    assert a[..index] == a[..];
    index := -1;
  }

  lemma FirstIsUnique(ids: seq<Id>, x: Id, k: nat)
    requires k < |ids| && ids[k] == x && x !in ids[..k]
    ensures IndexOf(ids, x) == k
  {
    var j := IndexOf(ids, x);
    assert forall i :: 0 <= i < k ==> ids[..k][i] == ids[i] && ids[..k][i] in ids[..k];
    assert forall i :: 0 <= i < j ==> ids[..j][i] == ids[i] && ids[..j][i] in ids[..j];
  }

  /** The loop: overwrites the array in place and counts the hits. */
  method ReplaceInPlace(ids: array<Id>, mappings: seq<Mapping>) returns (replaced: nat)
    modifies ids
    ensures ids[..] == ReplaceAll(old(ids[..]), mappings)
    ensures replaced == |Hits(old(ids[..]), mappings)|
  {
    ghost var before := ids[..];
    replaced := 0;
    for i := 0 to |mappings|
      invariant ids[..] == ReplaceAll(before, mappings[..i])
      invariant replaced == |Hits(before, mappings[..i])|
    {
      assert mappings[..i + 1][..i] == mappings[..i];
      ghost var current := ids[..];
      var index := FindIndex(ids, mappings[i].oldId);
      if index != -1 {
        ids[index] := mappings[i].newId;
        assert ids[..] == current[index := mappings[i].newId];
        replaced := replaced + 1;
      }
    }
    assert mappings[..|mappings|] == mappings;
  }

  method ReplaceList(current: Option<seq<Id>>, mappings: seq<Mapping>)
    returns (list: Option<seq<Id>>, replaced: nat)
    ensures list == ReplacedList(current, mappings)
    ensures replaced == HitCount(current, mappings)
  {
    if |mappings| == 0 {
      return current, 0;
    }
    var ids := if current.Some? then current.value else [];
    var copy := new Id[|ids|](i requires 0 <= i < |ids| => ids[i]);
    assert copy[..] == ids;
    replaced := ReplaceInPlace(copy, mappings);
    list := Some(copy[..]);
  }

  class PermissionBusinessService {
    var items: seq<Item>
    var logs: seq<Log>

    constructor (items: seq<Item>, logs: seq<Log>)
      ensures this.items == items && this.logs == logs
    {
      this.items, this.logs := items, logs;
    }

    /**
     Replaces ids of one item and writes the log, both or neither: the item must be live, and
     if a save fails the transaction leaves no trace.
     */
    method ReplacePermissions(id: Id, departments: seq<Mapping>, employees: seq<Mapping>,
                              user: Option<Id>, now: nat, saveFails: bool)
      returns (r: Result<(nat, nat), ReplaceError>, ghost at: nat)
      requires DistinctIds(items)
      modifies this
      ensures r == Err(NotFound) <==>
              forall i :: 0 <= i < |old(items)| && old(items)[i].id == id ==> old(items)[i].deleted
      ensures r.Err? ==> items == old(items) && logs == old(logs)
      ensures r == Err(SaveFailed) ==> saveFails
      ensures r.Ok? ==> !saveFails && at < |old(items)| && old(items)[at].id == id
      ensures r.Ok? ==>
                && Replaces(World(old(items), old(logs)), World(items, logs), at, departments, employees, user, now)
                && r.value == (HitCount(old(items)[at].departmentIds, departments),
                               HitCount(old(items)[at].employeeIds, employees))
      ensures r.Ok? ==> Follows(World(old(items), old(logs)), Replacement(logs[|logs| - 1]), World(items, logs))
      ensures r.Ok? ==> var was, got := old(items)[at], items[at];
                && |items| == |old(items)| && (forall k :: 0 <= k < |items| && k != at ==> items[k] == old(items)[k])
                && got.id == was.id == id && !was.deleted && !got.deleted
                && got.rankIds == was.rankIds && got.positionIds == was.positionIds
                && ListReplaced(was.departmentIds, got.departmentIds, departments)
                && ListReplaced(was.employeeIds, got.employeeIds, employees)
                && r.value == (|Hits(if was.departmentIds.Some? then was.departmentIds.value else [], departments)|,
                               |Hits(if was.employeeIds.Some? then was.employeeIds.value else [], employees)|)
      ensures r.Ok? ==> |logs| == |old(logs)| + 1 && logs[..|old(logs)|] == old(logs)
      ensures r.Ok? ==> var l, was := logs[|old(logs)|], old(items)[at];
                && l.itemId == id && l.action == Resolved && l.invalid == None
                && l.resolvedAt == Some(now) && l.resolvedBy == user
                && l.snapshot == Permissions(was.rankIds, was.positionIds, [])
    {
      at := 0;
      var i := 0;
      while i < |items| && (items[i].id != id || items[i].deleted)
        invariant 0 <= i <= |items|
        invariant forall k :: 0 <= k < i ==> items[k].id != id || items[k].deleted
      {
        i := i + 1;
      }
      if i == |items| {
        return Err(NotFound), 0;
      }
      var item := items[i];
      var departmentIds, replacedDepartments := ReplaceList(item.departmentIds, departments);
      var employeeIds, replacedEmployees := ReplaceList(item.employeeIds, employees);
      if saveFails {
        return Err(SaveFailed), i;
      }
      LiveItemsAreDistinct(items);
      items := items[i := item.(departmentIds := departmentIds, employeeIds := employeeIds)];
      logs := logs + [ResolvedLog(item, user, now)];
      return Ok((replacedDepartments, replacedEmployees)), i;
    }
  }
}
