/** Concrete tables on which an expected property fails. */
module Witnesses {
  import opened Arith
  import opened Capacity
  import opened Control
  import opened Group
  import opened Probe
  import opened RawTable
  import opened TableSpec
  import opened Wrappers

  // ---------- Clearing a table that has only tombstones

  /** Eight falls into the second group of a table of sixteen buckets, everything else into the first. */
  function Spread(x: nat): Hash {
    if x == 8 then 8 else 0
  }

  /** A table of sixteen buckets over the portable group. */
  ghost predicate Sixteen(t: RawTable<nat>)
    reads t
  {
    t.kind == Generic && t.bucketMask == 15 && t.hasher == Spread
  }

  /** Sixteen buckets, of which only those of the first group may be in use. */
  ghost predicate FirstGroupOnly(r: seq<Tag>) {
    |r| == 16 && forall j :: 8 <= j < 16 ==> r[j] == EMPTY
  }

  /** The first group is all full exactly when eight buckets are. */
  lemma {:induction false} EightFull(r: seq<Tag>, at: nat)
    requires FirstGroupOnly(r) && at <= 16
    ensures FullsFrom(r, at) <= if at < 8 then 8 - at else 0
    ensures at < 8 ==> (FullsFrom(r, at) == 8 - at <==> forall j :: at <= j < 8 ==> IsFull(r[j]))
    decreases 16 - at
  {
    if at < 16 {
      EightFull(r, at + 1);
    }
  }

  /** While the first group has room, an element of hash zero goes there. */
  lemma LandsInFirstGroup(r: seq<Tag>, s: nat)
    requires FirstGroupOnly(r) && s < 16 && Dense(r, 8, 0, s) && Fulls(r) < 8
    ensures s < 8
  {
    EightFull(r, 0);
    var b :| 0 <= b < 8 && !IsFull(r[b]);
    assert SpecialIn(r, 8, 0, b);
    var k: nat :| DenseAt(r, 8, 0, s, k);
    assert ProbePos(16, 8, 0, 0) == 0;
  }

  /** Inside an occupied group an erased bucket becomes a tombstone. */
  lemma GroupPassedOver(r: seq<Tag>, i: nat)
    requires FirstGroupOnly(r) && i < 8 && forall j :: 0 <= j < 8 ==> r[j] != EMPTY
    ensures PassedOver(r, 8, i)
  {
    assert InWindow(16, 8, 0, i) && !SeesEmpty(r, 8, 0);
  }

  /** A table of sixteen buckets whose first group is full of elements with hash zero. */
  method FillGroup() returns (t: RawTable<nat>)
    ensures fresh(t) && fresh(t.ctrl) && fresh(t.data) && t.Valid() && Sixteen(t)
    ensures PartlyErased(t.Tags(), 0)
  {
    t := new RawTable(Generic, Spread, 16, 16);
    for i := 0 to 8
      invariant fresh(t) && fresh(t.ctrl) && fresh(t.data) && t.Valid() && Sixteen(t)
      invariant FirstGroupOnly(t.Tags()) && t.items == i && t.growthLeft == 14 - i
    {
      AddToGroup(t, i);
    }
    EightFull(t.Tags(), 0);
  }

  method AddToGroup(t: RawTable<nat>, ghost i: nat)
    requires t.Valid() && Sixteen(t)
    requires FirstGroupOnly(t.Tags()) && t.items == i < 8 && t.growthLeft == 14 - i
    modifies t`growthLeft, t`items, t.ctrl, t.data
    ensures t.Valid() && FirstGroupOnly(t.Tags()) && t.items == i + 1 && t.growthLeft == 14 - (i + 1)
  {
    ghost var e := InvHasEmpty(t.Tags(), t.data[..], 8, t.hasher, t.growthLeft, t.items);
    var slot := t.FindInsertSlot(0);
    LandsInFirstGroup(t.Tags(), slot);
    DenseReach(t.Tags(), 8, 0, slot);
    NoTombs(t.Tags(), slot);
    t.InsertInSlot(0, slot, 7);
  }

  lemma NoTombs(r: seq<Tag>, i: nat)
    requires i < |r| && Tombs(r) == 0
    ensures r[i] != DELETED
  {
    CountFromNone(r, DELETED, 0);
  }

  /** Of the eight buckets of the first group the first i are tombstones, the others still full. */
  ghost predicate PartlyErased(r: seq<Tag>, i: nat) {
    FirstGroupOnly(r) && forall j :: 0 <= j < 8 ==> ErasedAt(r, i, j)
  }

  predicate ErasedAt(r: seq<Tag>, i: nat, j: nat)
    requires j < |r|
  {
    if j < i then r[j] == DELETED else IsFull(r[j])
  }

  lemma EraseNext(r: seq<Tag>, i: nat)
    requires PartlyErased(r, i) && i < 8
    ensures IsFull(r[i]) && PassedOver(r, 8, i) && PartlyErased(r[i := DELETED], i + 1)
  {
    assert forall j :: 0 <= j < 8 && ErasedAt(r, i, j) ==> r[j] != EMPTY;
    GroupPassedOver(r, i);
    assert ErasedAt(r, i, i);
    var r', i' := r[i := DELETED], i + 1;
    forall j | 0 <= j < 8
      ensures ErasedAt(r', i', j)
    {
      assert ErasedAt(r, i, j);
    }
  }

  lemma AllErased(r: seq<Tag>)
    requires PartlyErased(r, 8)
    ensures Fulls(r) == 0 && Tombs(r) == 8
  {
    forall j: nat | 0 <= j < 16
      ensures NotFull(r, j)
    {
      assert j < 8 ==> ErasedAt(r, 8, j);
    }
    FullsFromNone(r, 0);
    EightTombs(r, 0);
  }

  lemma {:induction false} EightTombs(r: seq<Tag>, at: nat)
    requires PartlyErased(r, 8) && at <= 16
    ensures CountFrom(r, DELETED, at) == if at < 8 then 8 - at else 0
    decreases 16 - at
  {
    if at < 16 {
      assert at < 8 ==> ErasedAt(r, 8, at);
      EightTombs(r, at + 1);
    }
  }

  /** Eight elements of one hash are inserted and removed again: what is left are eight tombstones. */
  method OnlyTombstones() returns (t: RawTable<nat>)
    ensures fresh(t) && fresh(t.ctrl) && fresh(t.data) && t.Valid() && Sixteen(t)
    ensures t.items == 0 && t.growthLeft == 6 && FirstGroupOnly(t.Tags()) && Tombs(t.Tags()) == 8
  {
    t := FillGroup();
    for i := 0 to 8
      invariant fresh(t) && fresh(t.ctrl) && fresh(t.data) && t.Valid() && Sixteen(t)
      invariant PartlyErased(t.Tags(), i)
    {
      EraseNext(t.Tags(), i);
      t.Erase(i);
    }
    AllErased(t.Tags());
  }

  /** Clearing such a table changes nothing: its capacity is not restored. */
  method ClearLeavesTombstones() returns (t: RawTable<nat>)
    ensures t.Valid() && t.items == 0 && t.growthLeft < BucketMaskToCapacity(t.bucketMask)
  {
    t := OnlyTombstones();
    t.Clear();
  }

  // ---------- A failing hasher and no drop function

  /** An element of hash eight goes to an EMPTY bucket of the second group. */
  lemma LandsInSecondGroup(r: seq<Tag>, s: nat)
    requires FirstGroupOnly(r) && s < 16 && Dense(r, 8, 8, s)
    ensures r[s] == EMPTY
  {
    assert ProbePos(16, 8, 8, 0) == 8;
    assert SpecialIn(r, 8, 8, 8);
    var k: nat :| DenseAt(r, 8, 8, s, k);
    assert k == 0;
    MaskSmall(s - 8, 16);
  }

  /** Eight tombstones and one element: reserving six more places rehashes this table in place. */
  method CrowdedByTombstones() returns (t: RawTable<nat>)
    ensures fresh(t) && fresh(t.ctrl) && fresh(t.data) && t.Valid() && t.bucketMask == 15
    ensures t.items == 1 && t.growthLeft == 5
  {
    t := OnlyTombstones();
    ghost var e := InvHasEmpty(t.Tags(), t.data[..], 8, t.hasher, t.growthLeft, t.items);
    var slot := t.FindInsertSlot(8);
    LandsInSecondGroup(t.Tags(), slot);
    DenseReach(t.Tags(), 8, 8, slot);
    t.InsertInSlot(8, slot, 8);
  }

  /**
   * Reserving six places in that table takes the rehash in place.  Without a drop function a hasher
   * that fails at its first call leaves the element counted but gone.
   */
  method InterruptedRehash() returns (t: RawTable<nat>)
    ensures t.Shape() && !t.Valid() && t.Contents() == multiset{} && t.items == 1
  {
    t := CrowdedByTombstones();
    assert 6 > t.growthLeft && t.items + 6 <= BucketMaskToCapacity(t.bucketMask) / 2;
    ElemsToSize(t.Tags(), t.data[..], t.Buckets());
    var completed, lost := t.RehashInPlace(false, Some(0));
  }
}
