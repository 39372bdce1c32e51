/** The open-addressing table: control bytes, buckets, and the two counters. */
module RawTable {
  import opened Arith
  import opened Capacity
  import opened Control
  import opened FillSpec
  import opened Group
  import opened Probe
  import opened RawIteration
  import opened RehashSpec
  import opened SearchSpec
  import opened TableSpec
  import opened Wrappers

  class RawTable<T(0)> {
    const kind: GroupKind
    const hasher: T -> Hash
    var bucketMask: nat
    var growthLeft: nat
    var items: nat
    var ctrl: array<Tag>
    var data: array<T>
    /** The largest bucket count whose allocation layout does not overflow. */
    const bucketLimit: nat
    /** How many elements resizes and rehashes have placed anew so far. */
    ghost var moved: nat

    function Width(): nat {
      kind.Width()
    }

    function Buckets(): nat
      reads this
    {
      bucketMask + 1
    }

    /** The control bytes are laid out as the search expects; nothing is said about what they mean. */
    ghost predicate Shape()
      reads this, ctrl
    {
      && Geometry(Buckets(), Width())
      && ctrl.Length == Buckets() + Width()
      && data.Length == Buckets()
      && ctrl as object != data
      && Mirrors(ctrl[..], ctrl[..Buckets()], Width())
    }

    /** The control bytes of the buckets, without filler and copies. */
    ghost function Tags(): (r: seq<Tag>)
      requires Shape()
      reads this, ctrl
      ensures |r| == Buckets()
    {
      ctrl[..Buckets()]
    }

    /** The full table invariant. */
    ghost predicate Valid()
      reads this, ctrl, data
    {
      && Shape()
      && (bucketMask > 0 ==> Buckets() <= bucketLimit)
      && Inv(Tags(), data[..], Width(), hasher, growthLeft, items)
    }

    /** The elements stored in the table. */
    ghost function Contents(): multiset<T>
      requires Shape()
      reads this, ctrl, data
    {
      Elems(Tags(), data[..], false)
    }

    /** A table of the given number of empty buckets; one bucket stands for the unallocated table. */
    constructor (kind: GroupKind, hasher: T -> Hash, bucketLimit: nat, buckets: nat)
      requires IsPow2(buckets) && (buckets == 1 || buckets <= bucketLimit)
      ensures this.kind == kind && this.hasher == hasher && this.bucketLimit == bucketLimit
      ensures Valid() && Buckets() == buckets && items == 0 && Contents() == multiset{} && moved == 0
      ensures growthLeft == BucketMaskToCapacity(buckets - 1) && fresh(ctrl) && fresh(data)
      ensures forall i :: 0 <= i < Buckets() ==> Tags()[i] == EMPTY
    {
      this.kind, this.hasher, this.bucketLimit := kind, hasher, bucketLimit;
      bucketMask, items, growthLeft, moved := buckets - 1, 0, BucketMaskToCapacity(buckets - 1), 0;
      ctrl := new Tag[buckets + kind.Width()](_ => EMPTY);
      data := new T[buckets];
      new;
      WidthPow2(kind);
      EmptyControl(ctrl[..], Buckets(), Width());
      EmptyInv(Tags(), data[..], Width(), hasher);
    }

    method SetCtrl(index: nat, t: Tag)
      requires Shape() && index < Buckets()
      modifies ctrl
      ensures Shape() && Tags() == old(Tags())[index := t]
    {
      ghost var r := Tags();
      var index2 := Mask(index - Width(), Buckets()) + Width();
      MirrorsUpdate(ctrl[..], r, Width(), index, t);
      MirrorIndexCases(Buckets(), Width(), index);
      ctrl[index] := t;
      ctrl[index2] := t;
      assert ctrl[..Buckets()] == r[index := t];
    }

    /** An unaligned load of a group of control bytes. */
    method LoadGroup(pos: nat) returns (group: seq<Tag>)
      requires Shape() && pos < Buckets()
      ensures Shows(group, Tags(), Width(), pos)
    {
      MirrorsGroup(ctrl[..], Tags(), Width(), pos);
      group := ctrl[pos..pos + Width()];
      assert group == ctrl[..][pos..pos + Width()];
    }

    /** Advances the probe sequence; reaching its end is excluded by the precondition. */
    method NextProbe(probe: ProbeSeq, ghost hash: Hash, ghost k: nat) returns (next: ProbeSeq)
      requires Geometry(Buckets(), Width()) && k + 1 < Groups(Buckets(), Width())
      requires probe == ProbeAt(Buckets(), Width(), hash, k)
      ensures next == ProbeAt(Buckets(), Width(), hash, k + 1)
    {
      ProbeStep(Buckets(), Width(), hash, k);
      next := probe.MoveNext(bucketMask, Width());
    }

    /** Tries the lanes of one group whose tag may match. */
    method ScanGroup(group: seq<Tag>, hash: Hash, pos: nat, eq: T -> bool) returns (found: Option<nat>)
      requires Shape() && Shows(group, Tags(), Width(), pos)
      ensures found.Some? ==> Hit(Tags(), data[..], eq, found.value)
      ensures found.None? ==> WindowScanned(Tags(), data[..], Width(), pos, FullTag(hash), eq)
    {
      ghost var r := Tags();
      var mask := MatchTag(kind, group, FullTag(hash));
      ghost var all, lo := mask, 0;
      while AnyBitSet(mask)
        invariant |mask| == Width() && lo <= Width()
        invariant forall b :: lo <= b < Width() ==> mask[b] == all[b]
        invariant forall b :: 0 <= b < lo ==> !mask[b] && (all[b] ==> !eq(data[LaneBucket(Buckets(), pos, b)]))
        decreases Width() - lo
      {
        var bit := LowestSetBit(mask).value;
        mask := RemoveLowestBit(mask);
        var index := Mask(pos + bit, Buckets());
        MatchTagSound(kind, group, FullTag(hash), bit);
        LaneShows(r, Width(), pos, bit);
        assert LaneIs(group, r, Width(), pos, bit);
        if eq(data[index]) {
          return Some(index);
        }
        lo := bit + 1;
      }
      forall i | 0 <= i < Buckets() && InWindow(Buckets(), Width(), pos, i) && r[i] == FullTag(hash)
        ensures !eq(data[i])
      {
        var b := LaneOf(r, Width(), pos, i);
        assert LaneIs(group, r, Width(), pos, b);
        MatchTagSound(kind, group, FullTag(hash), b);
        assert all[b];
      }
      found := None;
    }

    /** Finds a stored element equal to the one sought, or proves there is none. */
    method FindInner(hash: Hash, eq: T -> bool) returns (found: Option<nat>)
      requires Valid() && Agrees(Tags(), data[..], hasher, hash, eq)
      ensures found.Some? ==> Hit(Tags(), data[..], eq, found.value)
      ensures found.None? ==> Absent(Tags(), data[..], eq)
    {
      ghost var r, n, w := Tags(), Buckets(), Width();
      ghost var d := data[..];
      ghost var e := InvHasEmpty(r, d, w, hasher, growthLeft, items);
      var probe := ProbeSeq(Mask(hash, Buckets()), 0);
      ghost var k: nat := 0;
      while true
        invariant k < Groups(n, w) && probe == ProbeAt(n, w, hash, k)
        invariant Passed(r, w, hash, k)
        invariant Scanned(r, d, w, hash, eq, k)
        decreases Groups(n, w) - k
      {
        var group := LoadGroup(probe.pos);
        found := ScanGroup(group, hash, probe.pos, eq);
        if found.Some? {
          return;
        }
        ScannedStep(r, d, w, hash, eq, k);
        GroupSeesEmpty(group, r, w, probe.pos);
        if AnyBitSet(MatchEmpty(group)) {
          NothingFound(r, d, w, hasher, hash, eq, k);
          return;
        }
        SearchStops(r, w, hash, k, e);
        probe := NextProbe(probe, hash, k);
        k := k + 1;
      }
    }

    /** Turns a hit on the filler of a small table into a bucket that is really free. */
    method FixInsertSlot(index: nat, ghost hash: Hash, ghost first: nat, ghost k: nat) returns (slot: nat)
      requires Shape() && HasSpecial(Tags()) && Remembered(Tags(), Width(), hash, Some(index), first, k)
      ensures slot < Buckets() && !IsFull(Tags()[slot]) && Dense(Tags(), Width(), hash, slot)
      ensures FirstFree(Tags(), Width(), hash, slot)
    {
      ghost var r, w := Tags(), Width();
      ghost var pos := ProbePos(|r|, w, hash, first);
      ghost var b :| FirstLane(r, w, pos, b) && LaneBucket(|r|, pos, b) == index;
      slot := index;
      if IsFull(ctrl[slot]) {
        var group := LoadGroup(0);
        SlotFixed(group, r, w);
        slot := LowestSetBit(MatchEmptyOrDeleted(group)).value;
      }
      assert DenseAt(r, w, hash, slot, first);
      assert FirstFreeAt(r, w, hash, slot, first, b);
    }

    /** Finds the first free bucket in the first window of the search for `hash` that has one. */
    method FindInsertSlot(hash: Hash) returns (slot: nat)
      requires Shape() && HasSpecial(Tags())
      ensures slot < Buckets() && !IsFull(Tags()[slot]) && Dense(Tags(), Width(), hash, slot)
      ensures FirstFree(Tags(), Width(), hash, slot)
    {
      ghost var r, n, w := Tags(), Buckets(), Width();
      ghost var e :| 0 <= e < n && !IsFull(r[e]);
      var probe := ProbeSeq(Mask(hash, Buckets()), 0);
      ghost var k: nat := 0;
      while true
        invariant k < Groups(n, w) && probe == ProbeAt(n, w, hash, k)
        invariant Crowded(r, w, hash, k)
        decreases Groups(n, w) - k
      {
        var group := LoadGroup(probe.pos);
        var index := SlotInGroup(group, probe.pos, Buckets());
        if index.Some? {
          SlotReported(group, r, w, probe.pos);
          slot := FixInsertSlot(index.value, hash, k, k + 1);
          return;
        }
        GroupSeesSpecial(group, r, w, probe.pos);
        SlotSearchStops(r, w, hash, k, e);
        probe := NextProbe(probe, hash, k);
        k := k + 1;
      }
    }

    /** One pass that finds a stored element equal to the one sought, or the free bucket where it belongs. */
    method FindOrFindInsertSlotInner(hash: Hash, eq: T -> bool) returns (found: bool, index: nat)
      requires Valid() && Agrees(Tags(), data[..], hasher, hash, eq)
      ensures found ==> Hit(Tags(), data[..], eq, index)
      ensures !found ==> index < Buckets() && !IsFull(Tags()[index]) && Dense(Tags(), Width(), hash, index)
      ensures !found ==> FirstFree(Tags(), Width(), hash, index)
      ensures !found ==> Absent(Tags(), data[..], eq)
    {
      ghost var r, n, w := Tags(), Buckets(), Width();
      ghost var d := data[..];
      ghost var e := InvHasEmpty(r, d, w, hasher, growthLeft, items);
      var slot: Option<nat> := None;
      var probe := ProbeSeq(Mask(hash, Buckets()), 0);
      ghost var k: nat, first: nat := 0, 0;
      while true
        invariant probe == ProbeAt(n, w, hash, k)
        invariant Searching(r, d, w, hash, eq, slot, first, k)
        decreases Groups(n, w) - k
      {
        var group := LoadGroup(probe.pos);
        var hit := ScanGroup(group, hash, probe.pos, eq);
        if hit.Some? {
          return true, hit.value;
        }
        ScannedStep(r, d, w, hash, eq, k);
        GroupSeesEmpty(group, r, w, probe.pos);
        first := RememberedStep(group, r, w, hash, slot, first, k);
        slot := Remember(slot, group, probe.pos, Buckets());
        if AnyBitSet(MatchEmpty(group)) {
          NothingFound(r, d, w, hasher, hash, eq, k);
          RememberedSlot(r, w, hash, slot, first, k);
          index := FixInsertSlot(slot.value, hash, first, k + 1);
          return false, index;
        }
        SearchingStep(r, d, w, hash, eq, k, e, slot, first);
        probe := NextProbe(probe, hash, k);
        k := k + 1;
      }
    }

    /** Writes a new element into a free bucket on its search path. */
    method InsertInSlot(hash: Hash, slot: nat, value: T)
      requires Valid() && hash == hasher(value)
      requires slot < Buckets() && !IsFull(Tags()[slot]) && Reach(Tags(), Width(), hash, slot)
      requires Tags()[slot] == EMPTY ==> growthLeft > 0
      modifies this`growthLeft, this`items, ctrl, data
      ensures Valid() && Contents() == old(Contents()) + multiset{value}
      ensures Tags() == old(Tags())[slot := FullTag(hash)] && data[..] == old(data[..])[slot := value]
      ensures items == old(items) + 1
      ensures growthLeft == old(growthLeft) - (if old(Tags())[slot] == EMPTY then 1 else 0)
      ensures Spent() <= old(Spent()) + 2
    {
      ghost var r, d := Tags(), data[..];
      var oldCtrl := ctrl[slot];
      var used := if SpecialIsEmpty(oldCtrl) then 1 else 0;
      InsertInv(r, d, Width(), hasher, growthLeft, items, slot, value, used);
      growthLeft := growthLeft - used;
      SetCtrl(slot, FullTag(hash));
      items := items + 1;
      data[slot] := value;
      assert data[..] == d[slot := value];
    }

    /** Decides between EMPTY and a tombstone by looking at the groups on both sides. */
    method ErasureTag(index: nat) returns (t: Tag, freed: nat)
      requires Valid() && index < Buckets() && IsFull(Tags()[index])
      ensures t == (if PassedOver(Tags(), Width(), index) then DELETED else EMPTY)
      ensures freed == if t == EMPTY then 1 else 0
      ensures items > 0 && Inv(Tags()[index := t], data[..], Width(), hasher, growthLeft + freed, items - 1)
      ensures Contents() == Elems(Tags()[index := t], data[..], false) + multiset{data[index]}
      ensures Reach(Tags()[index := t], Width(), hasher(data[index]), index)
    {
      var indexBefore := Mask(index - Width(), Buckets());
      var before := LoadGroup(indexBefore);
      var after := LoadGroup(index);
      t, freed := DELETED, 0;
      if !NeedsTombstone(before, after) {
        t, freed := EMPTY, 1;
      }
      EraseInv(Tags(), data[..], Width(), hasher, growthLeft, items, index, before, after, t, freed);
    }

    /** Claims a free bucket for an element with this hash; the caller writes the element. */
    method PrepareInsertSlot(hash: Hash) returns (index: nat, oldCtrl: Tag)
      requires Shape() && HasSpecial(Tags())
      modifies ctrl
      ensures Shape() && index < Buckets() && oldCtrl == old(Tags())[index] && !IsFull(oldCtrl)
      ensures Tags() == old(Tags())[index := FullTag(hash)] && Dense(old(Tags()), Width(), hash, index)
      ensures FirstFree(old(Tags()), Width(), hash, index)
    {
      index := FindInsertSlot(hash);
      oldCtrl := ctrl[index];
      SetCtrl(index, FullTag(hash));
    }

    /** Marks a full bucket free, with a tombstone exactly if some search may have passed over it. */
    method Erase(index: nat)
      requires Valid() && index < Buckets() && IsFull(Tags()[index])
      modifies this`growthLeft, this`items, ctrl
      ensures Valid() && old(Contents()) == Contents() + multiset{data[index]}
      ensures Tags() == old(Tags())[index := if old(PassedOver(Tags(), Width(), index)) then DELETED else EMPTY]
      ensures items == old(items) - 1
      ensures growthLeft == old(growthLeft) + (if Tags()[index] == EMPTY then 1 else 0)
      ensures Reach(Tags(), Width(), hasher(data[index]), index)
    {
      ghost var d := data[..];
      var t, freed := ErasureTag(index);
      growthLeft := growthLeft + freed;
      SetCtrl(index, t);
      items := items - 1;
      assert data[..] == d;
    }

    /** Removes an element and returns it; its bucket can take another element with the same hash. */
    method Remove(index: nat) returns (value: T, slot: nat)
      requires Valid() && index < Buckets() && IsFull(Tags()[index])
      modifies this`growthLeft, this`items, ctrl
      ensures Valid() && old(Contents()) == Contents() + multiset{value}
      ensures value == data[index] && slot == index
      ensures Tags() == old(Tags())[index := if old(PassedOver(Tags(), Width(), index)) then DELETED else EMPTY]
      ensures items == old(items) - 1
      ensures growthLeft == old(growthLeft) + (if Tags()[index] == EMPTY then 1 else 0)
      ensures Reach(Tags(), Width(), hasher(value), slot)
    {
      Erase(index);
      return data[index], index;
    }

    /** Overwrites a stored element by another with the same hash. */
    method WriteBucket(index: nat, value: T)
      requires Valid() && index < Buckets() && IsFull(Tags()[index]) && hasher(value) == hasher(data[index])
      modifies data
      ensures Valid() && data[..] == old(data[..])[index := value]
      ensures Contents() + multiset{old(data[index])} == old(Contents()) + multiset{value}
    {
      ghost var d := data[..];
      ReplaceInv(Tags(), d, Width(), hasher, growthLeft, items, index, value);
      data[index] := value;
      assert data[..] == d[index := value];
    }

    /** Takes an element out and puts back what f makes of it, if anything, in the same bucket. */
    method ReplaceBucketWith(index: nat, f: T -> Option<T>) returns (kept: bool)
      requires Valid() && index < Buckets() && IsFull(Tags()[index])
      requires f(data[index]).Some? ==> hasher(f(data[index]).value) == hasher(data[index])
      modifies this`growthLeft, this`items, ctrl, data
      ensures Valid() && kept == old(f(data[index])).Some? && Spent() <= old(Spent())
      ensures kept ==> ctrl[..] == old(ctrl[..]) && items == old(items) && growthLeft == old(growthLeft)
      ensures kept ==> data[..] == old(data[..])[index := old(f(data[index])).value]
      ensures kept ==> Contents() + multiset{old(data[index])} == old(Contents()) + multiset{old(f(data[index])).value}
      ensures !kept ==> data[..] == old(data[..]) && old(Contents()) == Contents() + multiset{old(data[index])}
    {
      ghost var r, d := Tags(), data[..];
      var oldCtrl, oldGrowthLeft := ctrl[index], growthLeft;
      var item, _ := Remove(index);
      var result := f(item);
      if result.None? {
        return false;
      }
      growthLeft := oldGrowthLeft;
      SetCtrl(index, oldCtrl);
      items := items + 1;
      data[index] := result.value;
      assert Tags() == r;
      MirrorsUnique(ctrl[..], old(ctrl[..]), r, Width());
      ReplaceInv(r, d, Width(), hasher, growthLeft, items, index, result.value);
      kept := true;
    }

    // ----- In-place rehash

    /** Marks every element as waiting and clears the tombstones, a group at a time, then repairs the copies. */
    method PrepareRehashInPlace()
      requires Shape()
      modifies ctrl
      ensures Shape() && Tags() == Prepared(old(Tags()))
    {
      ConvertGroups();
      RepairCopies();
    }

    method ConvertGroups()
      requires Shape()
      modifies ctrl
      ensures ctrl[..Buckets()] == Prepared(old(Tags())) && FillerEmpty(ctrl[..], Buckets(), Width())
    {
      ghost var r, n, w := Tags(), Buckets(), Width();
      MirrorsFiller(ctrl[..], r, w);
      var i := 0;
      while i < Buckets()
        invariant 0 <= i
        invariant forall j :: 0 <= j < n ==> ctrl[j] == if j < i then ConvertSpecial(r[j]) else r[j]
        invariant n < w ==> forall j :: n <= j < w ==> ctrl[j] == EMPTY
        decreases Buckets() - i
      {
        forall b | 0 <= b < Width() {
          ctrl[i + b] := ConvertSpecial(ctrl[i + b]);
        }
        i := i + Width();
      }
      assert ctrl[..n] == Prepared(r);
    }

    method RepairCopies()
      requires Geometry(Buckets(), Width()) && ctrl.Length == Buckets() + Width()
      requires FillerEmpty(ctrl[..], Buckets(), Width())
      modifies ctrl
      ensures Mirrors(ctrl[..], ctrl[..Buckets()], Width()) && ctrl[..Buckets()] == old(ctrl[..Buckets()])
    {
      ghost var c := ctrl[..];
      if Buckets() < Width() {
        forall j | 0 <= j < Buckets() {
          ctrl[Width() + j] := ctrl[j];
        }
      } else {
        forall j | 0 <= j < Width() {
          ctrl[Buckets() + j] := ctrl[j];
        }
      }
      assert ctrl[..Buckets()] == c[..Buckets()];
      CopiesMirror(ctrl[..], Buckets(), Width());
    }

    predicate IsInSameGroup(i: nat, newI: nat, hash: Hash)
      reads this
    {
      GroupOf(Buckets(), Width(), hash, i) == GroupOf(Buckets(), Width(), hash, newI)
    }

    /** Places the waiting element of bucket i: it stays if the first free bucket for it is in the same group, moves
        there if that is EMPTY, and else changes places with the element waiting there. Returns whether bucket i is
        settled. */
    method RehashStep(i: nat, ghost contents: multiset<T>) returns (settled: bool, ghost newI: nat)
      requires Shape() && i < Buckets() && Tags()[i] == DELETED
      requires Rehashing(Tags(), data[..], Width(), hasher, items, contents)
      modifies this`moved, ctrl, data
      ensures Shape() && Rehashing(Tags(), data[..], Width(), hasher, items, contents)
      ensures moved == old(moved) + 1 && Fulls(Tags()) == old(Fulls(Tags())) + 1
      ensures newI < Buckets() && FirstFree(old(Tags()), Width(), old(hasher(data[i])), newI)
      ensures
        var hash := old(hasher(data[i]));
        if GroupOf(Buckets(), Width(), hash, i) == GroupOf(Buckets(), Width(), hash, newI) then
          Tags() == old(Tags())[i := FullTag(hash)] && data[..] == old(data[..])
        else Relocated(old(Tags()), old(data[..]), i, newI, FullTag(hash))
      ensures settled <==> Tags()[i] != DELETED
      ensures !settled ==> Tombs(Tags()) < old(Tombs(Tags()))
      ensures Advanced(old(Tags()), Tags())
    {
      WaitingCounts(Tags(), i);
      var hash := hasher(data[i]);
      var target := FindInsertSlot(hash);
      newI := target;
      moved := moved + 1;
      if IsInSameGroup(i, target, hash) {
        ghost var d := data[..];
        RehashStay(Tags(), d, Width(), hasher, items, contents, i, target);
        SetCtrl(i, FullTag(hash));
        assert data[..] == d;
        settled := true;
      } else {
        settled := MoveWaiting(i, target, hash, contents);
      }
    }

    /** The element of bucket i has gone to bucket j with the tag t; one waiting there before has come to i. */
    ghost predicate Relocated(r: seq<Tag>, d: seq<T>, i: nat, j: nat, t: Tag)
      requires Shape() && i < |r| == |d| && j < |r|
      reads this, ctrl, data
    {
      if r[j] == EMPTY then Tags() == r[j := t][i := EMPTY] && data[..] == d[j := d[i]]
      else Tags() == r[j := t] && data[..] == d[j := d[i]][i := d[j]]
    }

    /** Moves the waiting element of bucket i to a better bucket, swapping with an element waiting there. */
    method MoveWaiting(i: nat, newI: nat, hash: Hash, ghost contents: multiset<T>) returns (settled: bool)
      requires Shape() && i < Buckets() && Tags()[i] == DELETED && newI < Buckets() && newI != i
      requires Rehashing(Tags(), data[..], Width(), hasher, items, contents)
      requires hash == hasher(data[i]) && !IsFull(Tags()[newI]) && Dense(Tags(), Width(), hash, newI)
      modifies ctrl, data
      ensures Shape() && Rehashing(Tags(), data[..], Width(), hasher, items, contents)
      ensures Fulls(Tags()) == old(Fulls(Tags())) + 1
      ensures Relocated(old(Tags()), old(data[..]), i, newI, FullTag(hash))
      ensures settled <==> Tags()[i] != DELETED
      ensures !settled ==> Tombs(Tags()) < old(Tombs(Tags()))
      ensures Advanced(old(Tags()), Tags())
    {
      ghost var r, d := Tags(), data[..];
      var prevCtrl := ctrl[newI];
      SetCtrl(newI, FullTag(hash));
      if prevCtrl == EMPTY {
        RehashMove(r, d, Width(), hasher, items, contents, i, newI);
        SetCtrl(i, EMPTY);
        data[newI] := data[i];
        assert data[..] == d[newI := d[i]];
        return true;
      } else {
        RehashSwap(r, d, Width(), hasher, items, contents, i, newI);
        data[i], data[newI] := data[newI], data[i];
        assert data[..] == d[newI := d[i]][i := d[newI]];
        return false;
      }
    }

    /** Gives up the elements still waiting. */
    method DropWaiting(ghost contents: multiset<T>) returns (ghost kept: multiset<T>, ghost lost: multiset<T>)
      requires Shape() && Rehashing(Tags(), data[..], Width(), hasher, items, contents)
      modifies this`items, ctrl
      ensures Shape() && kept + lost == contents && |lost| == old(Tombs(Tags())) && items == old(items) - |lost|
      ensures Rehashing(Tags(), data[..], Width(), hasher, items, kept)
      ensures SettledBelow(Tags(), Buckets())
    {
      var i := 0;
      kept, lost := contents, multiset{};
      while i < Buckets()
        invariant 0 <= i <= Buckets() && Shape() && items == old(items) - |lost|
        invariant Rehashing(Tags(), data[..], Width(), hasher, items, kept)
        invariant SettledBelow(Tags(), i)
        invariant kept + lost == contents && |lost| + Tombs(Tags()) == old(Tombs(Tags()))
      {
        ghost var r := Tags();
        if ctrl[i] == DELETED {
          kept, lost := DropOne(i, kept, lost, contents);
        }
        AdvancedSettles(r, Tags(), i);
        i := i + 1;
      }
      NoWaiting(Tags());
    }

    method DropOne(i: nat, ghost kept: multiset<T>, ghost lost: multiset<T>, ghost contents: multiset<T>)
      returns (ghost kept': multiset<T>, ghost lost': multiset<T>)
      requires Shape() && Rehashing(Tags(), data[..], Width(), hasher, items, kept)
      requires i < Buckets() && Tags()[i] == DELETED && kept + lost == contents
      modifies this`items, ctrl
      ensures Shape() && Rehashing(Tags(), data[..], Width(), hasher, items, kept')
      ensures kept' + lost' == contents && |lost'| + Tombs(Tags()) == |lost| + old(Tombs(Tags()))
      ensures |lost'| == |lost| + 1 && items == old(items) - 1
      ensures Tags() == old(Tags())[i := EMPTY]
    {
      ghost var d := data[..];
      WaitingCounts(Tags(), i);
      ClearWaiting(Tags(), d, Width(), hasher, i);
      GiveUp(kept, lost, d[i]);
      kept', lost' := kept - multiset{d[i]}, lost + multiset{d[i]};
      SetCtrl(i, EMPTY);
      items := items - 1;
      assert data[..] == d;
    }

    /** The guard with a drop function leaves a sound table without the waiting elements. */
    method GuardDrop(ghost contents: multiset<T>) returns (ghost lost: multiset<T>)
      requires Shape() && Rehashing(Tags(), data[..], Width(), hasher, items, contents)
      requires bucketMask > 0 ==> Buckets() <= bucketLimit
      requires items <= BucketMaskToCapacity(bucketMask)
      modifies this`growthLeft, this`items, ctrl
      ensures Valid() && Contents() + lost == contents && |lost| == old(Tombs(Tags())) && Tombs(Tags()) == 0
      ensures items == old(items) - |lost| && growthLeft == BucketMaskToCapacity(bucketMask) - items
    {
      ghost var kept;
      kept, lost := DropWaiting(contents);
      FinishRehash(kept);
    }

    /** What the guard does when the hasher fails; without a drop function the waiting marks stay. */
    method RehashGuard(needsDrop: bool, ghost contents: multiset<T>) returns (ghost lost: multiset<T>)
      requires Shape() && Rehashing(Tags(), data[..], Width(), hasher, items, contents)
      requires bucketMask > 0 ==> Buckets() <= bucketLimit
      requires items <= BucketMaskToCapacity(bucketMask)
      modifies this`growthLeft, this`items, ctrl
      ensures Shape() && Contents() + lost == contents && |lost| == old(Tombs(Tags()))
      ensures Valid() <==> needsDrop || old(Tombs(Tags())) == 0
      ensures items == old(items) - (if needsDrop then |lost| else 0) && (needsDrop ==> Tombs(Tags()) == 0)
      ensures growthLeft == BucketMaskToCapacity(bucketMask) - items
    {
      if needsDrop {
        lost := GuardDrop(contents);
      } else {
        lost := Waiting(Tags(), data[..], Buckets());
        WaitingSplit(Tags(), data[..], Buckets());
        WaitingSize(Tags(), data[..], Buckets());
        GuardIncomplete(Tags(), data[..], Width(), hasher, items, contents);
        growthLeft := BucketMaskToCapacity(bucketMask) - items;
      }
    }

    /** Places waiting elements until bucket i holds none, or the hasher fails. */
    method RehashBucket(
      i: nat, panicAt: Option<nat>, calls: nat, ghost contents: multiset<T>) returns (ok: bool, calls': nat)
      requires Shape() && i < Buckets() && Rehashing(Tags(), data[..], Width(), hasher, items, contents)
      modifies this`moved, ctrl, data
      ensures Shape() && Rehashing(Tags(), data[..], Width(), hasher, items, contents)
      ensures moved - Fulls(Tags()) == old(moved - Fulls(Tags())) && calls' - calls == moved - old(moved)
      ensures Advanced(old(Tags()), Tags())
      ensures if ok then Tags()[i] != DELETED else panicAt == Some(calls') && Tombs(Tags()) > 0
      ensures panicAt.Some? && calls <= panicAt.value ==> calls' <= panicAt.value
    {
      calls' := calls;
      ghost var r0 := Tags();
      var settled := ctrl[i] != DELETED;
      while !settled
        invariant Shape() && Rehashing(Tags(), data[..], Width(), hasher, items, contents)
        invariant moved - Fulls(Tags()) == old(moved - Fulls(Tags())) && calls' - calls == moved - old(moved)
        invariant panicAt.Some? && calls <= panicAt.value ==> calls' <= panicAt.value
        invariant Advanced(r0, Tags())
        invariant settled <==> Tags()[i] != DELETED
        decreases !settled, Tombs(Tags())
      {
        if panicAt == Some(calls') {
          WaitingCounts(Tags(), i);
          return false, calls';
        }
        calls' := calls' + 1;
        ghost var r := Tags();
        ghost var target;
        settled, target := RehashStep(i, contents);
        AdvancedTwice(r0, r, Tags());
      }
      ok := true;
    }

    /** Moves every element to its best bucket without allocating. The hasher may fail at its panicAt-th call. */
    method RehashInPlace(needsDrop: bool, panicAt: Option<nat>) returns (completed: bool, ghost lost: multiset<T>)
      requires Valid() && bucketMask > 0
      modifies this`growthLeft, this`items, this`moved, ctrl, data
      ensures completed <==> panicAt.None? || old(items) <= panicAt.value
      ensures Valid() <==> needsDrop || panicAt.None? || old(items) <= panicAt.value
      ensures Shape() && Contents() + lost == old(Contents())
      ensures |lost| == if completed then 0 else old(items) - panicAt.value
      ensures moved == old(moved) + old(items) - |lost|
      ensures completed || needsDrop ==> items == old(items) - |lost|
      ensures !completed && !needsDrop ==> items == old(items)
      ensures completed || needsDrop ==> Tombs(Tags()) == 0
      ensures growthLeft == BucketMaskToCapacity(bucketMask) - items
    {
      ghost var contents := StartRehash();
      completed := RehashAll(panicAt, contents);
      if completed {
        FinishRehash(contents);
        lost := multiset{};
      } else {
        lost := RehashGuard(needsDrop, contents);
      }
    }

    /** Every element is waiting; tombstones are gone. */
    method StartRehash() returns (ghost contents: multiset<T>)
      requires Valid()
      modifies ctrl
      ensures Shape() && contents == old(Contents()) && items <= BucketMaskToCapacity(bucketMask)
      ensures Rehashing(Tags(), data[..], Width(), hasher, items, contents) && Fulls(Tags()) == 0
    {
      contents := Contents();
      InvEmpties(Tags(), data[..], Width(), hasher, growthLeft, items);
      PrepareStarts(Tags(), data[..], Width(), hasher);
      ghost var d := data[..];
      PrepareRehashInPlace();
      assert data[..] == d;
    }

    /** Nothing is waiting: the table is at rest again. */
    method FinishRehash(ghost contents: multiset<T>)
      requires Shape() && Rehashing(Tags(), data[..], Width(), hasher, items, contents)
      requires bucketMask > 0 ==> Buckets() <= bucketLimit
      requires SettledBelow(Tags(), Buckets()) && items <= BucketMaskToCapacity(bucketMask)
      modifies this`growthLeft
      ensures Valid() && Contents() == contents && Tombs(Tags()) == 0 && Fulls(Tags()) == items
      ensures growthLeft == BucketMaskToCapacity(bucketMask) - items
    {
      RehashDone(Tags(), data[..], Width(), hasher, items, contents);
      growthLeft := BucketMaskToCapacity(bucketMask) - items;
    }

    /** Settles the buckets one after the other; the hasher is called once for each element settled. */
    method RehashAll(panicAt: Option<nat>, ghost contents: multiset<T>) returns (completed: bool)
      requires Shape() && Rehashing(Tags(), data[..], Width(), hasher, items, contents) && Fulls(Tags()) == 0
      modifies this`moved, ctrl, data
      ensures Shape() && Rehashing(Tags(), data[..], Width(), hasher, items, contents)
      ensures moved == old(moved) + Fulls(Tags())
      ensures completed <==> panicAt.None? || items <= panicAt.value
      ensures completed ==> SettledBelow(Tags(), Buckets())
      ensures !completed ==> Fulls(Tags()) == panicAt.value && Tombs(Tags()) == items - panicAt.value
    {
      var calls, i := 0, 0;
      while i < Buckets()
        invariant 0 <= i <= Buckets() && Shape()
        invariant Rehashing(Tags(), data[..], Width(), hasher, items, contents)
        invariant SettledBelow(Tags(), i)
        invariant Fulls(Tags()) == calls && moved == old(moved) + calls && (panicAt.Some? ==> calls <= panicAt.value)
      {
        var ok: bool;
        ghost var r := Tags();
        ok, calls := RehashBucket(i, panicAt, calls, contents);
        if !ok {
          return false;
        }
        AdvancedSettles(r, Tags(), i);
        i := i + 1;
      }
      NoWaiting(Tags());
      return true;
    }

    // ----- Growing and shrinking

    /** Whether a table for this many elements can be allocated. */
    predicate Allocatable(capacity: nat) {
      Allocates(capacity, bucketLimit)
    }

    /** Adopts element i of the old table during a resize; counters are settled at the end. */
    method Adopt(value: T, ghost r: seq<Tag>, ghost d: seq<T>, ghost at: nat, ghost i: nat)
      requires Shape() && Filling(Tags(), data[..], Width(), hasher, r, d, at)
      requires at <= i < |r| && IsFull(r[i]) && value == d[i] && NoneFull(r, at, i)
      requires Fulls(r) < Buckets()
      modifies this`moved, ctrl, data
      ensures Shape() && Filling(Tags(), data[..], Width(), hasher, r, d, i + 1) && moved == old(moved) + 1
    {
      ghost var q, e := Tags(), data[..];
      FillingRoom(q, e, Width(), hasher, r, d, at, i);
      var index, _ := PrepareInsertSlot(hasher(value));
      data[index] := value;
      moved := moved + 1;
      FillingStep(q, e, Width(), hasher, r, d, at, i, index);
      assert data[..] == e[index := value];
    }

    /** Adopts the next element of the old table, if there is one. */
    method AdoptNext(source: RawTable<T>, iter: RawIter, ghost r: seq<Tag>, ghost d: seq<T>) returns (more: bool)
      requires Shape() && source.Shape() && {ctrl as object, data} !! {source.ctrl as object, source.data}
      requires source.Tags() == r && source.data[..] == d && Fulls(r) < Buckets()
      requires iter.Valid(r) && iter.ctrl == source.ctrl && Filling(Tags(), data[..], Width(), hasher, r, d, iter.at)
      modifies iter, this`moved, ctrl, data
      ensures Shape() && iter.Valid(r) && Filling(Tags(), data[..], Width(), hasher, r, d, iter.at)
      ensures moved + iter.items == old(moved + iter.items) && (more ==> iter.items < old(iter.items))
      ensures !more ==> iter.items == 0 && NoneFull(r, iter.at, |r|)
    {
      ghost var at := iter.at;
      var next := iter.Next(r);
      if next.None? {
        return false;
      }
      assert d[next.value] == source.data[next.value];
      Adopt(source.data[next.value], r, d, at, next.value);
      more := true;
    }

    /** Moves all elements of another table into this empty one, in the order of their buckets. */
    method FillFrom(source: RawTable<T>)
      requires Shape() && source.Valid() && {ctrl as object, data} !! {source.ctrl as object, source.data}
      requires kind == source.kind && hasher == source.hasher && source.items < Buckets()
      requires forall i :: 0 <= i < Buckets() ==> Tags()[i] == EMPTY
      modifies this`moved, ctrl, data
      ensures Shape() && Placed(Tags(), data[..], Width(), hasher) && Contents() == source.Contents()
      ensures Fulls(Tags()) == source.items && Tombs(Tags()) == 0 && moved == old(moved) + source.items
    {
      ghost var r, d := source.Tags(), source.data[..];
      var iter := new RawIter(source.ctrl, Width(), source.items, r);
      FillingStart(Tags(), data[..], Width(), hasher, r, d);
      var more := true;
      while more
        invariant iter.Valid(r) && iter.ctrl == source.ctrl
        invariant Shape() && Filling(Tags(), data[..], Width(), hasher, r, d, iter.at)
        invariant moved + iter.items == old(moved) + source.items
        invariant !more ==> iter.items == 0 && NoneFull(r, iter.at, |r|)
        decreases more, iter.items
      {
        more := AdoptNext(source, iter, r, d);
      }
      FillingDone(Tags(), data[..], Width(), hasher, r, d, iter.at);
    }

    /** Fills this new table with the elements of another one and settles the counters. */
    method Absorb(source: RawTable<T>)
      requires Valid() && source.Valid() && {ctrl as object, data} !! {source.ctrl as object, source.data}
      requires this != source && kind == source.kind && hasher == source.hasher && source.items < Buckets()
      requires forall i :: 0 <= i < Buckets() ==> Tags()[i] == EMPTY
      requires growthLeft == BucketMaskToCapacity(bucketMask) >= source.items && moved == 0
      modifies this`growthLeft, this`items, this`moved, ctrl, data
      ensures Valid() && Contents() == source.Contents() && Tombs(Tags()) == 0 && items == source.items
      ensures growthLeft == BucketMaskToCapacity(bucketMask) - items && moved == items
    {
      FillFrom(source);
      SettleCounts(source.items);
    }

    /** The counters of a new table that has just been filled. */
    method SettleCounts(stored: nat)
      requires Shape() && (bucketMask > 0 ==> Buckets() <= bucketLimit)
      requires Placed(Tags(), data[..], Width(), hasher) && Fulls(Tags()) == stored && Tombs(Tags()) == 0
      requires growthLeft == BucketMaskToCapacity(bucketMask) >= stored
      modifies this`growthLeft, this`items
      ensures Valid() && items == stored && growthLeft == BucketMaskToCapacity(bucketMask) - items
    {
      growthLeft := growthLeft - stored;
      items := stored;
    }

    /** Replaces this table by a finished new one. */
    method TakeOver(table: RawTable<T>)
      requires table.Valid() && kind == table.kind && hasher == table.hasher && bucketLimit == table.bucketLimit
      modifies this
      ensures Valid() && ctrl == table.ctrl && data == table.data
      ensures bucketMask == table.bucketMask && growthLeft == table.growthLeft && items == table.items
      ensures Tags() == old(table.Tags()) && Contents() == old(table.Contents())
      ensures moved == old(moved) + old(table.moved)
    {
      ctrl, data, bucketMask := table.ctrl, table.data, table.bucketMask;
      growthLeft, items, moved := table.growthLeft, table.items, moved + table.moved;
    }

    /** Moves all elements to a new table; fails, changing nothing, if that table cannot be allocated. */
    method ResizeInner(capacity: nat) returns (result: Outcome)
      requires Valid() && 0 < capacity && items <= capacity
      modifies this
      ensures Valid() && (result.Done? <==> Allocatable(capacity))
      ensures result.CapacityOverflow? ==> unchanged(this)
      ensures result.Done? ==> fresh(ctrl) && fresh(data)
      ensures result.Done? ==> Buckets() == CapacityToBuckets(capacity).value
      ensures result.Done? ==> Contents() == old(Contents()) && items == old(items) && Tombs(Tags()) == 0
      ensures result.Done? ==> growthLeft == BucketMaskToCapacity(bucketMask) - items
      ensures result.Done? ==> moved == old(moved) + items
      ensures result.Done? && old(Full()) && capacity > BucketMaskToCapacity(old(bucketMask)) ==>
        Spent() <= old(Spent())
    {
      var buckets := CapacityToBuckets(capacity);
      if buckets.None? || buckets.value > bucketLimit {
        return CapacityOverflow;
      }
      BucketsSuffice(capacity);
      ResizeTo(buckets.value);
      result := Done;
    }

    method ResizeTo(buckets: nat)
      requires Valid() && IsPow2(buckets) && buckets <= bucketLimit && items <= BucketMaskToCapacity(buckets - 1)
      modifies this
      ensures Valid() && fresh(ctrl) && fresh(data) && Buckets() == buckets
      ensures Contents() == old(Contents()) && items == old(items) && Tombs(Tags()) == 0
      ensures growthLeft == BucketMaskToCapacity(bucketMask) - items && moved == old(moved) + items
      ensures old(Full()) && BucketMaskToCapacity(old(bucketMask)) < BucketMaskToCapacity(bucketMask) ==>
        Spent() <= old(Spent())
    {
      ghost var n := Buckets();
      var table := Rebuilt(buckets);
      TakeOver(table);
      if items <= BucketMaskToCapacity(n - 1) < BucketMaskToCapacity(buckets - 1) {
        ResizePays(n, buckets, items);
      }
    }

    /** No spare EMPTY is left, so that what has been saved up may be spent. */
    ghost predicate Full()
      reads this
    {
      growthLeft == 0 && items <= BucketMaskToCapacity(bucketMask)
    }

    /** A new table of the given size with all elements of this one. */
    method Rebuilt(buckets: nat) returns (table: RawTable<T>)
      requires Valid() && IsPow2(buckets) && buckets <= bucketLimit && items <= BucketMaskToCapacity(buckets - 1)
      ensures table.Valid() && kind == table.kind && hasher == table.hasher && bucketLimit == table.bucketLimit
      ensures fresh(table) && fresh(table.ctrl) && fresh(table.data) && table.Buckets() == buckets
      ensures table.Contents() == Contents() && table.items == items && Tombs(table.Tags()) == 0
      ensures table.growthLeft == BucketMaskToCapacity(buckets - 1) - items && table.moved == items
    {
      CapacityBounds(buckets);
      table := new RawTable(kind, hasher, bucketLimit, buckets);
      table.Absorb(this);
    }

    /** The capacity a full table of this size is resized for. */
    function ResizeTarget(newItems: nat): nat
      reads this
    {
      GrowthCapacity(Buckets(), newItems)
    }

    /** Whether room for `additional` more elements can be made. */
    predicate Reservable(additional: nat)
      reads this
    {
      && items + additional <= USIZE_MAX
      && (items + additional <= BucketMaskToCapacity(bucketMask) / 2 || Allocatable(ResizeTarget(items + additional)))
    }

    /**
     * Room can be made exactly when the elements fit in half the capacity, or a larger table for
     * them can be computed without overflow and is allowed.
     */
    lemma ReservableExact(additional: nat)
      requires Valid()
      ensures Reservable(additional) <==>
        var need := items + additional;
        && need <= USIZE_MAX
        && (need <= BucketMaskToCapacity(bucketMask) / 2 ||
            (need * 8 <= USIZE_MAX && (BucketMaskToCapacity(bucketMask) + 1) * 8 <= USIZE_MAX &&
             exists p: nat :: Enough(p, Buckets(), need) && p <= bucketLimit))
    {
      GrowthExact(Buckets(), items + additional, bucketLimit);
    }

    /** Makes room by clearing out tombstones if that gains enough, and by growing otherwise. */
    method ReserveRehash(additional: nat) returns (result: Outcome)
      requires Valid() && additional > growthLeft
      modifies this, ctrl, data
      ensures Valid() && (result.Done? <==> old(Reservable(additional)))
      ensures (ctrl == old(ctrl) || fresh(ctrl)) && (data == old(data) || fresh(data))
      ensures Contents() == old(Contents()) && items == old(items)
      ensures result.CapacityOverflow? ==> unchanged(this) && unchanged(ctrl) && unchanged(data)
      ensures result.Done? ==> growthLeft >= additional && Tombs(Tags()) == 0
      ensures result.Done? ==> RoomMade(Buckets(), old(Buckets()), old(items) + additional)
      ensures additional == 1 ==> Spent() <= old(Spent())
    {
      if items + additional > USIZE_MAX {
        return CapacityOverflow;
      }
      result := RehashOrGrow(items + additional);
    }

    /** Chooses between the two: up to half the capacity a rehash gains enough. */
    method RehashOrGrow(newItems: nat) returns (result: Outcome)
      requires Valid() && items + growthLeft < newItems
      modifies this, ctrl, data
      ensures Valid() && (ctrl == old(ctrl) || fresh(ctrl)) && (data == old(data) || fresh(data))
      ensures result.Done? <==>
        newItems <= BucketMaskToCapacity(old(bucketMask)) / 2 || old(Allocatable(ResizeTarget(newItems)))
      ensures Contents() == old(Contents()) && items == old(items)
      ensures result.CapacityOverflow? ==> unchanged(this) && unchanged(ctrl) && unchanged(data)
      ensures result.Done? ==> items + growthLeft >= newItems && Tombs(Tags()) == 0
      ensures result.Done? ==> RoomMade(Buckets(), old(Buckets()), newItems)
      ensures newItems == old(items) + 1 ==> Spent() <= old(Spent())
    {
      var fullCapacity := BucketMaskToCapacity(bucketMask);
      if newItems <= fullCapacity / 2 {
        ClearOutTombstones();
        result := Done;
      } else {
        result := Grow(newItems);
      }
    }

    /** Rehashes in place with a hasher that does not fail; in a table at most half full this pays for itself. */
    method ClearOutTombstones()
      requires Valid() && bucketMask > 0
      modifies this`growthLeft, this`items, this`moved, ctrl, data
      ensures Valid() && Contents() == old(Contents()) && items == old(items) && Tombs(Tags()) == 0
      ensures growthLeft == BucketMaskToCapacity(bucketMask) - items
      ensures old(growthLeft) == 0 && items + 1 <= BucketMaskToCapacity(bucketMask) / 2 ==> Spent() <= old(Spent())
    {
      if items + 1 <= BucketMaskToCapacity(bucketMask) / 2 {
        RehashPays(Buckets(), items);
      }
      var _, _ := RehashInPlace(true, None);
    }

    /** Grows the table to the next size up that holds enough. */
    method Grow(newItems: nat) returns (result: Outcome)
      requires Valid() && items + growthLeft < newItems && newItems > BucketMaskToCapacity(bucketMask) / 2
      modifies this
      ensures Valid() && (result.Done? <==> old(Allocatable(ResizeTarget(newItems))))
      ensures result.CapacityOverflow? ==> unchanged(this)
      ensures result.Done? ==> fresh(ctrl) && fresh(data)
      ensures Contents() == old(Contents()) && items == old(items)
      ensures result.Done? ==> RoomMade(Buckets(), old(Buckets()), newItems)
      ensures result.Done? ==> growthLeft + items >= newItems && Tombs(Tags()) == 0
      ensures newItems == old(items) + 1 ==> Spent() <= old(Spent())
    {
      var target := ResizeTarget(newItems);
      ghost var n := Buckets();
      GrowthLeast(n, newItems);
      result := ResizeInner(target);
    }

    /** Ensures that `additional` elements can be inserted without reallocation. */
    method Reserve(additional: nat) returns (result: Outcome)
      requires Valid()
      modifies this, ctrl, data
      ensures Valid() && (result.Done? <==> additional <= old(growthLeft) || old(Reservable(additional)))
      ensures (ctrl == old(ctrl) || fresh(ctrl)) && (data == old(data) || fresh(data))
      ensures Contents() == old(Contents()) && items == old(items)
      ensures additional <= old(growthLeft) || result.CapacityOverflow? ==>
        unchanged(this) && unchanged(ctrl) && unchanged(data)
      ensures result.Done? ==> growthLeft >= additional
      ensures result.Done? && additional > old(growthLeft) ==> Tombs(Tags()) == 0
      ensures result.Done? && additional > old(growthLeft) ==>
        RoomMade(Buckets(), old(Buckets()), old(items) + additional)
      ensures additional == 1 ==> Spent() <= old(Spent())
    {
      if additional > growthLeft {
        result := ReserveRehash(additional);
      } else {
        result := Done;
      }
    }

    // ----- The public operations

    /** Placements made so far, plus the credit the table holds for the next reallocation. */
    ghost function Spent(): nat
      reads this
    {
      moved + Potential(Buckets(), growthLeft)
    }

    /** Finds a stored element equal to the one sought, or proves that none is stored. */
    method Find(hash: Hash, eq: T -> bool) returns (found: Option<nat>)
      requires Valid() && AgreesOn(Contents(), hasher, hash, eq)
      ensures found.Some? ==> Hit(Tags(), data[..], eq, found.value) && data[found.value] in Contents()
      ensures found.None? ==> NoMatch(Contents(), eq)
    {
      AgreesOnAll(Tags(), data[..], hasher, hash, eq);
      found := FindInner(hash, eq);
      if found.Some? {
        ElemsHas(Tags(), data[..], false, found.value);
      } else {
        AbsentNoMatch(Tags(), data[..], eq);
      }
    }

    /** Finds and removes an element equal to the one sought; `index` is its bucket. */
    method RemoveEntry(hash: Hash, eq: T -> bool) returns (removed: Option<T>, ghost index: nat)
      requires Valid() && AgreesOn(Contents(), hasher, hash, eq)
      modifies this`growthLeft, this`items, ctrl
      ensures Valid() && Spent() <= old(Spent())
      ensures removed.Some? ==> eq(removed.value) && old(Contents()) == Contents() + multiset{removed.value}
      ensures removed.Some? ==> old(Hit(Tags(), data[..], eq, index)) && removed.value == data[index]
      ensures removed.Some? ==>
        Tags() == old(Tags())[index := if old(PassedOver(Tags(), Width(), index)) then DELETED else EMPTY]
      ensures removed.Some? ==> items == old(items) - 1
      ensures removed.Some? ==> growthLeft == old(growthLeft) + (if Tags()[index] == EMPTY then 1 else 0)
      ensures removed.None? ==> old(NoMatch(Contents(), eq)) && unchanged(this) && unchanged(ctrl)
    {
      var found := Find(hash, eq);
      index := 0;
      match found {
        case Some(i) =>
          index := i;
          var value, _ := Remove(i);
          removed := Some(value);
        case None =>
          removed := None;
      }
    }

    /** Inserts a new element without looking for an equal one. No room is made if a spare EMPTY is left or the first
        free bucket for the hash is a tombstone. */
    method Insert(hash: Hash, value: T) returns (result: Outcome, slot: nat, ghost ready: bool)
      requires Valid() && hash == hasher(value)
      modifies this, ctrl, data
      ensures Valid() && (ctrl == old(ctrl) || fresh(ctrl)) && (data == old(data) || fresh(data))
      ensures ready <==> old(growthLeft > 0 || FillsTombstone(Tags(), Width(), hash))
      ensures result.Done? <==> ready || old(Reservable(1))
      ensures result.Done? ==> Contents() == old(Contents()) + multiset{value} && items == old(items) + 1
      ensures result.Done? ==> slot < Buckets() && IsFull(Tags()[slot]) && data[slot] == value
      ensures result.CapacityOverflow? ==> unchanged(this) && unchanged(ctrl) && unchanged(data)
      ensures
        var n, need := old(Buckets()), old(items) + 1;
        result.Done? && !ready ==>
          if need <= BucketMaskToCapacity(n - 1) / 2 then Buckets() == n
          else Enough(Buckets(), n, need) && forall p: nat :: Enough(p, n, need) ==> Buckets() <= p
      ensures ready ==>
        ctrl == old(ctrl) && data == old(data) && bucketMask == old(bucketMask) && slot < old(Buckets()) &&
        FirstFree(old(Tags()), Width(), hash, slot) && Tags() == old(Tags())[slot := FullTag(hash)] &&
        data[..] == old(data[..])[slot := value]
      ensures Spent() <= old(Spent()) + if result.Done? then 2 else 0
    {
      ghost var r, d := Tags(), data[..];
      result, slot, ready := SlotForInsert(hash);
      assert ready ==> Tags() == r && data[..] == d;
      if result.Done? {
        InsertInSlot(hash, slot, value);
      }
    }

    /** A free bucket for the hash, after making room if filling the first one found would use a spare EMPTY. */
    method SlotForInsert(hash: Hash) returns (result: Outcome, slot: nat, ghost ready: bool)
      requires Valid()
      modifies this, ctrl, data
      ensures Valid() && (ctrl == old(ctrl) || fresh(ctrl)) && (data == old(data) || fresh(data))
      ensures Contents() == old(Contents()) && items == old(items) && Spent() <= old(Spent())
      ensures ready <==> old(growthLeft > 0 || FillsTombstone(Tags(), Width(), hash))
      ensures result.Done? <==> ready || old(Reservable(1))
      ensures result.Done? ==> slot < Buckets() && !IsFull(Tags()[slot]) && Reach(Tags(), Width(), hash, slot)
      ensures result.Done? ==> Tags()[slot] == EMPTY ==> growthLeft > 0
      ensures ready ==> slot < old(Buckets()) && FirstFree(old(Tags()), Width(), hash, slot)
      ensures ready ==> Tags() == old(Tags()) && data[..] == old(data[..])
      ensures result.CapacityOverflow? || ready ==> unchanged(this) && unchanged(ctrl) && unchanged(data)
      ensures
        var n, need := old(Buckets()), old(items) + 1;
        result.Done? && !ready ==>
          if need <= BucketMaskToCapacity(n - 1) / 2 then Buckets() == n
          else Enough(Buckets(), n, need) && forall p: nat :: Enough(p, n, need) ==> Buckets() <= p
    {
      var spent: bool;
      slot, spent := SlotOrSpent(hash);
      ready := !spent;
      if spent {
        result, slot := ReserveSlot(hash);
      } else {
        result := Done;
      }
    }

    /** The first free bucket for the hash, and whether filling it would use an EMPTY that cannot be spared. */
    method SlotOrSpent(hash: Hash) returns (slot: nat, spent: bool)
      requires Valid()
      ensures spent <==> !(growthLeft > 0 || FillsTombstone(Tags(), Width(), hash))
      ensures spent ==> growthLeft == 0
      ensures !spent ==> slot < Buckets() && !IsFull(Tags()[slot]) && (Tags()[slot] == EMPTY ==> growthLeft > 0)
      ensures !spent ==> Reach(Tags(), Width(), hash, slot) && FirstFree(Tags(), Width(), hash, slot)
    {
      slot := FreeSlot(hash);
      FirstFreeDecides(Tags(), Width(), hash, slot);
      var oldCtrl := ctrl[slot];
      spent := growthLeft == 0 && SpecialIsEmpty(oldCtrl);
    }

    /** Makes room for one more element and looks for a free bucket again. */
    method ReserveSlot(hash: Hash) returns (result: Outcome, slot: nat)
      requires Valid() && growthLeft == 0
      modifies this, ctrl, data
      ensures Valid() && (ctrl == old(ctrl) || fresh(ctrl)) && (data == old(data) || fresh(data))
      ensures Contents() == old(Contents()) && items == old(items) && Spent() <= old(Spent())
      ensures result.Done? <==> old(Reservable(1))
      ensures result.CapacityOverflow? ==> unchanged(this) && unchanged(ctrl) && unchanged(data)
      ensures result.Done? ==> growthLeft > 0 && RoomMade(Buckets(), old(Buckets()), old(items) + 1)
      ensures result.Done? ==> slot < Buckets() && !IsFull(Tags()[slot]) && Reach(Tags(), Width(), hash, slot)
    {
      slot := 0;
      result := Reserve(1);
      if result.Done? {
        slot := FreeSlot(hash);
      }
    }

    /** A table at rest always has a free bucket on every search path. */
    method FreeSlot(hash: Hash) returns (slot: nat)
      requires Valid()
      ensures slot < Buckets() && !IsFull(Tags()[slot]) && Reach(Tags(), Width(), hash, slot)
      ensures FirstFree(Tags(), Width(), hash, slot)
    {
      ghost var e := InvHasEmpty(Tags(), data[..], Width(), hasher, growthLeft, items);
      slot := FindInsertSlot(hash);
      DenseReach(Tags(), Width(), hash, slot);
    }

    /** Finds a stored element equal to the one sought, or the bucket for it, after making room for one more. */
    method FindOrFindInsertSlot(hash: Hash, eq: T -> bool) returns (result: Outcome, found: bool, index: nat)
      requires Valid() && AgreesOn(Contents(), hasher, hash, eq)
      modifies this, ctrl, data
      ensures Valid() && (ctrl == old(ctrl) || fresh(ctrl)) && (data == old(data) || fresh(data))
      ensures Contents() == old(Contents()) && items == old(items)
      ensures result.Done? <==> old(growthLeft >= 1 || Reservable(1))
      ensures result.CapacityOverflow? ==> unchanged(this) && unchanged(ctrl) && unchanged(data)
      ensures result.Done? && found ==> Hit(Tags(), data[..], eq, index) && data[index] in Contents()
      ensures result.Done? && !found ==> index < Buckets() && !IsFull(Tags()[index]) && growthLeft > 0
      ensures result.Done? && !found ==> Reach(Tags(), Width(), hash, index) && NoMatch(Contents(), eq)
      ensures result.Done? && !found ==> FirstFree(Tags(), Width(), hash, index)
      ensures Spent() <= old(Spent())
    {
      result := Reserve(1);
      if result.CapacityOverflow? {
        return result, false, 0;
      }
      AgreesOnAll(Tags(), data[..], hasher, hash, eq);
      found, index := FindOrFindInsertSlotInner(hash, eq);
      if found {
        ElemsHas(Tags(), data[..], false, index);
      } else {
        DenseReach(Tags(), Width(), hash, index);
        AbsentNoMatch(Tags(), data[..], eq);
      }
    }

    /** Removes all elements; a table that has none already is left alone, tombstones included. */
    method Clear()
      requires Valid()
      modifies this`growthLeft, this`items, ctrl
      ensures Valid() && Contents() == multiset{} && items == 0 && Spent() <= old(Spent())
      ensures growthLeft == BucketMaskToCapacity(bucketMask) <==> old(items) > 0 || old(Tombs(Tags())) == 0
      ensures old(items) == 0 ==> growthLeft == old(growthLeft) && ctrl[..] == old(ctrl[..])
    {
      InvEmpties(Tags(), data[..], Width(), hasher, growthLeft, items);
      if items == 0 {
        return;
      }
      forall i | 0 <= i < ctrl.Length {
        ctrl[i] := EMPTY;
      }
      items := 0;
      growthLeft := BucketMaskToCapacity(bucketMask);
      EmptyControl(ctrl[..], Buckets(), Width());
      EmptyInv(Tags(), data[..], Width(), hasher);
    }

    /** Shrinks the table as far as max(items, minSize) elements allow. */
    method ShrinkTo(minSize: nat)
      requires Valid()
      modifies this
      ensures Valid() && (ctrl == old(ctrl) || fresh(ctrl)) && (data == old(data) || fresh(data))
      ensures Contents() == old(Contents()) && items == old(items) && Buckets() <= old(Buckets())
      ensures unchanged(this) ||
        (items + growthLeft >= minSize && growthLeft == BucketMaskToCapacity(bucketMask) - items)
      ensures Shrunk(Buckets(), old(Buckets()), if old(items) < minSize then minSize else old(items))
      ensures Buckets() == old(Buckets()) && (old(items) > 0 || minSize > 0) ==> unchanged(this)
    {
      var least := if items < minSize then minSize else items;
      if least == 0 {
        StartOver(1);
        return;
      }
      ShrinkLeast(least);
      var minBuckets := CapacityToBuckets(least);
      if minBuckets.None? || minBuckets.value >= Buckets() {
        return;
      }
      if items == 0 {
        StartOver(minBuckets.value);
      } else {
        var _ := ResizeInner(least);
      }
    }

    /** Replaces a table without elements by a new one. */
    method StartOver(buckets: nat)
      requires Valid() && items == 0 && IsPow2(buckets) && (buckets == 1 || buckets <= bucketLimit)
      modifies this
      ensures Valid() && fresh(ctrl) && fresh(data) && Buckets() == buckets
      ensures Contents() == old(Contents()) && items == 0 && growthLeft == BucketMaskToCapacity(bucketMask)
    {
      ghost var r, d := Tags(), data[..];
      FullsCount(r);
      ElemsToSize(r, d, |r|);
      var table := new RawTable(kind, hasher, bucketLimit, buckets);
      TakeOver(table);
    }

    // ----- Cloning

    /** Copies the control bytes, then the elements in ascending order. Cloning an element may fail at the
        panicAt-th one; the guard then drops exactly the elements cloned so far. */
    method CloneFromImpl(
      source: RawTable<T>, panicAt: Option<nat>) returns (completed: bool, ghost dropped: multiset<T>)
      requires source.Valid() && {ctrl as object, data} !! {source.ctrl as object, source.data}
      requires ctrl as object != data && kind == source.kind && hasher == source.hasher
      requires bucketMask == source.bucketMask && bucketLimit == source.bucketLimit
      requires ctrl.Length == source.ctrl.Length && data.Length == source.data.Length
      modifies this`growthLeft, this`items, ctrl, data
      ensures completed <==> panicAt.None? || source.items <= panicAt.value
      ensures completed ==> Valid() && Contents() == source.Contents() && items == source.items
      ensures completed ==> Tags() == source.Tags() && growthLeft == source.growthLeft
      ensures !completed ==> items == old(items) && growthLeft == old(growthLeft)
      ensures !completed ==> ClonedPrefix(dropped, source.Tags(), source.data[..], panicAt.value)
    {
      forall j | 0 <= j < ctrl.Length {
        ctrl[j] := source.ctrl[j];
      }
      assert ctrl[..] == source.ctrl[..];
      assert ctrl[..Buckets()] == source.Tags();
      var iter := new RawIter(source.ctrl, Width(), source.items, source.Tags());
      completed, dropped := CloneElements(source, iter, panicAt, source.Tags(), source.data[..]);
      if completed {
        FinishClone(source);
      }
    }

    method FinishClone(source: RawTable<T>)
      requires source.Valid() && Shape() && Tags() == source.Tags() && this != source
      requires kind == source.kind && hasher == source.hasher && bucketLimit == source.bucketLimit
      requires Copied(Tags(), source.data[..], data[..], Buckets())
      modifies this`growthLeft, this`items
      ensures Valid() && Contents() == source.Contents()
      ensures items == source.items && growthLeft == source.growthLeft
    {
      ClonedInv(Tags(), source.data[..], data[..], Width(), hasher, source.growthLeft, source.items);
      items := source.items;
      growthLeft := source.growthLeft;
    }

    /** Clones the elements in ascending order; a failing clone drops those made so far, and only those. */
    method CloneElements(source: RawTable<T>, iter: RawIter, panicAt: Option<nat>, ghost r: seq<Tag>, ghost d: seq<T>)
      returns (completed: bool, ghost dropped: multiset<T>)
      requires iter.Valid(r) && iter.at == 0 && source.data[..] == d && data != source.data
      requires |r| == |d| == data.Length <= ctrl.Length && ctrl[..|r|] == r
      requires ctrl as object != data && data as object != iter.ctrl
      modifies iter, data
      ensures completed <==> panicAt.None? || old(iter.items) <= panicAt.value
      ensures completed ==> Copied(r, d, data[..], |r|)
      ensures !completed ==> ClonedPrefix(dropped, r, d, panicAt.value)
    {
      var index, cloned := 0, 0;
      while iter.items > 0
        invariant iter.Valid(r) && index == iter.at
        invariant cloned + iter.items == old(iter.items) && (panicAt.Some? ==> cloned <= panicAt.value)
        invariant cloned == |ElemsTo(r, d, false, index)| && Copied(r, d, data[..], index)
        decreases iter.items
      {
        if panicAt == Some(cloned) {
          dropped := DropCloned(index, r, d);
          return false, dropped;
        }
        index := CloneNext(source, iter, r, d);
        cloned := cloned + 1;
      }
      FullsFromNone(r, index);
      CopiedAll(r, d, data[..], index);
      completed, dropped := true, multiset{};
    }

    method CloneNext(source: RawTable<T>, iter: RawIter, ghost r: seq<Tag>, ghost d: seq<T>) returns (index: nat)
      requires iter.Valid(r) && iter.items > 0 && source.data[..] == d && data != source.data
      requires |r| == |d| == data.Length && data as object != iter.ctrl && Copied(r, d, data[..], iter.at)
      modifies iter, data
      ensures iter.Valid(r) && index == iter.at && iter.items == old(iter.items) - 1
      ensures Copied(r, d, data[..], index)
      ensures |ElemsTo(r, d, false, index)| == old(|ElemsTo(r, d, false, iter.at)|) + 1
    {
      ghost var at := iter.at;
      var next := iter.Next(r);
      CopyBucket(source, r, d, at, next.value);
      index := next.value + 1;
    }

    /** Clones the element of bucket i, the first full one from `index` on. */
    method CopyBucket(source: RawTable<T>, ghost r: seq<Tag>, ghost d: seq<T>, ghost index: nat, i: nat)
      requires |r| == |d| == data.Length && source.data[..] == d && data != source.data
      requires index <= i < |r| && IsFull(r[i]) && NoneFull(r, index, i)
      requires Copied(r, d, data[..], index)
      modifies data
      ensures Copied(r, d, data[..], i + 1) && |ElemsTo(r, d, false, i + 1)| == |ElemsTo(r, d, false, index)| + 1
    {
      CopiedStep(r, d, data[..], index, i);
      ghost var e := data[..];
      data[i] := source.data[i];
      assert data[..] == e[i := d[i]];
    }

    /** Drops what the full buckets below `index` hold. */
    method DropCloned(index: nat, ghost r: seq<Tag>, ghost d: seq<T>) returns (ghost dropped: multiset<T>)
      requires |r| == |d| == data.Length && index <= |r| <= ctrl.Length && ctrl[..|r|] == r
      requires Copied(r, d, data[..], index)
      ensures dropped == ElemsTo(r, d, false, index)
    {
      dropped := multiset{};
      var i := 0;
      while i < index
        invariant 0 <= i <= index && dropped == ElemsTo(r, d, false, i)
      {
        CopiedNext(r, d, data[..], index, i);
        assert ctrl[i] == ctrl[..|r|][i];
        if IsFull(ctrl[i]) {
          dropped := dropped + multiset{data[i]};
        }
        i := i + 1;
      }
    }
  }
}
