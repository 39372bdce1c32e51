/** The hash map: a table of key-value pairs, refining a mathematical map. */
module HashMap {
  import opened Capacity
  import opened Group
  import opened MapSpec
  import opened RawIteration
  import opened RawTable
  import opened SearchSpec
  import opened TableSpec
  import opened Wrappers

  class HashMap<K(==, 0, !new), V(==, 0, !new)> {
    const hash: K -> Hash
    const table: RawTable<(K, V)>
    /** The map this object stands for. */
    ghost var model: map<K, V>

    ghost predicate Valid()
      reads this, table, table.ctrl, table.data
    {
      && table.Valid()
      && (forall kv: (K, V) :: table.hasher(kv) == hash(kv.0))
      && Represents(table.Contents(), model)
    }

    /** A search for a key stops at the entry with this key, whose hash is the key's. */
    lemma KeyAgrees(k: K)
      requires Valid()
      ensures AgreesOn(table.Contents(), table.hasher, hash(k), (kv: (K, V)) => kv.0 == k)
    {
    }

    constructor (kind: GroupKind, hash: K -> Hash, bucketLimit: nat)
      ensures Valid() && model == map[] && fresh(table) && fresh(table.ctrl) && fresh(table.data)
      ensures this.hash == hash && table.kind == kind && table.bucketLimit == bucketLimit
      ensures table.Buckets() == 1 && table.items == 0 && table.growthLeft == 0
      ensures table.moved == 0 && Potential(table.Buckets(), table.growthLeft) == 0
    {
      this.hash := hash;
      table := new RawTable<(K, V)>(kind, (kv: (K, V)) => hash(kv.0), bucketLimit, 1);
      model := map[];
    }

    /** The counter of elements is the size of the map. */
    lemma ItemsCount()
      requires Valid()
      ensures table.items == |model|
    {
      RepresentsSize(table.Contents(), model);
      InvEmpties(table.Tags(), table.data[..], table.Width(), table.hasher, table.growthLeft, table.items);
    }

    method Len() returns (n: nat)
      requires Valid()
      ensures n == |model|
    {
      RepresentsSize(table.Contents(), model);
      InvEmpties(table.Tags(), table.data[..], table.Width(), table.hasher, table.growthLeft, table.items);
      n := table.items;
    }

    method Get(k: K) returns (v: Option<V>)
      requires Valid()
      ensures v == if k in model then Some(model[k]) else None
    {
      if table.items == 0 {
        RepresentsSize(table.Contents(), model);
        InvEmpties(table.Tags(), table.data[..], table.Width(), table.hasher, table.growthLeft, table.items);
        return None;
      }
      KeyAgrees(k);
      var found := table.Find(hash(k), (kv: (K, V)) => kv.0 == k);
      match found {
        case Some(index) =>
          v := Some(table.data[index].1);
          assert table.Contents()[(k, v.value)] >= 1;
        case None =>
          RepresentsKey(table.Contents(), model, k);
          v := None;
      }
    }

    /** The entry for k sits in bucket i. */
    ghost predicate OccupiedAt(i: nat, k: K)
      requires table.Shape()
      reads this, table, table.ctrl, table.data
    {
      i < table.Buckets() && IsFull(table.Tags()[i]) && table.data[i].0 == k
    }

    /** A stored entry is an entry of the map. */
    lemma EntryIn(i: nat)
      requires Valid() && i < table.Buckets() && IsFull(table.Tags()[i])
      ensures table.data[i] in table.Contents()
      ensures table.data[i].0 in model && model[table.data[i].0] == table.data[i].1
    {
      ElemsHas(table.Tags(), table.data[..], false, i);
      assert table.Contents()[table.data[i]] >= 1;
    }

    /** Associates v with k, growing the table if need be; an overflow (a panic) leaves the map as it was. */
    method Insert(k: K, v: V) returns (result: Outcome, previous: Option<V>)
      requires Valid()
      modifies this`model, table, table.ctrl, table.data
      ensures Valid() && (table.ctrl == old(table.ctrl) || fresh(table.ctrl))
      ensures table.data == old(table.data) || fresh(table.data)
      ensures result.Done? ==> previous == (if k in old(model) then Some(old(model)[k]) else None)
      ensures result.Done? ==> model == old(model)[k := v]
      ensures result.CapacityOverflow? ==> model == old(model) && table.growthLeft == 0 && !table.Reservable(1)
      ensures result.Done? <==> old(table.growthLeft >= 1 || table.Reservable(1))
      ensures table.Spent() <= old(table.Spent()) + 2 * (|model| - |old(model)|)
    {
      var found, index;
      result, found, index := FindOrFindSlot(k);
      previous := None;
      if result.Done? {
        previous := Store(found, index, k, v);
      }
    }

    /** Overwrites the entry found for k, or stores a new one in the free bucket found. */
    method Store(found: bool, index: nat, k: K, v: V) returns (previous: Option<V>)
      requires Valid() && found == (k in model) && (found ==> OccupiedAt(index, k))
      requires !found ==> CanStore(index, k)
      modifies this`model, table`growthLeft, table`items, table.ctrl, table.data
      ensures Valid() && previous == Lookup(old(model), k) && model == old(model)[k := v]
      ensures table.Spent() <= old(table.Spent()) + 2 * (|model| - |old(model)|)
    {
      if found {
        var value := Overwrite(index, k, v);
        previous := Some(value);
      } else {
        InsertNew(index, k, v);
        previous := None;
      }
    }

    /** The bucket is free and a new entry for k can be found there. */
    ghost predicate CanStore(slot: nat, k: K)
      requires table.Shape()
      reads this, table, table.ctrl
    {
      && slot < table.Buckets() && !IsFull(table.Tags()[slot]) && Reach(table.Tags(), table.Width(), hash(k), slot)
      && (table.Tags()[slot] == EMPTY ==> table.growthLeft > 0)
    }

    /** Finds the entry for k or, after making room, the free bucket for a new one. */
    method FindOrFindSlot(k: K) returns (result: Outcome, found: bool, index: nat)
      requires Valid()
      modifies table, table.ctrl, table.data
      ensures Valid() && (table.ctrl == old(table.ctrl) || fresh(table.ctrl))
      ensures table.data == old(table.data) || fresh(table.data)
      ensures result.CapacityOverflow? ==> table.growthLeft == 0 && !table.Reservable(1)
      ensures result.Done? <==> old(table.growthLeft >= 1 || table.Reservable(1))
      ensures table.Spent() <= old(table.Spent())
      ensures result.Done? ==> found == (k in model)
      ensures result.Done? && found ==> OccupiedAt(index, k)
      ensures result.Done? && !found ==> CanStore(index, k)
    {
      KeyAgrees(k);
      result, found, index := table.FindOrFindInsertSlot(hash(k), (kv: (K, V)) => kv.0 == k);
      if result.Done? && found {
        EntryIn(index);
      } else if result.Done? {
        RepresentsKey(table.Contents(), model, k);
      }
    }

    /** Stores a new entry in the free bucket found for it. */
    method InsertNew(slot: nat, k: K, v: V)
      requires Valid() && k !in model && CanStore(slot, k)
      modifies this`model, table`growthLeft, table`items, table.ctrl, table.data
      ensures Valid() && model == old(model)[k := v] && table.Spent() <= old(table.Spent()) + 2
    {
      RepresentsInsert(table.Contents(), model, k, v);
      table.InsertInSlot(hash(k), slot, (k, v));
      model := model[k := v];
    }

    /** Replaces the value of a stored entry in place; the stored key stays. */
    method Overwrite(index: nat, ghost k: K, v: V) returns (previous: V)
      requires Valid() && OccupiedAt(index, k)
      modifies this`model, table.data
      ensures Valid() && k in old(model) && previous == old(model)[k] && model == old(model)[k := v]
      ensures table.data[..] == old(table.data[..])[index := (k, v)]
    {
      EntryIn(index);
      var entry := table.data[index];
      ghost var before := table.Contents();
      previous := entry.1;
      table.WriteBucket(index, (entry.0, v));
      RepresentsReplace(before, model, entry.0, entry.1, v, table.Contents());
      model := model[k := v];
    }

    /** Removes the entry for k and returns it. */
    method RemoveEntry(k: K) returns (removed: Option<(K, V)>)
      requires Valid()
      modifies this`model, table`growthLeft, table`items, table.ctrl
      ensures Valid()
      ensures model == old(model) - {k}
      ensures removed == if k in old(model) then Some((k, old(model)[k])) else None
      ensures table.Spent() <= old(table.Spent())
    {
      KeyAgrees(k);
      ghost var before := table.Contents();
      ghost var index;
      removed, index := table.RemoveEntry(hash(k), (kv: (K, V)) => kv.0 == k);
      if removed.Some? {
        RepresentsRemove(before, model, removed.value, table.Contents());
      } else {
        RepresentsKey(before, model, k);
      }
      model := model - {k};
    }

    // ----- Entries

    /** Looks a key up once for a later update: the bucket of its entry, if there is one. */
    method Entry(k: K) returns (occupied: Option<nat>)
      requires Valid()
      ensures occupied.Some? <==> k in model
      ensures occupied.Some? ==> OccupiedAt(occupied.value, k)
    {
      KeyAgrees(k);
      occupied := table.Find(hash(k), (kv: (K, V)) => kv.0 == k);
      if occupied.Some? {
        EntryIn(occupied.value);
      } else {
        RepresentsKey(table.Contents(), model, k);
      }
    }

    /** Fills a vacant entry. */
    method VacantInsert(k: K, v: V) returns (result: Outcome)
      requires Valid() && k !in model
      modifies this`model, table, table.ctrl, table.data
      ensures Valid() && (table.ctrl == old(table.ctrl) || fresh(table.ctrl))
      ensures table.data == old(table.data) || fresh(table.data)
      ensures model == if result.Done? then old(model)[k := v] else old(model)
      ensures result.CapacityOverflow? ==> table.growthLeft == 0 && !table.Reservable(1)
      ensures result.Done? <==>
        old(table.growthLeft > 0 || FillsTombstone(table.Tags(), table.Width(), hash(k)) || table.Reservable(1))
      ensures table.Spent() <= old(table.Spent()) + if result.Done? then 2 else 0
    {
      RepresentsInsert(table.Contents(), model, k, v);
      var outcome, _, _ := table.Insert(hash(k), (k, v));
      result := outcome;
      if result.Done? {
        model := model[k := v];
      }
    }

    /** Updates or removes an occupied entry in place, depending on what f returns; a removed entry leaves a
        vacant one with its key. */
    method ReplaceEntryWith(index: nat, k: K, f: (K, V) -> Option<V>) returns (left: Handle<K>)
      requires Valid() && OccupiedAt(index, k)
      modifies this`model, table`growthLeft, table`items, table.ctrl, table.data
      ensures Valid() && k in old(model) && table.Spent() <= old(table.Spent())
      ensures left == if f(k, old(model)[k]).Some? then Occupied(index) else Vacant(k)
      ensures model == match f(k, old(model)[k]) case Some(v) => old(model)[k := v] case None => old(model) - {k}
      ensures left.Occupied? ==> OccupiedAt(index, k) && table.ctrl[..] == old(table.ctrl[..])
      ensures left.Occupied? ==> table.growthLeft == old(table.growthLeft) && table.items == old(table.items)
    {
      EntryIn(index);
      ghost var before, entry := table.Contents(), table.data[index];
      var spareKey := table.data[index].0;
      var kept := table.ReplaceBucketWith(index, (kv: (K, V)) =>
        match f(kv.0, kv.1) case Some(v) => Some((kv.0, v)) case None => None);
      if kept {
        var v := f(entry.0, entry.1).value;
        RepresentsReplace(before, model, entry.0, entry.1, v, table.Contents());
        model := model[k := v];
        left := Occupied(index);
      } else {
        RepresentsRemove(before, model, entry, table.Contents());
        model := model - {k};
        left := Vacant(spareKey);
      }
    }

    // ----- Whole-map operations

    /** Judges the next entry of an iteration: keeps it, possibly with a new value, or removes and returns it. */
    method Visit(iter: RawIter, f: Verdict<K, V>, ghost m0: map<K, V>, ghost x: map<K, V>)
      returns (more: bool, removed: Option<(K, V)>, ghost x': map<K, V>)
      requires Valid() && iter.Valid(table.Tags()) && iter.ctrl == table.ctrl
      requires Visiting(table.Tags(), table.data[..], iter.at, m0, f, model, x)
      modifies this`model, iter, table`growthLeft, table`items, table.ctrl, table.data
      ensures Valid() && iter.Valid(table.Tags())
      ensures Visiting(table.Tags(), table.data[..], iter.at, m0, f, model, x')
      ensures more ==> iter.items < old(iter.items)
      ensures !more ==> model == Kept(m0, f) && x' == Dropped(m0, f) && removed.None?
      ensures removed.None? ==> x' == x
      ensures removed.Some? ==> removed.value.0 !in x && x' == x[removed.value.0 := removed.value.1]
      ensures table.Spent() <= old(table.Spent())
    {
      ghost var r, d, at := table.Tags(), table.data[..], iter.at;
      var next := iter.Next(r);
      x', removed := x, None;
      if next.None? {
        VisitEnd(r, d, at, m0, f, model, x);
        return false, None, x;
      }
      removed, x' := Judge(next.value, f, m0, x, at);
      if removed.Some? {
        ghost var t := table.Tags()[next.value];
        IterErased(iter.group, iter.first, iter.items, iter.at, iter.step, r, iter.width, next.value, t);
      }
      more := true;
    }

    /** Applies the verdict on one entry: writes the new value or erases the bucket. */
    method Judge(index: nat, f: Verdict<K, V>, ghost m0: map<K, V>, ghost x: map<K, V>, ghost at: nat)
      returns (removed: Option<(K, V)>, ghost x': map<K, V>)
      requires Valid() && at <= index < table.Buckets() && IsFull(table.Tags()[index])
      requires Visiting(table.Tags(), table.data[..], at, m0, f, model, x)
      requires NoneFull(table.Tags(), at, index)
      modifies this`model, table`growthLeft, table`items, table.ctrl, table.data
      ensures Valid() && table.Spent() <= old(table.Spent())
      ensures Visiting(table.Tags(), table.data[..], index + 1, m0, f, model, x')
      ensures removed.None? ==> x' == x && table.ctrl[..] == old(table.ctrl[..])
      ensures removed.Some? ==>
        removed.value.0 !in x && x' == x[removed.value.0 := removed.value.1] &&
        table.Tags() == old(table.Tags())[index := table.Tags()[index]]
    {
      ghost var r, d, m := table.Tags(), table.data[..], model;
      EntryIn(index);
      var (k, v) := table.data[index];
      var (keep, v') := f(k, v);
      x', removed := x, None;
      if keep {
        var _ := Overwrite(index, k, v');
      } else {
        VisitedKey(r, d, at, m0, f, m, x, index);
        EraseEntry(index, k);
        removed, x' := Some((k, v')), x[k := v'];
      }
      VisitStep(r, d, at, m, x, index, table.Tags(), table.data[..], model, x', m0, f);
    }

    method EraseEntry(index: nat, ghost k: K)
      requires Valid() && OccupiedAt(index, k)
      modifies this`model, table`growthLeft, table`items, table.ctrl
      ensures Valid() && model == old(model) - {k} && table.data[..] == old(table.data[..])
      ensures table.Tags() == old(table.Tags())[index := table.Tags()[index]] && !IsFull(table.Tags()[index])
      ensures table.Spent() <= old(table.Spent())
    {
      ghost var before := table.Contents();
      table.Erase(index);
      RepresentsRemove(before, model, table.data[index], table.Contents());
      model := model - {k};
    }

    /** Keeps the entries f keeps, with the values f gives them. */
    method Retain(f: Verdict<K, V>)
      requires Valid()
      modifies this`model, table`growthLeft, table`items, table.ctrl, table.data
      ensures Valid() && model == Kept(old(model), f)
      ensures forall k :: k in model <==> k in old(model) && f(k, old(model)[k]).0
      ensures forall k :: k in model ==> model[k] == f(k, old(model)[k]).1
      ensures table.Spent() <= old(table.Spent())
    {
      var iter := new RawIter(table.ctrl, table.Width(), table.items, table.Tags());
      ghost var m0, x := model, map[];
      VisitStart(table.Tags(), table.data[..], m0, f);
      var more := true;
      while more
        invariant Valid() && iter.Valid(table.Tags()) && iter.ctrl == table.ctrl && table.Spent() <= old(table.Spent())
        invariant more ==> Visiting(table.Tags(), table.data[..], iter.at, m0, f, model, x)
        invariant !more ==> model == Kept(m0, f)
        decreases more, iter.items
      {
        var removed;
        more, removed, x := Visit(iter, f, m0, x);
      }
    }

    /** Removes entries f does not keep and returns them, each once; the caller stops after `take` of them. */
    method ExtractIf(f: Verdict<K, V>, take: nat) returns (extracted: seq<(K, V)>, ghost x: map<K, V>)
      requires Valid()
      modifies this`model, table`growthLeft, table`items, table.ctrl, table.data
      ensures Valid() && Represents(multiset(extracted), x) && |extracted| <= take
      ensures model.Keys !! x.Keys && model.Keys + x.Keys == old(model).Keys
      ensures forall k :: k in x ==> !f(k, old(model)[k]).0 && x[k] == f(k, old(model)[k]).1
      ensures forall k :: k in model && model[k] != old(model)[k] ==> f(k, old(model)[k]) == (true, model[k])
      ensures |extracted| < take ==> forall k :: k in model ==> f(k, old(model)[k]) == (true, model[k])
    {
      var iter := new RawIter(table.ctrl, table.Width(), table.items, table.Tags());
      ghost var m0 := model;
      x := map[];
      VisitStart(table.Tags(), table.data[..], m0, f);
      var more := true;
      extracted := [];
      while more && |extracted| < take
        invariant Valid() && iter.Valid(table.Tags()) && iter.ctrl == table.ctrl && |extracted| <= take
        invariant Visiting(table.Tags(), table.data[..], iter.at, m0, f, model, x)
        invariant !more ==> model == Kept(m0, f) && x == Dropped(m0, f)
        invariant Represents(multiset(extracted), x)
        decreases more, iter.items
      {
        var removed;
        ghost var before := x;
        more, removed, x := Visit(iter, f, m0, x);
        if removed.Some? {
          RepresentsAppend(extracted, before, removed.value.0, removed.value.1);
          extracted := extracted + [removed.value];
        }
      }
      VisitSplits(table.Tags(), table.data[..], iter.at, m0, f, model, x);
    }

    method Clear()
      requires Valid()
      modifies this`model, table`growthLeft, table`items, table.ctrl
      ensures Valid() && model == map[] && table.Spent() <= old(table.Spent())
    {
      table.Clear();
      model := map[];
    }

    method Reserve(additional: nat) returns (result: Outcome)
      requires Valid()
      modifies table, table.ctrl, table.data
      ensures Valid() && (table.ctrl == old(table.ctrl) || fresh(table.ctrl))
      ensures table.data == old(table.data) || fresh(table.data)
      ensures result.Done? ==> table.growthLeft >= additional
      ensures result.Done? <==> additional <= old(table.growthLeft) || old(table.Reservable(additional))
      ensures result.CapacityOverflow? ==> table.growthLeft < additional && !table.Reservable(additional)
      ensures result.Done? && additional > old(table.growthLeft) ==>
        RoomMade(table.Buckets(), old(table.Buckets()), |model| + additional)
    {
      ItemsCount();
      result := table.Reserve(additional);
    }

    method ShrinkTo(minCapacity: nat)
      requires Valid()
      modifies table
      ensures Valid() && (table.ctrl == old(table.ctrl) || fresh(table.ctrl))
      ensures table.data == old(table.data) || fresh(table.data)
      ensures table.items + table.growthLeft >= minCapacity || unchanged(table)
      ensures Shrunk(table.Buckets(), old(table.Buckets()),
                     if old(table.items) < minCapacity then minCapacity else old(table.items))
    {
      table.ShrinkTo(minCapacity);
    }

    /** Compares lengths first, then looks every entry up in the other map. */
    method Eq(other: HashMap<K, V>) returns (same: bool)
      requires Valid() && other.Valid()
      ensures same <==> model == other.model
    {
      var n := Len();
      var n' := other.Len();
      if n != n' {
        return false;
      }
      ghost var r, d := table.Tags(), table.data[..];
      var iter := new RawIter(table.ctrl, table.Width(), table.items, r);
      same := true;
      var more := true;
      while more && same
        invariant iter.Valid(r) && iter.ctrl == table.ctrl
        invariant same ==> EntriesIn(r, d, if more then iter.at else |r|, other.model)
        invariant !same ==> model != other.model
        decreases more, iter.items
      {
        more, same := NextMatches(iter, other);
      }
      if same {
        SubmapEqual(r, d, model, other.model);
      }
    }

    /** Compares the next entry of an iteration, if there is one. */
    method NextMatches(iter: RawIter, other: HashMap<K, V>) returns (more: bool, same: bool)
      requires Valid() && other.Valid() && iter.Valid(table.Tags()) && iter.ctrl == table.ctrl
      requires EntriesIn(table.Tags(), table.data[..], iter.at, other.model)
      modifies iter
      ensures iter.Valid(table.Tags()) && (more ==> iter.items < old(iter.items))
      ensures same ==> EntriesIn(table.Tags(), table.data[..], if more then iter.at else table.Buckets(), other.model)
      ensures !same ==> model != other.model
    {
      ghost var r, d, at := table.Tags(), table.data[..], iter.at;
      var next := iter.Next(r);
      if next.None? {
        EntriesInStep(r, d, at, |r|, other.model);
        return false, true;
      }
      EntriesInStep(r, d, at, next.value, other.model);
      more := true;
      same := EntryMatches(next.value, other);
    }

    /** Looks one entry of this map up in the other. */
    method EntryMatches(index: nat, other: HashMap<K, V>) returns (matches: bool)
      requires Valid() && other.Valid() && index < table.Buckets() && IsFull(table.Tags()[index])
      ensures matches <==> Lookup(other.model, table.data[index].0) == Some(table.data[index].1)
      ensures !matches ==> model != other.model
    {
      EntryIn(index);
      var (k, v) := table.data[index];
      var found := other.Get(k);
      matches := found == Some(v);
    }

    /** How many entries to expect as new: as many as the iterator promises, or half in a map with entries. */
    function ExtendReserve(hint: nat): nat
      reads this, table
    {
      if table.items == 0 then hint else (hint + 1) / 2
    }

    /** Inserts the entries in order, after reserving room as the lower bound `hint` of their number suggests. */
    method Extend(entries: seq<(K, V)>, hint: nat) returns (result: Outcome, done: nat)
      requires Valid()
      modifies this`model, table, table.ctrl, table.data
      ensures Valid() && (table.ctrl == old(table.ctrl) || fresh(table.ctrl))
      ensures table.data == old(table.data) || fresh(table.data)
      ensures done <= |entries| && model == Extended(old(model), entries[..done])
      ensures result.Done? ==> done == |entries|
      ensures result.CapacityOverflow? && done > 0 ==> table.growthLeft == 0 && !table.Reservable(1)
      ensures result.CapacityOverflow? && done == 0 ==>
        var reserve := if |old(model)| == 0 then hint else (hint + 1) / 2;
        (table.growthLeft == 0 && !table.Reservable(1)) || (table.growthLeft < reserve && !table.Reservable(reserve))
      ensures
        var reserve := if |old(model)| == 0 then hint else (hint + 1) / 2;
        result.Done? ==> reserve <= old(table.growthLeft) || old(table.Reservable(reserve))
    {
      ItemsCount();
      var reserve := ExtendReserve(hint);
      result := Reserve(reserve);
      if result.CapacityOverflow? {
        return result, 0;
      }
      result, done := InsertAll(entries);
    }

    method InsertAll(entries: seq<(K, V)>) returns (result: Outcome, done: nat)
      requires Valid()
      modifies this`model, table, table.ctrl, table.data
      ensures Valid() && (table.ctrl == old(table.ctrl) || fresh(table.ctrl))
      ensures table.data == old(table.data) || fresh(table.data)
      ensures done <= |entries| && model == Extended(old(model), entries[..done])
      ensures if result.Done? then done == |entries| else table.growthLeft == 0 && !table.Reservable(1)
    {
      result, done := Done, 0;
      while done < |entries| && result.Done?
        invariant Valid() && done <= |entries| && model == Extended(old(model), entries[..done])
        invariant table.ctrl == old(table.ctrl) || fresh(table.ctrl)
        invariant table.data == old(table.data) || fresh(table.data)
        invariant result.CapacityOverflow? ==> table.growthLeft == 0 && !table.Reservable(1)
        decreases |entries| - done, result.Done?
      {
        ExtendedStep(old(model), entries, done);
        var outcome, _ := Insert(entries[done].0, entries[done].1);
        result := outcome;
        if result.Done? {
          done := done + 1;
        }
      }
    }
  }
}
