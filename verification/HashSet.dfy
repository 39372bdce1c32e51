/** The hash set: a hash map without values, and its set algebra. */
module HashSet {
  import opened Group
  import opened HashMap
  import opened MapSpec
  import opened RawIteration
  import opened TableSpec
  import opened Wrappers

  ghost predicate Distinct<T>(s: seq<T>) {
    forall i, j :: 0 <= i < j < |s| ==> s[i] != s[j]
  }

  /** s lists every element of the set once. */
  ghost predicate Lists<T(!new)>(s: seq<T>, elems: set<T>) {
    Distinct(s) && forall x :: x in s <==> x in elems
  }

  lemma ListsConcat<T(!new)>(s: seq<T>, x: set<T>, t: seq<T>, y: set<T>)
    requires Lists(s, x) && Lists(t, y) && x !! y
    ensures Lists(s + t, x + y)
  {
    forall i, j | 0 <= i < j < |s + t|
      ensures (s + t)[i] != (s + t)[j]
    {
      if i < |s| <= j {
        assert s[i] in x && t[j - |s|] in y;
      }
    }
  }

  lemma NothingListed<T(!new)>(s: seq<T>, x: set<T>, y: set<T>)
    requires Lists(s, x * y) && s == []
    ensures x !! y
  {
    forall e | e in x
      ensures e !in y
    {
      assert e in s <==> e in x * y;
    }
  }

  /** Maps to the unit value are equal when their keys are. */
  lemma UnitMaps<T(!new)>(m: map<T, ()>, m': map<T, ()>)
    requires m.Keys == m'.Keys
    ensures m == m'
  {
    forall k | k in m
      ensures m[k] == m'[k]
    {
      assert m[k] == () && m'[k] == ();
    }
  }

  /** One of the first `at` buckets holds the key. */
  ghost predicate Yielded<K, V>(r: seq<Tag>, d: seq<(K, V)>, at: nat, k: K)
    requires at <= |r| == |d|
  {
    exists i :: 0 <= i < at && IsFull(r[i]) && d[i].0 == k
  }

  /** s lists the keys of the first `at` buckets. */
  ghost predicate Listed<K(!new), V>(r: seq<Tag>, d: seq<(K, V)>, at: nat, s: seq<K>) {
    at <= |r| == |d| && Distinct(s) && forall k :: k in s <==> Yielded(r, d, at, k)
  }

  lemma ListedStep<K(!new), V(!new)>(r: seq<Tag>, d: seq<(K, V)>, at: nat, i: nat, m: map<K, V>, s: seq<K>)
    requires Listed(r, d, at, s) && Represents(Elems(r, d, false), m)
    requires at <= i < |r| && IsFull(r[i]) && NoneFull(r, at, i)
    ensures Listed(r, d, i + 1, s + [d[i].0])
  {
    var key, s' := d[i].0, s + [d[i].0];
    if key in s {
      var j :| 0 <= j < at && IsFull(r[j]) && d[j].0 == key;
      KeysDistinct(r, d, m, i, j);
    }
    var at' := i + 1;
    forall k
      ensures k in s' <==> Yielded(r, d, at', k)
    {
      assert k in s' <==> k in s || k == key;
      if Yielded(r, d, at', k) {
        var j :| 0 <= j < at' && IsFull(r[j]) && d[j].0 == k;
        assert at <= j < i ==> NotFull(r, j);
        assert j == i || Yielded(r, d, at, k);
      }
    }
  }

  lemma ListedAll<K(!new), V(!new)>(r: seq<Tag>, d: seq<(K, V)>, at: nat, m: map<K, V>, s: seq<K>)
    requires Listed(r, d, at, s) && Represents(Elems(r, d, false), m) && NoneFull(r, at, |r|)
    ensures Lists(s, m.Keys)
  {
    forall k
      ensures k in s <==> k in m
    {
      if k in m {
        assert Elems(r, d, false)[(k, m[k])] == 1;
        var i := ElemsFrom(r, d, false, (k, m[k]));
        assert at <= i ==> NotFull(r, i);
      }
      if k in s {
        var i :| 0 <= i < at && IsFull(r[i]) && d[i].0 == k;
        ElemsHas(r, d, false, i);
        assert Elems(r, d, false)[d[i]] >= 1;
      }
    }
  }

  /** The first i elements have been added. */
  ghost predicate Joined<T(!new)>(now: set<T>, before: set<T>, elems: seq<T>, i: nat) {
    i <= |elems| && forall x :: x in now <==> x in before || x in elems[..i]
  }

  /** The first i elements have been toggled. */
  ghost predicate Toggled<T(!new)>(now: set<T>, before: set<T>, elems: seq<T>, i: nat) {
    i <= |elems| && forall x :: x in now <==> (x in before) != (x in elems[..i])
  }

  /** The first i elements have been removed. */
  ghost predicate Removed<T(!new)>(now: set<T>, before: set<T>, elems: seq<T>, i: nat) {
    i <= |elems| && forall x :: x in now <==> x in before && x !in elems[..i]
  }

  lemma JoinedStep<T(!new)>(now: set<T>, before: set<T>, elems: seq<T>, i: nat)
    requires Joined(now, before, elems, i) && i < |elems|
    ensures Joined(now + {elems[i]}, before, elems, i + 1)
  {
    assert elems[..i + 1] == elems[..i] + [elems[i]];
  }

  lemma ToggledStep<T(!new)>(now: set<T>, before: set<T>, elems: seq<T>, i: nat)
    requires Toggled(now, before, elems, i) && i < |elems| && Distinct(elems)
    ensures Toggled(if elems[i] in now then now - {elems[i]} else now + {elems[i]}, before, elems, i + 1)
  {
    assert elems[..i + 1] == elems[..i] + [elems[i]];
    assert elems[i] !in elems[..i];
  }

  lemma RemovedStep<T(!new)>(now: set<T>, before: set<T>, elems: seq<T>, i: nat)
    requires Removed(now, before, elems, i) && i < |elems|
    ensures Removed(now - {elems[i]}, before, elems, i + 1)
  {
    assert elems[..i + 1] == elems[..i] + [elems[i]];
  }

  /** The first i elements of a list. */
  ghost function Prefix<T(!new)>(elems: seq<T>, i: nat): set<T>
    requires i <= |elems|
  {
    set x | x in elems[..i]
  }

  /** A prefix is part of what the list lists, and all of it only at the end. */
  lemma PrefixPart<T(!new)>(elems: seq<T>, other: set<T>, i: nat)
    requires i <= |elems| && Lists(elems, other)
    ensures Prefix(elems, i) <= other && (Prefix(elems, i) == other <==> i == |elems|)
  {
    assert forall x :: x in elems[..i] ==> x in elems;
    if i < |elems| {
      assert elems[i] in elems && elems[i] !in elems[..i];
    } else {
      assert elems[..i] == elems;
    }
  }

  lemma AllRemoved<T(!new)>(now: set<T>, before: set<T>, elems: seq<T>, other: set<T>)
    requires Lists(elems, other) && forall x :: x in now <==> x in before && x !in elems
    ensures now == before - other
  {
  }

  class HashSet<T(==, 0, !new)> {
    const entries: HashMap<T, ()>

    ghost predicate Valid()
      reads this, entries, entries.table, entries.table.ctrl, entries.table.data
    {
      entries.Valid()
    }

    /** The set this object stands for. */
    ghost function Model(): set<T>
      reads this, entries
    {
      entries.model.Keys
    }

    constructor (kind: GroupKind, hash: T -> Hash, bucketLimit: nat)
      ensures Valid() && Model() == {} && fresh(entries) && fresh(entries.table)
      ensures fresh(entries.table.ctrl) && fresh(entries.table.data)
      ensures entries.hash == hash && entries.table.kind == kind && entries.table.bucketLimit == bucketLimit
      ensures entries.table.Buckets() == 1 && entries.table.items == 0 && entries.table.growthLeft == 0
    {
      entries := new HashMap<T, ()>(kind, hash, bucketLimit);
    }

    method Contains(x: T) returns (found: bool)
      requires Valid()
      ensures found <==> x in Model()
    {
      var v := entries.Get(x);
      found := v.Some?;
    }

    /** Lists the elements in the order of their buckets. */
    method Elements() returns (s: seq<T>)
      requires Valid()
      ensures Lists(s, Model())
    {
      ghost var r, d := entries.table.Tags(), entries.table.data[..];
      var iter := new RawIter(entries.table.ctrl, entries.table.Width(), entries.table.items, r);
      var more := true;
      s := [];
      while more
        invariant iter.Valid(r) && iter.ctrl == entries.table.ctrl
        invariant Listed(r, d, iter.at, s) && (more || NoneFull(r, iter.at, |r|))
        decreases more, iter.items
      {
        ghost var at := iter.at;
        var next := iter.Next(r);
        if next.Some? {
          ListedStep(r, d, at, next.value, entries.model, s);
          s := s + [entries.table.data[next.value].0];
        } else {
          more := false;
        }
      }
      ListedAll(r, d, iter.at, entries.model, s);
    }

    /** The elements of this set that the other one has, or has not. */
    method Select(other: HashSet<T>, present: bool) returns (s: seq<T>)
      requires Valid() && other.Valid()
      ensures Lists(s, if present then Model() * other.Model() else Model() - other.Model())
    {
      var elems := Elements();
      s := [];
      for i := 0 to |elems|
        invariant Distinct(s) && forall x :: x in s <==> x in elems[..i] && (x in other.Model()) == present
      {
        assert elems[..i + 1] == elems[..i] + [elems[i]];
        var found := other.Contains(elems[i]);
        if found == present {
          assert elems[i] !in elems[..i];
          s := s + [elems[i]];
        }
      }
      assert elems[..|elems|] == elems;
    }

    method Difference(other: HashSet<T>) returns (s: seq<T>)
      requires Valid() && other.Valid()
      ensures Lists(s, Model() - other.Model())
    {
      s := Select(other, false);
    }

    /** Walks the smaller set and asks the larger one. */
    method Intersection(other: HashSet<T>) returns (s: seq<T>)
      requires Valid() && other.Valid()
      ensures Lists(s, Model() * other.Model())
    {
      var n := entries.Len();
      var n' := other.entries.Len();
      if n <= n' {
        s := Select(other, true);
      } else {
        s := other.Select(this, true);
      }
    }

    /** The larger set, followed by what only the smaller one has. */
    method Union(other: HashSet<T>) returns (s: seq<T>)
      requires Valid() && other.Valid()
      ensures Lists(s, Model() + other.Model())
    {
      var n := entries.Len();
      var n' := other.entries.Len();
      var front, back;
      if n <= n' {
        front := other.Elements();
        back := Difference(other);
        ListsConcat(front, other.Model(), back, Model() - other.Model());
      } else {
        front := Elements();
        back := other.Difference(this);
        ListsConcat(front, Model(), back, other.Model() - Model());
      }
      s := front + back;
    }

    method SymmetricDifference(other: HashSet<T>) returns (s: seq<T>)
      requires Valid() && other.Valid()
      ensures Lists(s, (Model() - other.Model()) + (other.Model() - Model()))
    {
      var front := Difference(other);
      var back := other.Difference(this);
      ListsConcat(front, Model() - other.Model(), back, other.Model() - Model());
      s := front + back;
    }

    /** Compares lengths first, then looks every element up in the other set. */
    method Eq(other: HashSet<T>) returns (same: bool)
      requires Valid() && other.Valid()
      ensures same <==> Model() == other.Model()
    {
      same := entries.Eq(other.entries);
      if Model() == other.Model() {
        UnitMaps(entries.model, other.entries.model);
      }
    }

    /** A larger set is no subset; otherwise every element is looked up in the other set. */
    method IsSubset(other: HashSet<T>) returns (sub: bool)
      requires Valid() && other.Valid()
      ensures sub <==> Model() <= other.Model()
    {
      var n := entries.Len();
      var n' := other.entries.Len();
      if n > n' {
        if Model() <= other.Model() {
          SubsetSmaller(Model(), other.Model());
        }
        return false;
      }
      var elems := Elements();
      sub := other.ContainsAll(elems);
    }

    method ContainsAll(elems: seq<T>) returns (all: bool)
      requires Valid()
      ensures all <==> forall x :: x in elems ==> x in Model()
    {
      for i := 0 to |elems|
        invariant forall x :: x in elems[..i] ==> x in Model()
      {
        var found := Contains(elems[i]);
        if !found {
          return false;
        }
      }
      assert elems[..|elems|] == elems;
      return true;
    }

    /** No element is common to both sets. */
    method IsDisjoint(other: HashSet<T>) returns (disjoint: bool)
      requires Valid() && other.Valid()
      ensures disjoint <==> Model() !! other.Model()
    {
      var common := Intersection(other);
      disjoint := |common| == 0;
      if common == [] {
        NothingListed(common, Model(), other.Model());
      } else {
        assert common[0] in common;
      }
    }

    /** Adds an element and tells whether it was new. */
    method Insert(x: T) returns (result: Outcome, added: bool)
      requires Valid()
      modifies entries`model, entries.table, entries.table.ctrl, entries.table.data
      ensures Valid() && Framed(old(entries.table.ctrl), old(entries.table.data))
      ensures Model() == if result.Done? then old(Model()) + {x} else old(Model())
      ensures result.Done? ==> added == (x !in old(Model()))
      ensures result.CapacityOverflow? ==> NoRoom()
    {
      var previous;
      result, previous := entries.Insert(x, ());
      added := previous.None?;
    }

    /** The table is full and cannot grow. */
    predicate NoRoom()
      reads this, entries, entries.table
    {
      entries.table.growthLeft == 0 && !entries.table.Reservable(1)
    }

    /** The arrays are the given ones or new. */
    twostate predicate Framed(ctrl: array<Tag>, data: array<(T, ())>)
      reads this, entries, entries.table
    {
      && (entries.table.ctrl == ctrl || fresh(entries.table.ctrl))
      && (entries.table.data == data || fresh(entries.table.data))
    }

    method Retain(f: T -> bool)
      requires Valid()
      modifies entries`model, entries.table`growthLeft, entries.table`items, entries.table.ctrl, entries.table.data
      ensures Valid() && Model() == set x | x in old(Model()) && f(x)
    {
      entries.Retain((x: T, u: ()) => (f(x), u));
    }

    /** Erases the entry found for x, or stores x in the free bucket found for it. */
    method Flip(found: bool, index: nat, x: T)
      requires Valid() && found == (x in Model())
      requires found ==> entries.OccupiedAt(index, x)
      requires !found ==> entries.CanStore(index, x)
      modifies entries`model, entries.table`growthLeft, entries.table`items, entries.table.ctrl, entries.table.data
      ensures Valid() && Model() == if found then old(Model()) - {x} else old(Model()) + {x}
    {
      if found {
        entries.EraseEntry(index, x);
      } else {
        entries.InsertNew(index, x, ());
      }
    }

    /** Removes an element that is there, inserts one that is not, with a single search. */
    method Toggle(x: T) returns (result: Outcome)
      requires Valid()
      modifies entries`model, entries.table, entries.table.ctrl, entries.table.data
      ensures Valid() && Framed(old(entries.table.ctrl), old(entries.table.data))
      ensures result.CapacityOverflow? ==> Model() == old(Model()) && NoRoom()
      ensures result.Done? ==> Model() == if x in old(Model()) then old(Model()) - {x} else old(Model()) + {x}
    {
      var found, index;
      result, found, index := entries.FindOrFindSlot(x);
      if result.Done? {
        Flip(found, index, x);
      }
    }

    method InsertAbsent(x: T) returns (result: Outcome)
      requires Valid()
      modifies entries`model, entries.table, entries.table.ctrl, entries.table.data
      ensures Valid() && Framed(old(entries.table.ctrl), old(entries.table.data))
      ensures Model() == if result.Done? then old(Model()) + {x} else old(Model())
      ensures result.CapacityOverflow? ==> NoRoom()
    {
      var found := Contains(x);
      if found {
        return Done;
      }
      var outcome, _ := Insert(x);
      result := outcome;
    }

    /** Inserts what the other set has and this one has not; an overflow (a panic) leaves a part of it inserted. */
    method BitOrAssign(other: HashSet<T>) returns (result: Outcome, ghost done: set<T>)
      requires Valid() && other.Valid()
      modifies entries`model, entries.table, entries.table.ctrl, entries.table.data
      ensures Valid() && (result.CapacityOverflow? ==> NoRoom())
      ensures done <= old(other.Model()) && (result.Done? <==> done == old(other.Model()))
      ensures Model() == old(Model()) + done
    {
      var elems := other.Elements();
      ghost var mine, theirs := Model(), other.Model();
      result := Done;
      var i := 0;
      while i < |elems| && result.Done?
        invariant Valid() && Framed(old(entries.table.ctrl), old(entries.table.data))
        invariant i <= |elems| && (result.CapacityOverflow? ==> NoRoom() && i < |elems|)
        invariant Joined(Model(), mine, elems, i)
        decreases |elems| - i, result.Done?
      {
        JoinedStep(Model(), mine, elems, i);
        result := InsertAbsent(elems[i]);
        if result.Done? {
          i := i + 1;
        }
      }
      PrefixPart(elems, theirs, i);
      done := Prefix(elems, i);
    }

    /** Toggles every element of the other set; an overflow (a panic) leaves a part of them toggled. */
    method BitXorAssign(other: HashSet<T>) returns (result: Outcome, ghost done: set<T>)
      requires Valid() && other.Valid()
      modifies entries`model, entries.table, entries.table.ctrl, entries.table.data
      ensures Valid() && (result.CapacityOverflow? ==> NoRoom())
      ensures done <= old(other.Model()) && (result.Done? <==> done == old(other.Model()))
      ensures Model() == (old(Model()) - done) + (done - old(Model()))
    {
      var elems := other.Elements();
      ghost var mine, theirs := Model(), other.Model();
      result := Done;
      var i := 0;
      while i < |elems| && result.Done?
        invariant Valid() && Framed(old(entries.table.ctrl), old(entries.table.data))
        invariant i <= |elems| && (result.CapacityOverflow? ==> NoRoom() && i < |elems|)
        invariant Toggled(Model(), mine, elems, i)
        decreases |elems| - i, result.Done?
      {
        ToggledStep(Model(), mine, elems, i);
        result := Toggle(elems[i]);
        if result.Done? {
          i := i + 1;
        }
      }
      PrefixPart(elems, theirs, i);
      done := Prefix(elems, i);
    }

    /** Removes the other set's elements one by one if they are fewer, and filters this set otherwise. */
    method SubAssign(other: HashSet<T>)
      requires Valid() && other.Valid()
      modifies entries`model, entries.table`growthLeft, entries.table`items, entries.table.ctrl, entries.table.data
      ensures Valid() && Model() == old(Model()) - old(other.Model())
    {
      var n := entries.Len();
      var n' := other.entries.Len();
      var elems := other.Elements();
      if n' < n {
        RemoveAll(elems);
      } else {
        RetainAbsent(elems);
      }
      AllRemoved(Model(), old(Model()), elems, old(other.Model()));
    }

    method RetainAbsent(elems: seq<T>)
      requires Valid()
      modifies entries`model, entries.table`growthLeft, entries.table`items, entries.table.ctrl, entries.table.data
      ensures Valid() && forall x :: x in Model() <==> x in old(Model()) && x !in elems
    {
      Retain(x => x !in elems);
    }

    /** Keeps what the other set has as well. */
    method BitAndAssign(other: HashSet<T>)
      requires Valid() && other.Valid()
      modifies entries`model, entries.table`growthLeft, entries.table`items, entries.table.ctrl, entries.table.data
      ensures Valid() && Model() == old(Model()) * old(other.Model())
    {
      var elems := other.Elements();
      Retain(x => x in elems);
    }

    method RemoveAll(elems: seq<T>)
      requires Valid()
      modifies entries`model, entries.table`growthLeft, entries.table`items, entries.table.ctrl
      ensures Valid() && forall x :: x in Model() <==> x in old(Model()) && x !in elems
    {
      ghost var before := Model();
      for i := 0 to |elems|
        invariant Valid() && entries.table.ctrl == old(entries.table.ctrl)
        invariant Removed(Model(), before, elems, i)
      {
        RemovedStep(Model(), before, elems, i);
        var _ := entries.RemoveEntry(elems[i]);
      }
      assert elems[..|elems|] == elems;
    }
  }
}
