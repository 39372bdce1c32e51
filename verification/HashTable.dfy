/** The low-level table interface: entries that can be removed and refilled, filtering, iteration by hash. */
module HashTable {
  import opened Control
  import opened Group
  import opened RawIteration
  import opened RawTable
  import opened SearchSpec
  import opened TableSpec
  import opened Wrappers

  /** The result of looking an element up for an update. */
  datatype Entry = Occupied(hash: Hash, bucket: nat) | Vacant(hash: Hash, slot: nat)

  /** What becomes of an element: whether it stays, and what the closure made of it. */
  type Judgement<!T> = T -> (bool, T)

  /** A closure must not change the hash of a stored element that stays. */
  ghost predicate KeepsHash<T(!new)>(f: Judgement<T>, hasher: T -> Hash, contents: multiset<T>) {
    forall x :: x in contents && f(x).0 ==> hasher(f(x).1) == hasher(x)
  }

  /** What is left of one bucket. */
  ghost function Left<T>(t: Tag, x: T, f: Judgement<T>): multiset<T> {
    if IsFull(t) && f(x).0 then multiset{f(x).1} else multiset{}
  }

  /** What the first m buckets hold once their elements have been judged. */
  ghost function Retained<T>(r: seq<Tag>, d: seq<T>, f: Judgement<T>, m: nat): multiset<T>
    requires m <= |r| == |d|
  {
    if m == 0 then multiset{}
    else Retained(r, d, f, m - 1) + Left(r[m - 1], d[m - 1], f)
  }

  lemma {:induction false} RetainedSkip<T>(r: seq<Tag>, d: seq<T>, f: Judgement<T>, at: nat, end: nat)
    requires at <= end <= |r| == |d| && NoneFull(r, at, end)
    ensures Retained(r, d, f, end) == Retained(r, d, f, at)
    decreases end
  {
    if at < end {
      assert NotFull(r, end - 1);
      RetainedSkip(r, d, f, at, end - 1);
    }
  }

  /** A closure that changes nothing keeps exactly the elements it accepts, with their multiplicities. */
  lemma {:induction false} RetainedFilters<T>(r: seq<Tag>, d: seq<T>, f: Judgement<T>, m: nat, x: T)
    requires m <= |r| == |d| && forall y :: f(y).1 == y
    ensures Retained(r, d, f, m)[x] == if f(x).0 then ElemsTo(r, d, false, m)[x] else 0
  {
    if m > 0 {
      RetainedFilters(r, d, f, m - 1, x);
    }
  }

  /** Judging has got as far as bucket `at`: the buckets from there on are as they were. */
  ghost predicate Filtering<T>(
    r: seq<Tag>, r0: seq<Tag>, d: seq<T>, d0: seq<T>, at: nat, now: multiset<T>, f: Judgement<T>) {
    && at <= |r| == |r0| == |d| == |d0|
    && (forall j :: at <= j < |r| ==> r[j] == r0[j] && d[j] == d0[j])
    && now + ElemsTo(r0, d0, false, at) == Elems(r0, d0, false) + Retained(r0, d0, f, at)
  }

  lemma ExchangeKept<T>(
    now: multiset<T>, seen: multiset<T>, all: multiset<T>, kept: multiset<T>, x: T, y: T, after: multiset<T>)
    requires now + seen == all + kept && after + multiset{x} == now + multiset{y}
    ensures after + (seen + multiset{x}) == all + (kept + multiset{y})
  {
    assert after + (seen + multiset{x}) == (after + multiset{x}) + seen == (now + seen) + multiset{y};
  }

  lemma ExchangeDropped<T>(
    now: multiset<T>, seen: multiset<T>, all: multiset<T>, kept: multiset<T>, x: T, after: multiset<T>)
    requires now + seen == all + kept && now == after + multiset{x}
    ensures after + (seen + multiset{x}) == all + kept
  {
    assert after + (seen + multiset{x}) == (after + multiset{x}) + seen;
  }

  lemma FilteringStep<T>(r: seq<Tag>, r0: seq<Tag>, d: seq<T>, d0: seq<T>, at: nat, now: multiset<T>, f: Judgement<T>,
                         i: nat, r': seq<Tag>, d': seq<T>, after: multiset<T>)
    requires Filtering(r, r0, d, d0, at, now, f)
    requires at <= i < |r| && IsFull(r[i]) && NoneFull(r, at, i)
    requires |r'| == |d'| == |r| && forall j :: i < j < |r| ==> r'[j] == r[j] && d'[j] == d[j]
    requires f(d[i]).0 ==> after + multiset{d[i]} == now + multiset{f(d[i]).1}
    requires !f(d[i]).0 ==> now == after + multiset{d[i]}
    ensures Filtering(r', r0, d', d0, i + 1, after, f)
  {
    NoneFullSame(r, r0, at, i);
    ElemsToSkip(r0, d0, at, i);
    RetainedSkip(r0, d0, f, at, i);
    var all, seen, kept := Elems(r0, d0, false), ElemsTo(r0, d0, false, at), Retained(r0, d0, f, at);
    if f(d[i]).0 {
      ExchangeKept(now, seen, all, kept, d[i], f(d[i]).1, after);
    } else {
      ExchangeDropped(now, seen, all, kept, d[i], after);
    }
  }

  /** The next element to be judged is one of the original ones, so it keeps its hash. */
  lemma JudgedKeepsHash<T(!new)>(
    r: seq<Tag>, r0: seq<Tag>, d: seq<T>, d0: seq<T>, at: nat, now: multiset<T>, f: Judgement<T>, i: nat,
    hasher: T -> Hash)
    requires Filtering(r, r0, d, d0, at, now, f) && at <= i < |r| && IsFull(r[i])
    requires KeepsHash(f, hasher, Elems(r0, d0, false))
    ensures f(d[i]).0 ==> hasher(f(d[i]).1) == hasher(d[i])
  {
    ElemsHas(r0, d0, false, i);
  }

  lemma FilteringEnd<T>(r: seq<Tag>, r0: seq<Tag>, d: seq<T>, d0: seq<T>, at: nat, now: multiset<T>, f: Judgement<T>)
    requires Filtering(r, r0, d, d0, at, now, f) && NoneFull(r, at, |r|)
    ensures now == Retained(r0, d0, f, |r0|)
  {
    NoneFullSame(r, r0, at, |r|);
    ElemsToSkip(r0, d0, at, |r0|);
    RetainedSkip(r0, d0, f, at, |r0|);
    Cancel(now, Retained(r0, d0, f, at), Elems(r0, d0, false));
  }

  lemma Cancel<T>(x: multiset<T>, y: multiset<T>, z: multiset<T>)
    requires x + z == z + y
    ensures x == y
  {
    assert x == (x + z) - z == (z + y) - z == y;
  }

  class HashTable<T(0, !new)> {
    const raw: RawTable<T>

    ghost predicate Valid()
      reads this, raw, raw.ctrl, raw.data
    {
      raw.Valid()
    }

    constructor (kind: GroupKind, hasher: T -> Hash, bucketLimit: nat)
      ensures Valid() && raw.Contents() == multiset{} && fresh(raw) && fresh(raw.ctrl) && fresh(raw.data)
      ensures raw.kind == kind && raw.hasher == hasher && raw.bucketLimit == bucketLimit
      ensures raw.Buckets() == 1 && raw.items == 0 && raw.growthLeft == 0
    {
      raw := new RawTable(kind, hasher, bucketLimit, 1);
    }

    /** A vacant entry can be filled without a search, without growing and without underflow. */
    ghost predicate CanFill(e: Entry)
      requires raw.Shape()
      reads this, raw, raw.ctrl
    {
      && e.Vacant? && e.slot < raw.Buckets() && !IsFull(raw.Tags()[e.slot])
      && Reach(raw.Tags(), raw.Width(), e.hash, e.slot)
      && (raw.Tags()[e.slot] == EMPTY ==> raw.growthLeft > 0)
    }

    /** An occupied entry names a stored element with the entry's hash. */
    ghost predicate Holds(e: Entry)
      requires raw.Shape()
      reads this, raw, raw.ctrl, raw.data
    {
      && e.Occupied? && e.bucket < raw.Buckets() && IsFull(raw.Tags()[e.bucket])
      && raw.hasher(raw.data[e.bucket]) == e.hash
    }

    /** Finds a matching element or the place for one. */
    method GetEntry(hash: Hash, eq: T -> bool) returns (result: Outcome, e: Entry)
      requires Valid() && AgreesOn(raw.Contents(), raw.hasher, hash, eq)
      modifies raw, raw.ctrl, raw.data
      ensures Valid() && (raw.ctrl == old(raw.ctrl) || fresh(raw.ctrl))
      ensures raw.data == old(raw.data) || fresh(raw.data)
      ensures raw.Contents() == old(raw.Contents()) && (result.Done? <==> old(raw.growthLeft >= 1 || raw.Reservable(1)))
      ensures result.Done? && e.Occupied? ==> Holds(e) && e.hash == hash && eq(raw.data[e.bucket])
      ensures result.Done? && e.Vacant? ==> CanFill(e) && e.hash == hash && NoMatch(raw.Contents(), eq)
    {
      var outcome, found, index := raw.FindOrFindInsertSlot(hash, eq);
      result := outcome;
      e := if found then Occupied(hash, index) else Vacant(hash, index);
    }

    /** Takes the element of an occupied entry out; the vacant entry left behind can be filled again. */
    method RemoveOccupied(e: Entry) returns (value: T, vacant: Entry)
      requires Valid() && Holds(e)
      modifies raw`growthLeft, raw`items, raw.ctrl
      ensures Valid() && CanFill(vacant) && vacant == Vacant(e.hash, e.bucket)
      ensures value == raw.data[e.bucket] && old(raw.Contents()) == raw.Contents() + multiset{value}
      ensures raw.Tags() ==
        old(raw.Tags())[e.bucket := if old(PassedOver(raw.Tags(), raw.Width(), e.bucket)) then DELETED else EMPTY]
      ensures raw.items == old(raw.items) - 1
      ensures raw.growthLeft == old(raw.growthLeft) + (if raw.Tags()[e.bucket] == EMPTY then 1 else 0)
    {
      var slot;
      value, slot := raw.Remove(e.bucket);
      vacant := Vacant(e.hash, slot);
    }

    /** Fills a vacant entry. */
    method FillVacant(e: Entry, value: T) returns (occupied: Entry)
      requires Valid() && CanFill(e) && e.hash == raw.hasher(value)
      modifies raw`growthLeft, raw`items, raw.ctrl, raw.data
      ensures Valid() && Holds(occupied) && occupied == Occupied(e.hash, e.slot)
      ensures raw.Contents() == old(raw.Contents()) + multiset{value}
      ensures raw.Tags() == old(raw.Tags())[e.slot := FullTag(e.hash)]
      ensures raw.data[..] == old(raw.data[..])[e.slot := value] && raw.items == old(raw.items) + 1
      ensures raw.growthLeft == old(raw.growthLeft) - (if old(raw.Tags())[e.slot] == EMPTY then 1 else 0)
    {
      raw.InsertInSlot(e.hash, e.slot, value);
      occupied := Occupied(e.hash, e.slot);
    }

    /** Removing an element and filling its entry with one of the same hash restores the control bytes and the
        counters, whichever tag the removal left. */
    method Refill(e: Entry, value: T) returns (removed: T, occupied: Entry)
      requires Valid() && Holds(e) && e.hash == raw.hasher(value)
      modifies raw`growthLeft, raw`items, raw.ctrl, raw.data
      ensures Valid() && Holds(occupied) && occupied == e
      ensures removed == old(raw.data[e.bucket]) && raw.data[..] == old(raw.data[..])[e.bucket := value]
      ensures raw.Contents() + multiset{removed} == old(raw.Contents()) + multiset{value}
      ensures raw.Tags() == old(raw.Tags())
      ensures raw.growthLeft == old(raw.growthLeft) && raw.items == old(raw.items)
    {
      var vacant;
      ghost var r := raw.Tags();
      assert r[e.bucket] == FullTag(e.hash) by {
        assert PlacedAt(r, raw.data[..], raw.Width(), raw.hasher, e.bucket);
      }
      removed, vacant := RemoveOccupied(e);
      occupied := FillVacant(vacant, value);
      assert raw.Tags() == r;
    }

    /** Judges every element in place: what the closure rejects is erased, the others stay as it left them. */
    method Retain(f: Judgement<T>)
      requires Valid() && KeepsHash(f, raw.hasher, raw.Contents())
      modifies raw`growthLeft, raw`items, raw.ctrl, raw.data
      ensures Valid() && raw.Contents() == Retained(old(raw.Tags()), old(raw.data[..]), f, old(raw.Buckets()))
    {
      ghost var r0, d0 := raw.Tags(), raw.data[..];
      var iter := new RawIter(raw.ctrl, raw.Width(), raw.items, r0);
      var more := true;
      while more
        invariant Valid() && iter.Valid(raw.Tags()) && iter.ctrl == raw.ctrl
        invariant Filtering(raw.Tags(), r0, raw.data[..], d0, iter.at, raw.Contents(), f)
        invariant !more ==> NoneFull(raw.Tags(), iter.at, |raw.Tags()|)
        decreases more, iter.items
      {
        more := FilterNext(iter, f, r0, d0);
      }
      FilteringEnd(raw.Tags(), r0, raw.data[..], d0, iter.at, raw.Contents(), f);
    }

    /** Judges the next element, if there is one. */
    method FilterNext(iter: RawIter, f: Judgement<T>, ghost r0: seq<Tag>, ghost d0: seq<T>) returns (more: bool)
      requires Valid() && |r0| == |d0| && KeepsHash(f, raw.hasher, Elems(r0, d0, false))
      requires iter.Valid(raw.Tags()) && iter.ctrl == raw.ctrl
      requires Filtering(raw.Tags(), r0, raw.data[..], d0, iter.at, raw.Contents(), f)
      modifies iter, raw`growthLeft, raw`items, raw.ctrl, raw.data
      ensures Valid() && iter.Valid(raw.Tags())
      ensures Filtering(raw.Tags(), r0, raw.data[..], d0, iter.at, raw.Contents(), f)
      ensures more ==> iter.items < old(iter.items)
      ensures !more ==> NoneFull(raw.Tags(), iter.at, |raw.Tags()|)
    {
      ghost var at := iter.at;
      var next := iter.Next(raw.Tags());
      if next.None? {
        return false;
      }
      FilterBucket(iter, next.value, f, r0, d0, at);
      more := true;
    }

    /** Judges the bucket just yielded. */
    method FilterBucket(
      ghost iter: RawIter, index: nat, f: Judgement<T>, ghost r0: seq<Tag>, ghost d0: seq<T>, ghost at: nat)
      requires Valid() && |r0| == |d0| && KeepsHash(f, raw.hasher, Elems(r0, d0, false))
      requires iter.Valid(raw.Tags()) && iter.ctrl == raw.ctrl && iter.at == index + 1
      requires at <= index < raw.Buckets() && IsFull(raw.Tags()[index])
      requires Filtering(raw.Tags(), r0, raw.data[..], d0, at, raw.Contents(), f)
      requires NoneFull(raw.Tags(), at, index)
      modifies raw`growthLeft, raw`items, raw.ctrl, raw.data
      ensures Valid() && iter.Valid(raw.Tags())
      ensures Filtering(raw.Tags(), r0, raw.data[..], d0, index + 1, raw.Contents(), f)
    {
      ghost var r, d, now := raw.Tags(), raw.data[..], raw.Contents();
      JudgedKeepsHash(r, r0, d, d0, at, now, f, index, raw.hasher);
      var (keep, value) := f(raw.data[index]);
      if keep {
        raw.WriteBucket(index, value);
      } else {
        raw.Erase(index);
        IterErased(iter.group, iter.first, iter.items, iter.at, iter.step, r, iter.width, index, raw.Tags()[index]);
      }
      FilteringStep(r, r0, d, d0, at, now, f, index, raw.Tags(), raw.data[..], raw.Contents());
    }
  }
}
