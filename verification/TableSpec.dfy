/** What the buckets of a table mean: which elements they hold, and that every element can be found. */
module TableSpec {
  import opened Arith
  import opened Capacity
  import opened Group
  import opened Probe
  import opened Control

  // ----- Reachability

  /** The first k windows of the search for h show no EMPTY, so the search has not stopped. */
  ghost predicate Passed(r: seq<Tag>, w: nat, h: nat, k: nat)
    requires |r| > 0
  {
    forall j: nat :: j < k ==> !SeesEmpty(r, w, ProbePos(|r|, w, h, j))
  }

  /** The first k windows of the search for h show full buckets only. */
  ghost predicate Crowded(r: seq<Tag>, w: nat, h: nat, k: nat)
    requires |r| > 0
  {
    forall j: nat :: j < k ==> !SeesSpecial(r, w, ProbePos(|r|, w, h, j))
  }

  /** The search for hash h arrives at bucket i in its k-th window without having stopped before. */
  ghost predicate ReachedAt(r: seq<Tag>, w: nat, h: nat, i: nat, k: nat)
    requires |r| > 0
  {
    InWindow(|r|, w, ProbePos(|r|, w, h, k), i) && Passed(r, w, h, k)
  }

  ghost predicate Reach(r: seq<Tag>, w: nat, h: nat, i: nat)
    requires |r| > 0
  {
    exists k: nat :: ReachedAt(r, w, h, i, k)
  }

  /** As ReachedAt, with only full buckets on the way: the first window that has room. */
  ghost predicate DenseAt(r: seq<Tag>, w: nat, h: nat, i: nat, k: nat)
    requires |r| > 0
  {
    InWindow(|r|, w, ProbePos(|r|, w, h, k), i) && Crowded(r, w, h, k)
  }

  ghost predicate Dense(r: seq<Tag>, w: nat, h: nat, i: nat)
    requires |r| > 0
  {
    exists k: nat :: DenseAt(r, w, h, i, k)
  }

  lemma EmptySpecial(r: seq<Tag>, w: nat, pos: nat)
    requires SeesEmpty(r, w, pos)
    ensures SeesSpecial(r, w, pos)
  {
    if w <= |r| {
      var i: nat :| EmptyIn(r, w, pos, i);
      assert SpecialIn(r, w, pos, i);
    }
  }

  lemma DenseReach(r: seq<Tag>, w: nat, h: nat, i: nat)
    requires |r| > 0 && Dense(r, w, h, i)
    ensures Reach(r, w, h, i)
  {
    var k: nat :| DenseAt(r, w, h, i, k);
    forall j: nat | j < k
      ensures !SeesEmpty(r, w, ProbePos(|r|, w, h, j))
    {
      if SeesEmpty(r, w, ProbePos(|r|, w, h, j)) {
        EmptySpecial(r, w, ProbePos(|r|, w, h, j));
      }
    }
    assert ReachedAt(r, w, h, i, k);
  }

  /** A full bucket carries its element's tag and lies on the search path of its element's hash. */
  ghost predicate PlacedAt<T>(r: seq<Tag>, d: seq<T>, w: nat, hasher: T -> Hash, i: nat)
    requires i < |r| == |d|
  {
    IsFull(r[i]) ==> r[i] == FullTag(hasher(d[i])) && Reach(r, w, hasher(d[i]), i)
  }

  ghost predicate Placed<T>(r: seq<Tag>, d: seq<T>, w: nat, hasher: T -> Hash) {
    |d| == |r| > 0 && forall i :: 0 <= i < |r| ==> PlacedAt(r, d, w, hasher, i)
  }

  ghost predicate DenselyPlacedAt<T>(r: seq<Tag>, d: seq<T>, w: nat, hasher: T -> Hash, i: nat)
    requires i < |r| == |d|
  {
    IsFull(r[i]) ==> r[i] == FullTag(hasher(d[i])) && Dense(r, w, hasher(d[i]), i)
  }

  ghost predicate DenselyPlaced<T>(r: seq<Tag>, d: seq<T>, w: nat, hasher: T -> Hash) {
    |d| == |r| > 0 && forall i :: 0 <= i < |r| ==> DenselyPlacedAt(r, d, w, hasher, i)
  }

  lemma DenselyPlacedPlaced<T>(r: seq<Tag>, d: seq<T>, w: nat, hasher: T -> Hash)
    requires DenselyPlaced(r, d, w, hasher)
    ensures Placed(r, d, w, hasher)
  {
    forall i | 0 <= i < |r|
      ensures PlacedAt(r, d, w, hasher, i)
    {
      assert DenselyPlacedAt(r, d, w, hasher, i);
      if IsFull(r[i]) {
        DenseReach(r, w, hasher(d[i]), i);
      }
    }
  }

  /** A window that showed no EMPTY shows none after a bucket it does not show, or a non-EMPTY tag, changes. */
  lemma SeesEmptyUpdate(r: seq<Tag>, w: nat, pos: nat, s: nat, t: Tag)
    requires pos < |r| && s < |r| && !SeesEmpty(r, w, pos)
    requires t == EMPTY ==> !PassedOver(r, w, s)
    ensures !SeesEmpty(r[s := t], w, pos)
  {
    var q := r[s := t];
    forall i: nat
      ensures !EmptyIn(q, w, pos, i)
    {
      assert !EmptyIn(r, w, pos, i);
    }
  }

  lemma SeesSpecialUpdate(r: seq<Tag>, w: nat, pos: nat, s: nat, t: Tag)
    requires pos < |r| && s < |r| && !SeesSpecial(r, w, pos)
    requires IsFull(t) || !IsFull(r[s])
    ensures !SeesSpecial(r[s := t], w, pos)
  {
    var q := r[s := t];
    forall i: nat
      ensures !SpecialIn(q, w, pos, i)
    {
      assert !SpecialIn(r, w, pos, i);
    }
  }

  /** Reachability survives every change that gives no passed-over bucket an EMPTY tag. */
  lemma ReachUpdate(r: seq<Tag>, w: nat, h: nat, i: nat, s: nat, t: Tag)
    requires Geometry(|r|, w) && s < |r| && Reach(r, w, h, i)
    requires t == EMPTY ==> !PassedOver(r, w, s)
    ensures Reach(r[s := t], w, h, i)
  {
    var k: nat :| ReachedAt(r, w, h, i, k);
    forall j: nat | j < k
      ensures !SeesEmpty(r[s := t], w, ProbePos(|r|, w, h, j))
    {
      SeesEmptyUpdate(r, w, ProbePos(|r|, w, h, j), s, t);
    }
    assert ReachedAt(r[s := t], w, h, i, k);
  }

  lemma DenseUpdate(r: seq<Tag>, w: nat, h: nat, i: nat, s: nat, t: Tag)
    requires Geometry(|r|, w) && s < |r| && Dense(r, w, h, i) && (IsFull(t) || !IsFull(r[s]))
    ensures Dense(r[s := t], w, h, i)
  {
    var k: nat :| DenseAt(r, w, h, i, k);
    forall j: nat | j < k
      ensures !SeesSpecial(r[s := t], w, ProbePos(|r|, w, h, j))
    {
      SeesSpecialUpdate(r, w, ProbePos(|r|, w, h, j), s, t);
    }
    assert DenseAt(r[s := t], w, h, i, k);
  }

  /** Filling a free bucket on the search path of the new element keeps everything findable. */
  lemma PlaceNew<T>(r: seq<Tag>, d: seq<T>, w: nat, hasher: T -> Hash, s: nat, x: T)
    requires Geometry(|r|, w) && Placed(r, d, w, hasher)
    requires s < |r| && !IsFull(r[s]) && Reach(r, w, hasher(x), s)
    ensures Placed(r[s := FullTag(hasher(x))], d[s := x], w, hasher)
  {
    var t := FullTag(hasher(x));
    var r', d' := r[s := t], d[s := x];
    forall i | 0 <= i < |r'|
      ensures PlacedAt(r', d', w, hasher, i)
    {
      assert PlacedAt(r, d, w, hasher, i);
      if IsFull(r'[i]) {
        ReachUpdate(r, w, hasher(d'[i]), i, s, t);
      }
    }
  }

  lemma PlaceDense<T>(r: seq<Tag>, d: seq<T>, w: nat, hasher: T -> Hash, s: nat, x: T)
    requires Geometry(|r|, w) && DenselyPlaced(r, d, w, hasher)
    requires s < |r| && !IsFull(r[s]) && Dense(r, w, hasher(x), s)
    ensures DenselyPlaced(r[s := FullTag(hasher(x))], d[s := x], w, hasher)
  {
    var t := FullTag(hasher(x));
    var r', d' := r[s := t], d[s := x];
    forall i | 0 <= i < |r'|
      ensures DenselyPlacedAt(r', d', w, hasher, i)
    {
      assert DenselyPlacedAt(r, d, w, hasher, i);
      if IsFull(r'[i]) {
        DenseUpdate(r, w, hasher(d'[i]), i, s, t);
      }
    }
  }

  /** The tag that replaces an erased bucket's: a tombstone if the test asks for one. */
  function ErasedTag(before: seq<Tag>, after: seq<Tag>): Tag {
    if NeedsTombstone(before, after) then DELETED else EMPTY
  }

  /** Erasing with the tag the tombstone test picks cuts no element's search path. */
  lemma EraseKeeps<T>(r: seq<Tag>, d: seq<T>, w: nat, hasher: T -> Hash, s: nat, before: seq<Tag>, after: seq<Tag>)
    requires Geometry(|r|, w) && Placed(r, d, w, hasher) && s < |r| && IsFull(r[s])
    requires Shows(before, r, w, Mask(s - w, |r|)) && Shows(after, r, w, s)
    ensures var t := ErasedTag(before, after);
            Placed(r[s := t], d, w, hasher) && Reach(r[s := t], w, hasher(d[s]), s)
  {
    var t := ErasedTag(before, after);
    TombstoneExact(before, after, r, w, s);
    var r' := r[s := t];
    assert PlacedAt(r, d, w, hasher, s);
    ReachUpdate(r, w, hasher(d[s]), s, s, t);
    forall i | 0 <= i < |r|
      ensures PlacedAt(r', d, w, hasher, i)
    {
      assert PlacedAt(r, d, w, hasher, i);
      if IsFull(r'[i]) {
        ReachUpdate(r, w, hasher(d[i]), i, s, t);
      }
    }
  }

  /** Once a search has stopped, every element it was looking for has been shown by some window. */
  lemma SearchComplete(r: seq<Tag>, w: nat, h: nat, i: nat, k: nat)
    requires Geometry(|r|, w) && Reach(r, w, h, i) && SeesEmpty(r, w, ProbePos(|r|, w, h, k))
    ensures exists j: nat :: j <= k && InWindow(|r|, w, ProbePos(|r|, w, h, j), i)
  {
    var j: nat :| ReachedAt(r, w, h, i, j);
    assert j <= k && InWindow(|r|, w, ProbePos(|r|, w, h, j), i);
  }

  /** A search cannot pass all the windows while an EMPTY bucket exists. */
  lemma SearchStops(r: seq<Tag>, w: nat, h: nat, k: nat, e: nat)
    requires Geometry(|r|, w) && e < |r| && r[e] == EMPTY
    requires Passed(r, w, h, k) && !SeesEmpty(r, w, ProbePos(|r|, w, h, k))
    ensures Passed(r, w, h, k + 1) && k + 1 < Groups(|r|, w)
  {
    var j := ProbeCovers(|r|, w, h, e);
    assert EmptyIn(r, w, ProbePos(|r|, w, h, j), e);
  }

  lemma SlotSearchStops(r: seq<Tag>, w: nat, h: nat, k: nat, e: nat)
    requires Geometry(|r|, w) && e < |r| && !IsFull(r[e])
    requires Crowded(r, w, h, k) && !SeesSpecial(r, w, ProbePos(|r|, w, h, k))
    ensures Crowded(r, w, h, k + 1) && k + 1 < Groups(|r|, w)
  {
    var j := ProbeCovers(|r|, w, h, e);
    assert SpecialIn(r, w, ProbePos(|r|, w, h, j), e);
  }

  // ----- Counting

  /** The number of buckets at or after index `at` that carry the tag t. */
  function CountFrom(r: seq<Tag>, t: Tag, at: nat): nat
    requires at <= |r|
    decreases |r| - at
  {
    if at == |r| then 0 else (if r[at] == t then 1 else 0) + CountFrom(r, t, at + 1)
  }

  function Empties(r: seq<Tag>): nat {
    CountFrom(r, EMPTY, 0)
  }

  function Tombs(r: seq<Tag>): nat {
    CountFrom(r, DELETED, 0)
  }

  /** The number of full buckets at or after index `at`. */
  function FullsFrom(r: seq<Tag>, at: nat): nat
    requires at <= |r|
    decreases |r| - at
  {
    if at == |r| then 0 else (if IsFull(r[at]) then 1 else 0) + FullsFrom(r, at + 1)
  }

  function Fulls(r: seq<Tag>): nat {
    FullsFrom(r, 0)
  }

  lemma {:induction false} FullsFromCount(r: seq<Tag>, at: nat)
    requires at <= |r|
    ensures FullsFrom(r, at) + CountFrom(r, EMPTY, at) + CountFrom(r, DELETED, at) == |r| - at
    decreases |r| - at
  {
    if at < |r| {
      FullsFromCount(r, at + 1);
    }
  }

  lemma FullsCount(r: seq<Tag>)
    ensures Fulls(r) + Empties(r) + Tombs(r) == |r|
  {
    FullsFromCount(r, 0);
  }

  lemma {:induction false} CountFromUpdate(r: seq<Tag>, u: Tag, at: nat, s: nat, t: Tag)
    requires at <= |r| && s < |r|
    ensures CountFrom(r[s := t], u, at) == CountFrom(r, u, at)
      + (if at <= s && t == u then 1 else 0) - (if at <= s && r[s] == u then 1 else 0)
    decreases |r| - at
  {
    if at < |r| {
      CountFromUpdate(r, u, at + 1, s, t);
    }
  }

  lemma {:induction false} CountFromNone(r: seq<Tag>, t: Tag, at: nat)
    requires at <= |r|
    ensures CountFrom(r, t, at) == 0 <==> forall i :: at <= i < |r| ==> r[i] != t
    decreases |r| - at
  {
    if at < |r| {
      CountFromNone(r, t, at + 1);
    }
  }

  lemma {:induction false} FullsFromUpdate(r: seq<Tag>, at: nat, s: nat, t: Tag)
    requires at <= |r| && s < |r|
    ensures FullsFrom(r[s := t], at) == FullsFrom(r, at)
      + (if at <= s && IsFull(t) then 1 else 0) - (if at <= s && IsFull(r[s]) then 1 else 0)
    decreases |r| - at
  {
    if at < |r| {
      FullsFromUpdate(r, at + 1, s, t);
    }
  }

  /** None of the buckets from a up to b is full. */
  ghost predicate NoneFull(r: seq<Tag>, a: nat, b: nat) {
    forall j: nat :: a <= j < b && j < |r| ==> NotFull(r, j)
  }

  lemma NoneFullSame(r: seq<Tag>, q: seq<Tag>, a: nat, b: nat)
    requires |r| == |q| && NoneFull(r, a, b) && forall j :: a <= j < |r| ==> r[j] == q[j]
    ensures NoneFull(q, a, b)
  {
    forall j: nat | a <= j < b && j < |q|
      ensures NotFull(q, j)
    {
      assert NotFull(r, j);
    }
  }

  predicate NotFull(r: seq<Tag>, j: nat)
    requires j < |r|
  {
    !IsFull(r[j])
  }

  lemma {:induction false} FullsFromNone(r: seq<Tag>, at: nat)
    requires at <= |r|
    ensures FullsFrom(r, at) == 0 <==> NoneFull(r, at, |r|)
    decreases |r| - at
  {
    if at < |r| {
      FullsFromNone(r, at + 1);
      assert NoneFull(r, at, |r|) ==> NotFull(r, at);
    }
  }

  lemma {:induction false} FullsFromSkip(r: seq<Tag>, at: nat, to: nat)
    requires at <= to <= |r| && NoneFull(r, at, to)
    ensures FullsFrom(r, at) == FullsFrom(r, to)
    decreases |r| - at
  {
    if at < to {
      assert NotFull(r, at);
      FullsFromSkip(r, at + 1, to);
    }
  }

  // ----- Contents

  ghost predicate HasSpecial(r: seq<Tag>) {
    exists e :: 0 <= e < |r| && !IsFull(r[e])
  }

  /** A bucket holds an element if it is full, or, during an in-place rehash, if it is marked DELETED. */
  predicate Live(t: Tag, rehash: bool) {
    IsFull(t) || (rehash && t == DELETED)
  }

  ghost function Held<T>(t: Tag, x: T, rehash: bool): multiset<T> {
    if Live(t, rehash) then multiset{x} else multiset{}
  }

  /** The elements of the first m buckets. */
  ghost function ElemsTo<T>(r: seq<Tag>, d: seq<T>, rehash: bool, m: nat): multiset<T>
    requires m <= |r| == |d|
  {
    if m == 0 then multiset{} else ElemsTo(r, d, rehash, m - 1) + Held(r[m - 1], d[m - 1], rehash)
  }

  ghost function Elems<T>(r: seq<Tag>, d: seq<T>, rehash: bool): multiset<T>
    requires |r| == |d|
  {
    ElemsTo(r, d, rehash, |r|)
  }

  lemma {:induction false} ElemsToHas<T>(r: seq<Tag>, d: seq<T>, rehash: bool, m: nat, i: nat)
    requires i < m <= |r| == |d| && Live(r[i], rehash)
    ensures d[i] in ElemsTo(r, d, rehash, m)
  {
    if i < m - 1 {
      ElemsToHas(r, d, rehash, m - 1, i);
    }
  }

  lemma ElemsHas<T>(r: seq<Tag>, d: seq<T>, rehash: bool, i: nat)
    requires i < |r| == |d| && Live(r[i], rehash)
    ensures d[i] in Elems(r, d, rehash)
  {
    ElemsToHas(r, d, rehash, |r|, i);
  }

  lemma InSum<T>(a: multiset<T>, b: multiset<T>, x: T)
    ensures x in a + b <==> x in a || x in b
  {
  }

  lemma {:induction false} ElemsToFrom<T>(r: seq<Tag>, d: seq<T>, rehash: bool, m: nat, x: T) returns (i: nat)
    requires m <= |r| == |d| && x in ElemsTo(r, d, rehash, m)
    ensures i < m && Live(r[i], rehash) && d[i] == x
  {
    assert m > 0;
    InSum(ElemsTo(r, d, rehash, m - 1), Held(r[m - 1], d[m - 1], rehash), x);
    if x in Held(r[m - 1], d[m - 1], rehash) {
      i := m - 1;
    } else {
      i := ElemsToFrom(r, d, rehash, m - 1, x);
    }
  }

  lemma ElemsFrom<T>(r: seq<Tag>, d: seq<T>, rehash: bool, x: T) returns (i: nat)
    requires |r| == |d| && x in Elems(r, d, rehash)
    ensures i < |r| && Live(r[i], rehash) && d[i] == x
  {
    i := ElemsToFrom(r, d, rehash, |r|, x);
  }

  /** Two live buckets with equal elements make the element occur twice. */
  lemma {:induction false} ElemsTwice<T>(r: seq<Tag>, d: seq<T>, rehash: bool, m: nat, i: nat, j: nat)
    requires i < j < m <= |r| == |d| && Live(r[i], rehash) && Live(r[j], rehash) && d[i] == d[j]
    ensures ElemsTo(r, d, rehash, m)[d[i]] >= 2
  {
    var x := d[i];
    assert ElemsTo(r, d, rehash, m)[x] == ElemsTo(r, d, rehash, m - 1)[x] + Held(r[m - 1], d[m - 1], rehash)[x];
    if j == m - 1 {
      ElemsToHas(r, d, rehash, m - 1, i);
    } else {
      ElemsTwice(r, d, rehash, m - 1, i, j);
    }
  }

  /** Only the first m buckets matter, and of those only which are live and with what. */
  lemma {:induction false} ElemsToSame<T>(r: seq<Tag>, d: seq<T>, q: seq<Tag>, e: seq<T>, rr: bool, qr: bool, m: nat)
    requires m <= |r| == |d| && m <= |q| == |e|
    requires forall i :: 0 <= i < m ==> (Live(r[i], rr) <==> Live(q[i], qr)) && d[i] == e[i]
    ensures ElemsTo(r, d, rr, m) == ElemsTo(q, e, qr, m)
  {
    if m > 0 {
      ElemsToSame(r, d, q, e, rr, qr, m - 1);
    }
  }

  lemma {:induction false} ElemsToUpdate<T>(
    r: seq<Tag>, d: seq<T>, q: seq<Tag>, e: seq<T>, rehash: bool, m: nat, s: nat, z: T)
    requires s < m <= |r| == |d| == |q| == |e|
    requires forall i :: 0 <= i < m && i != s ==> r[i] == q[i] && d[i] == e[i]
    ensures ElemsTo(q, e, rehash, m)[z] + Held(r[s], d[s], rehash)[z]
      == ElemsTo(r, d, rehash, m)[z] + Held(q[s], e[s], rehash)[z]
  {
    if s == m - 1 {
      ElemsToSame(r, d, q, e, rehash, rehash, m - 1);
    } else {
      ElemsToUpdate(r, d, q, e, rehash, m - 1, s, z);
      assert r[m - 1] == q[m - 1];
    }
  }

  /** Rewriting one bucket takes out what it held and puts in what it holds now. */
  lemma ElemsUpdate<T>(r: seq<Tag>, d: seq<T>, rehash: bool, s: nat, t: Tag, x: T)
    requires s < |r| == |d|
    ensures Held(r[s], d[s], rehash) <= Elems(r, d, rehash)
    ensures Elems(r[s := t], d[s := x], rehash)
      == Elems(r, d, rehash) - Held(r[s], d[s], rehash) + Held(t, x, rehash)
  {
    var before, out, put := Elems(r, d, rehash), Held(r[s], d[s], rehash), Held(t, x, rehash);
    var after := Elems(r[s := t], d[s := x], rehash);
    if Live(r[s], rehash) {
      ElemsHas(r, d, rehash, s);
    }
    forall z
      ensures after[z] + out[z] == before[z] + put[z]
    {
      ElemsToUpdate(r, d, r[s := t], d[s := x], rehash, |r|, s, z);
    }
    Exchange(after, out, before, put);
  }

  lemma Exchange<T>(after: multiset<T>, out: multiset<T>, before: multiset<T>, put: multiset<T>)
    requires out <= before && forall z :: after[z] + out[z] == before[z] + put[z]
    ensures after == before - out + put
  {
  }

  lemma {:induction false} ElemsToSize<T>(r: seq<Tag>, d: seq<T>, m: nat)
    requires m <= |r| == |d|
    ensures |ElemsTo(r, d, false, m)| + FullsFrom(r, m) == Fulls(r)
  {
    if m > 0 {
      ElemsToSize(r, d, m - 1);
      assert |Held(r[m - 1], d[m - 1], false)| == if IsFull(r[m - 1]) then 1 else 0;
    }
  }

  lemma {:induction false} ElemsToNone<T>(r: seq<Tag>, d: seq<T>, rehash: bool, m: nat)
    requires m <= |r| == |d| && forall i :: 0 <= i < m ==> !Live(r[i], rehash)
    ensures ElemsTo(r, d, rehash, m) == multiset{}
  {
    if m > 0 {
      ElemsToNone(r, d, rehash, m - 1);
    }
  }

  // ----- The invariant of a table at rest

  ghost predicate Inv<T>(r: seq<Tag>, d: seq<T>, w: nat, hasher: T -> Hash, growthLeft: nat, items: nat) {
    && Geometry(|r|, w)
    && Placed(r, d, w, hasher)
    && items == Fulls(r)
    && items + Tombs(r) + growthLeft == BucketMaskToCapacity(|r| - 1)
    && (|r| < w ==> Tombs(r) == 0)
  }

  /** Some bucket is always EMPTY, so that every search stops. */
  lemma InvHasEmpty<T>(r: seq<Tag>, d: seq<T>, w: nat, hasher: T -> Hash, growthLeft: nat, items: nat) returns (e: nat)
    requires Inv(r, d, w, hasher, growthLeft, items)
    ensures e < |r| && r[e] == EMPTY
  {
    FullsCount(r);
    CapacityBounds(|r|);
    CountFromNone(r, EMPTY, 0);
    e :| 0 <= e < |r| && r[e] == EMPTY;
  }

  /** Slots are conserved: the EMPTY bytes are the free capacity plus the load-factor reserve. */
  lemma InvEmpties<T>(r: seq<Tag>, d: seq<T>, w: nat, hasher: T -> Hash, growthLeft: nat, items: nat)
    requires Inv(r, d, w, hasher, growthLeft, items)
    ensures Empties(r) == growthLeft + (|r| - BucketMaskToCapacity(|r| - 1))
    ensures items == |Elems(r, d, false)|
  {
    FullsCount(r);
    ElemsToSize(r, d, |r|);
  }

  lemma CountUpdate(r: seq<Tag>, s: nat, t: Tag)
    requires s < |r|
    ensures Fulls(r[s := t]) == Fulls(r) + (if IsFull(t) then 1 else 0) - (if IsFull(r[s]) then 1 else 0)
    ensures Tombs(r[s := t]) == Tombs(r) + (if t == DELETED then 1 else 0) - (if r[s] == DELETED then 1 else 0)
  {
    FullsFromUpdate(r, 0, s, t);
    CountFromUpdate(r, DELETED, 0, s, t);
  }

  /** Filling a free bucket on the element's search path, and paying for it if it was EMPTY, keeps the invariant. */
  lemma InsertInv<T>(r: seq<Tag>, d: seq<T>, w: nat, hasher: T -> Hash, growthLeft: nat, items: nat, s: nat, x: T,
                     used: nat)
    requires Inv(r, d, w, hasher, growthLeft, items)
    requires s < |r| && !IsFull(r[s]) && Reach(r, w, hasher(x), s)
    requires used == (if r[s] == EMPTY then 1 else 0) && used <= growthLeft
    ensures Inv(r[s := FullTag(hasher(x))], d[s := x], w, hasher, growthLeft - used, items + 1)
    ensures Elems(r[s := FullTag(hasher(x))], d[s := x], false) == Elems(r, d, false) + multiset{x}
  {
    PlaceNew(r, d, w, hasher, s, x);
    CountUpdate(r, s, FullTag(hasher(x)));
    ElemsUpdate(r, d, false, s, FullTag(hasher(x)), x);
    if |r| < w {
      TombsNone(r, s);
    }
  }

  lemma TombsNone(r: seq<Tag>, s: nat)
    requires s < |r| && Tombs(r) == 0
    ensures r[s] != DELETED
  {
    CountFromNone(r, DELETED, 0);
  }

  /** Erasing keeps the invariant, and the freed bucket stays on the search path of what it held. */
  lemma EraseInv<T>(r: seq<Tag>, d: seq<T>, w: nat, hasher: T -> Hash, growthLeft: nat, items: nat, s: nat,
                    before: seq<Tag>, after: seq<Tag>, t: Tag, freed: nat)
    requires Inv(r, d, w, hasher, growthLeft, items) && s < |r| && IsFull(r[s])
    requires Shows(before, r, w, Mask(s - w, |r|)) && Shows(after, r, w, s)
    requires t == ErasedTag(before, after) && freed == if t == EMPTY then 1 else 0
    ensures items > 0 && Inv(r[s := t], d, w, hasher, growthLeft + freed, items - 1)
    ensures Elems(r, d, false) == Elems(r[s := t], d, false) + multiset{d[s]}
    ensures Reach(r[s := t], w, hasher(d[s]), s)
    ensures t == if PassedOver(r, w, s) then DELETED else EMPTY
  {
    EraseKeeps(r, d, w, hasher, s, before, after);
    TombstoneExact(before, after, r, w, s);
    CountUpdate(r, s, t);
    ElemsUpdate(r, d, false, s, t, d[s]);
    assert d[s := d[s]] == d;
  }

  lemma {:induction false} ElemsToSkip<T>(r: seq<Tag>, d: seq<T>, at: nat, end: nat)
    requires at <= end <= |r| == |d| && NoneFull(r, at, end)
    ensures ElemsTo(r, d, false, end) == ElemsTo(r, d, false, at)
    decreases end
  {
    if at < end {
      assert NotFull(r, end - 1);
      ElemsToSkip(r, d, at, end - 1);
    }
  }
}
