/** Filling a new table, from an old one during a resize or from its original during a clone. */
module FillSpec {
  import opened Capacity
  import opened Control
  import opened Group
  import opened Probe
  import opened TableSpec

  /** Control bytes that are all EMPTY are laid out right, for any number of buckets. */
  lemma EmptyControl(c: seq<Tag>, n: nat, w: nat)
    requires Geometry(n, w) && |c| == n + w && forall i :: 0 <= i < n + w ==> c[i] == EMPTY
    ensures Mirrors(c, c[..n], w) && forall i :: 0 <= i < n ==> c[..n][i] == EMPTY
  {
    forall i | 0 <= i < n + w
      ensures MirrorAt(c, c[..n], w, i)
    {
    }
  }

  /** A table without elements or tombstones satisfies the invariant. */
  lemma EmptyInv<T>(r: seq<Tag>, d: seq<T>, w: nat, hasher: T -> Hash)
    requires Geometry(|r|, w) && |d| == |r| && forall i :: 0 <= i < |r| ==> r[i] == EMPTY
    ensures Inv(r, d, w, hasher, BucketMaskToCapacity(|r| - 1), 0) && Elems(r, d, false) == multiset{}
    ensures Fulls(r) == 0 && Tombs(r) == 0
  {
    FullsFromNone(r, 0);
    ElemsToNone(r, d, false, |r|);
    CountFromNone(r, DELETED, 0);
    forall i | 0 <= i < |r|
      ensures PlacedAt(r, d, w, hasher, i)
    {
    }
  }

  // ----- Filling a new table

  /** The new table q, e holds the elements of the first `at` buckets of the old table r, d, and no tombstones. */
  ghost predicate Filling<T>(q: seq<Tag>, e: seq<T>, w: nat, hasher: T -> Hash, r: seq<Tag>, d: seq<T>, at: nat) {
    && Geometry(|q|, w) && at <= |r| == |d|
    && DenselyPlaced(q, e, w, hasher)
    && Tombs(q) == 0
    && Fulls(q) + FullsFrom(r, at) == Fulls(r)
    && Elems(q, e, false) == ElemsTo(r, d, false, at)
  }

  lemma FillingStart<T>(q: seq<Tag>, e: seq<T>, w: nat, hasher: T -> Hash, r: seq<Tag>, d: seq<T>)
    requires Geometry(|q|, w) && |q| == |e| && |r| == |d| && forall i :: 0 <= i < |q| ==> q[i] == EMPTY
    ensures Filling(q, e, w, hasher, r, d, 0)
  {
    EmptyInv(q, e, w, hasher);
    forall i | 0 <= i < |q|
      ensures DenselyPlacedAt(q, e, w, hasher, i)
    {
    }
  }

  lemma FillingRoom<T>(q: seq<Tag>, e: seq<T>, w: nat, hasher: T -> Hash, r: seq<Tag>, d: seq<T>, at: nat, i: nat)
    requires Filling(q, e, w, hasher, r, d, at) && Fulls(r) < |q|
    requires at <= i < |r| && IsFull(r[i])
    ensures HasSpecial(q)
  {
    FullsCount(q);
    CountFromNone(q, EMPTY, 0);
  }

  lemma FillingStep<T>(
    q: seq<Tag>, e: seq<T>, w: nat, hasher: T -> Hash, r: seq<Tag>, d: seq<T>, at: nat, i: nat, s: nat)
    requires Filling(q, e, w, hasher, r, d, at)
    requires at <= i < |r| && IsFull(r[i]) && NoneFull(r, at, i)
    requires s < |q| && !IsFull(q[s]) && Dense(q, w, hasher(d[i]), s)
    ensures Filling(q[s := FullTag(hasher(d[i]))], e[s := d[i]], w, hasher, r, d, i + 1)
  {
    var t := FullTag(hasher(d[i]));
    TombsNone(q, s);
    PlaceDense(q, e, w, hasher, s, d[i]);
    CountUpdate(q, s, t);
    ElemsUpdate(q, e, false, s, t, d[i]);
    ElemsToSkip(r, d, at, i);
    FullsFromSkip(r, at, i);
  }

  lemma FillingDone<T>(q: seq<Tag>, e: seq<T>, w: nat, hasher: T -> Hash, r: seq<Tag>, d: seq<T>, at: nat)
    requires Filling(q, e, w, hasher, r, d, at) && NoneFull(r, at, |r|)
    ensures Placed(q, e, w, hasher) && Fulls(q) == Fulls(r) && Elems(q, e, false) == Elems(r, d, false)
  {
    DenselyPlacedPlaced(q, e, w, hasher);
    FullsFromNone(r, at);
    ElemsToSkip(r, d, at, |r|);
  }

  // ----- Cloning

  /** Elements matter only where a bucket is full. */
  lemma ClonedInv<T>(r: seq<Tag>, d: seq<T>, e: seq<T>, w: nat, hasher: T -> Hash, growthLeft: nat, items: nat)
    requires Inv(r, d, w, hasher, growthLeft, items) && |e| == |d|
    requires Copied(r, d, e, |r|)
    ensures Inv(r, e, w, hasher, growthLeft, items) && Elems(r, e, false) == Elems(r, d, false)
  {
    forall i | 0 <= i < |r|
      ensures PlacedAt(r, e, w, hasher, i)
    {
      assert PlacedAt(r, d, w, hasher, i) && CopiedAt(r, d, e, i);
    }
    ElemsToAgree(r, d, e, |r|);
  }

  /** The full buckets below m hold copies. */
  ghost predicate Copied<T>(r: seq<Tag>, d: seq<T>, e: seq<T>, m: nat)
    requires m <= |r| == |d| == |e|
  {
    forall j :: 0 <= j < m ==> CopiedAt(r, d, e, j)
  }

  ghost predicate CopiedAt<T>(r: seq<Tag>, d: seq<T>, e: seq<T>, j: nat)
    requires j < |r| == |d| == |e|
  {
    IsFull(r[j]) ==> e[j] == d[j]
  }

  lemma CopiedNext<T>(r: seq<Tag>, d: seq<T>, e: seq<T>, m: nat, i: nat)
    requires i < m <= |r| == |d| == |e| && Copied(r, d, e, m)
    ensures ElemsTo(r, d, false, i + 1) ==
      if IsFull(r[i]) then ElemsTo(r, d, false, i) + multiset{e[i]} else ElemsTo(r, d, false, i)
  {
    assert CopiedAt(r, d, e, i);
  }

  lemma CopiedStep<T>(r: seq<Tag>, d: seq<T>, e: seq<T>, m: nat, i: nat)
    requires m <= i < |r| == |d| == |e| && IsFull(r[i]) && NoneFull(r, m, i)
    requires Copied(r, d, e, m)
    ensures Copied(r, d, e[i := d[i]], i + 1)
    ensures |ElemsTo(r, d, false, i + 1)| == |ElemsTo(r, d, false, m)| + 1
  {
    ElemsToSkip(r, d, m, i);
    var e' := e[i := d[i]];
    forall j | 0 <= j <= i
      ensures CopiedAt(r, d, e', j)
    {
      assert if j < m then CopiedAt(r, d, e, j) else j == i || NotFull(r, j);
    }
  }

  lemma CopiedAll<T>(r: seq<Tag>, d: seq<T>, e: seq<T>, m: nat)
    requires m <= |r| == |d| == |e| && Copied(r, d, e, m) && NoneFull(r, m, |r|)
    ensures Copied(r, d, e, |r|)
  {
    forall j | 0 <= j < |r|
      ensures CopiedAt(r, d, e, j)
    {
      assert if j < m then CopiedAt(r, d, e, j) else NotFull(r, j);
    }
  }

  /** These are the first `count` elements in the order of the buckets. */
  ghost predicate ClonedPrefix<T>(dropped: multiset<T>, r: seq<Tag>, d: seq<T>, count: nat)
    requires |r| == |d|
  {
    exists at :: 0 <= at <= |r| && dropped == ElemsTo(r, d, false, at) && |dropped| == count
  }

  lemma {:induction false} ElemsToAgree<T>(r: seq<Tag>, d: seq<T>, e: seq<T>, m: nat)
    requires m <= |r| == |d| == |e| && Copied(r, d, e, m)
    ensures ElemsTo(r, e, false, m) == ElemsTo(r, d, false, m)
  {
    if m > 0 {
      assert CopiedAt(r, d, e, m - 1);
      ElemsToAgree(r, d, e, m - 1);
    }
  }
}
