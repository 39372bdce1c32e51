/** The steps of an in-place rehash, on values. */
module RehashSpec {
  import opened Group
  import opened Probe
  import opened TableSpec

  /** All tags after every full bucket has been marked as waiting and every tombstone cleared. */
  function Prepared(r: seq<Tag>): (q: seq<Tag>)
    ensures |q| == |r| && forall i :: 0 <= i < |r| ==> q[i] == ConvertSpecial(r[i])
  {
    seq(|r|, i requires 0 <= i < |r| => ConvertSpecial(r[i]))
  }

  lemma {:induction false} PreparedCounts(r: seq<Tag>, q: seq<Tag>, at: nat)
    requires at <= |r| == |q| && forall i :: 0 <= i < |r| ==> q[i] == ConvertSpecial(r[i])
    ensures FullsFrom(q, at) == 0 && CountFrom(q, DELETED, at) == FullsFrom(r, at)
    decreases |r| - at
  {
    if at < |r| {
      PreparedCounts(r, q, at + 1);
    }
  }

  /** Full buckets are placed for good, DELETED buckets hold elements still waiting, EMPTY buckets are free. */
  ghost predicate Rehashing<T>(r: seq<Tag>, d: seq<T>, w: nat, hasher: T -> Hash, items: nat, contents: multiset<T>) {
    && Geometry(|r|, w)
    && DenselyPlaced(r, d, w, hasher)
    && Fulls(r) + Tombs(r) == items
    && Elems(r, d, true) == contents
  }

  /** No settled bucket has been unsettled. */
  ghost predicate Advanced(r: seq<Tag>, q: seq<Tag>) {
    |r| == |q| && forall j :: 0 <= j < |r| ==> StaysSettled(r, q, j)
  }

  predicate StaysSettled(r: seq<Tag>, q: seq<Tag>, j: nat)
    requires j < |r| == |q|
  {
    r[j] != DELETED ==> q[j] != DELETED
  }

  /** The first m buckets are settled. */
  ghost predicate SettledBelow(r: seq<Tag>, m: nat) {
    m <= |r| && forall j :: 0 <= j < m ==> SettledAt(r, j)
  }

  predicate SettledAt(r: seq<Tag>, j: nat)
    requires j < |r|
  {
    r[j] != DELETED
  }

  lemma AdvancedTwice(r: seq<Tag>, q: seq<Tag>, p: seq<Tag>)
    requires Advanced(r, q) && Advanced(q, p)
    ensures Advanced(r, p)
  {
    forall j | 0 <= j < |r|
      ensures StaysSettled(r, p, j)
    {
      assert StaysSettled(r, q, j) && StaysSettled(q, p, j);
    }
  }

  lemma AdvancedSettles(r: seq<Tag>, q: seq<Tag>, i: nat)
    requires Advanced(r, q) && SettledBelow(r, i) && i < |r| && q[i] != DELETED
    ensures SettledBelow(q, i + 1)
  {
    forall j | 0 <= j <= i
      ensures SettledAt(q, j)
    {
      assert j < i ==> SettledAt(r, j);
      assert StaysSettled(r, q, j);
    }
  }

  lemma PrepareStarts<T>(r: seq<Tag>, d: seq<T>, w: nat, hasher: T -> Hash)
    requires Geometry(|r|, w) && |d| == |r|
    ensures Rehashing(Prepared(r), d, w, hasher, Fulls(r), Elems(r, d, false))
    ensures Fulls(Prepared(r)) == 0
  {
    var q := Prepared(r);
    PreparedCounts(r, q, 0);
    ElemsToSame(q, d, r, d, true, false, |r|);
    forall i | 0 <= i < |q|
      ensures DenselyPlacedAt(q, d, w, hasher, i)
    {
    }
  }

  /** Leaving an element where it is, because its bucket and the best free one share a group. */
  lemma RehashStay<T>(
    r: seq<Tag>, d: seq<T>, w: nat, hasher: T -> Hash, items: nat, contents: multiset<T>, i: nat, s: nat)
    requires Rehashing(r, d, w, hasher, items, contents)
    requires i < |r| && s < |r| && r[i] == DELETED && Dense(r, w, hasher(d[i]), s)
    requires GroupOf(|r|, w, hasher(d[i]), s) == GroupOf(|r|, w, hasher(d[i]), i)
    ensures Rehashing(r[i := FullTag(hasher(d[i]))], d, w, hasher, items, contents)
    ensures Fulls(r[i := FullTag(hasher(d[i]))]) == Fulls(r) + 1
  {
    var h := hasher(d[i]);
    var k: nat :| DenseAt(r, w, h, s, k);
    SameGroup(|r|, w, h, k, s, i);
    assert DenseAt(r, w, h, i, k);
    PlaceDense(r, d, w, hasher, i, d[i]);
    CountUpdate(r, i, FullTag(h));
    ElemsUpdate(r, d, true, i, FullTag(h), d[i]);
    assert d[i := d[i]] == d;
  }

  /** Moving an element to an EMPTY bucket. */
  lemma RehashMove<T>(
    r: seq<Tag>, d: seq<T>, w: nat, hasher: T -> Hash, items: nat, contents: multiset<T>, i: nat, s: nat)
    requires Rehashing(r, d, w, hasher, items, contents)
    requires i < |r| && r[i] == DELETED && s < |r| && r[s] == EMPTY && Dense(r, w, hasher(d[i]), s)
    ensures Rehashing(r[s := FullTag(hasher(d[i]))][i := EMPTY], d[s := d[i]], w, hasher, items, contents)
    ensures Fulls(r[s := FullTag(hasher(d[i]))][i := EMPTY]) == Fulls(r) + 1
  {
    var t, x := FullTag(hasher(d[i])), d[i];
    var r1, d1 := r[s := t], d[s := x];
    PlaceDense(r, d, w, hasher, s, x);
    CountUpdate(r, s, t);
    ElemsUpdate(r, d, true, s, t, x);
    ClearWaiting(r1, d1, w, hasher, i);
    assert d1[i] == x;
  }

  /** Clearing the mark of a bucket whose element has left. */
  lemma ClearWaiting<T>(r: seq<Tag>, d: seq<T>, w: nat, hasher: T -> Hash, i: nat)
    requires Geometry(|r|, w) && DenselyPlaced(r, d, w, hasher) && i < |r| && r[i] == DELETED
    ensures DenselyPlaced(r[i := EMPTY], d, w, hasher)
    ensures Fulls(r[i := EMPTY]) == Fulls(r) && Tombs(r[i := EMPTY]) == Tombs(r) - 1
    ensures Elems(r[i := EMPTY], d, true) == Elems(r, d, true) - multiset{d[i]} && d[i] in Elems(r, d, true)
  {
    var q := r[i := EMPTY];
    forall j | 0 <= j < |q|
      ensures DenselyPlacedAt(q, d, w, hasher, j)
    {
      assert DenselyPlacedAt(r, d, w, hasher, j);
      if IsFull(q[j]) {
        DenseUpdate(r, w, hasher(d[j]), j, i, EMPTY);
      }
    }
    CountUpdate(r, i, EMPTY);
    ElemsUpdate(r, d, true, i, EMPTY, d[i]);
    ElemsHas(r, d, true, i);
    assert d[i := d[i]] == d;
  }

  /** Trading places with an element that is waiting too. */
  lemma RehashSwap<T>(
    r: seq<Tag>, d: seq<T>, w: nat, hasher: T -> Hash, items: nat, contents: multiset<T>, i: nat, s: nat)
    requires Rehashing(r, d, w, hasher, items, contents)
    requires i < |r| && r[i] == DELETED && s < |r| && s != i && r[s] == DELETED && Dense(r, w, hasher(d[i]), s)
    ensures Rehashing(r[s := FullTag(hasher(d[i]))], d[s := d[i]][i := d[s]], w, hasher, items, contents)
    ensures Fulls(r[s := FullTag(hasher(d[i]))]) == Fulls(r) + 1
    ensures Tombs(r[s := FullTag(hasher(d[i]))]) == Tombs(r) - 1
  {
    var t, x, y := FullTag(hasher(d[i])), d[i], d[s];
    var r1, d1 := r[s := t], d[s := x];
    PlaceDense(r, d, w, hasher, s, x);
    CountUpdate(r, s, t);
    ElemsUpdate(r, d, true, s, t, x);
    ReplaceWaiting(r1, d1, w, hasher, i, y);
    ElemsHas(r, d, true, s);
    SwapBack(contents, x, y);
  }

  /** What a waiting bucket holds is of no concern to the placed ones. */
  lemma ReplaceWaiting<T>(r: seq<Tag>, d: seq<T>, w: nat, hasher: T -> Hash, i: nat, y: T)
    requires DenselyPlaced(r, d, w, hasher) && i < |r| && r[i] == DELETED
    ensures DenselyPlaced(r, d[i := y], w, hasher)
    ensures Elems(r, d[i := y], true) == Elems(r, d, true) - multiset{d[i]} + multiset{y}
  {
    var d' := d[i := y];
    forall j | 0 <= j < |r|
      ensures DenselyPlacedAt(r, d', w, hasher, j)
    {
      assert DenselyPlacedAt(r, d, w, hasher, j);
    }
    ElemsUpdate(r, d, true, i, DELETED, y);
    assert r[i := DELETED] == r;
  }

  lemma SwapBack<T>(c: multiset<T>, x: T, y: T)
    requires y in c
    ensures c - multiset{y} + multiset{x} - multiset{x} + multiset{y} == c
  {
  }

  /** Without waiting elements left, the table is at rest. */
  lemma RehashDone<T>(r: seq<Tag>, d: seq<T>, w: nat, hasher: T -> Hash, items: nat, contents: multiset<T>)
    requires Rehashing(r, d, w, hasher, items, contents) && SettledBelow(r, |r|)
    ensures Placed(r, d, w, hasher) && items == Fulls(r) && Tombs(r) == 0 && Elems(r, d, false) == contents
  {
    DenselyPlacedPlaced(r, d, w, hasher);
    NoWaiting(r);
    CountFromNone(r, DELETED, 0);
    ElemsToSame(r, d, r, d, true, false, |r|);
  }

  lemma NoWaiting(r: seq<Tag>)
    requires SettledBelow(r, |r|)
    ensures Tombs(r) == 0
  {
    assert forall i :: 0 <= i < |r| && SettledAt(r, i) ==> r[i] != DELETED;
    CountFromNone(r, DELETED, 0);
  }

  lemma WaitingCounts(r: seq<Tag>, i: nat)
    requires i < |r| && r[i] == DELETED
    ensures Tombs(r) > 0 && HasSpecial(r)
  {
    CountFromNone(r, DELETED, 0);
  }

  /** The elements of the first m buckets that are still waiting. */
  ghost function Waiting<T>(r: seq<Tag>, d: seq<T>, m: nat): multiset<T>
    requires m <= |r| == |d|
  {
    if m == 0 then multiset{}
    else Waiting(r, d, m - 1) + if r[m - 1] == DELETED then multiset{d[m - 1]} else multiset{}
  }

  lemma {:induction false} WaitingSplit<T>(r: seq<Tag>, d: seq<T>, m: nat)
    requires m <= |r| == |d|
    ensures ElemsTo(r, d, true, m) == ElemsTo(r, d, false, m) + Waiting(r, d, m)
  {
    if m > 0 {
      WaitingSplit(r, d, m - 1);
      Regroup(ElemsTo(r, d, false, m - 1), Waiting(r, d, m - 1), Held(r[m - 1], d[m - 1], false),
              if r[m - 1] == DELETED then multiset{d[m - 1]} else multiset{});
    }
  }

  lemma {:induction false} WaitingSize<T>(r: seq<Tag>, d: seq<T>, m: nat)
    requires m <= |r| == |d|
    ensures |Waiting(r, d, m)| + CountFrom(r, DELETED, m) == Tombs(r)
  {
    if m > 0 {
      WaitingSize(r, d, m - 1);
    }
  }

  lemma Regroup<T>(a: multiset<T>, b: multiset<T>, x: multiset<T>, y: multiset<T>)
    ensures (a + b) + (x + y) == (a + x) + (b + y)
  {
  }

  /** One more element given up. */
  lemma GiveUp<T>(kept: multiset<T>, lost: multiset<T>, x: T)
    requires x in kept
    ensures (kept - multiset{x}) + (lost + multiset{x}) == kept + lost && |lost + multiset{x}| == |lost| + 1
  {
  }

  /** Keeping the waiting marks as tombstones leaves the item count too high. */
  lemma GuardIncomplete<T>(r: seq<Tag>, d: seq<T>, w: nat, hasher: T -> Hash, items: nat, contents: multiset<T>)
    requires Rehashing(r, d, w, hasher, items, contents)
    ensures items == Fulls(r) <==> Tombs(r) == 0
    ensures Tombs(r) == 0 ==> Placed(r, d, w, hasher)
  {
    DenselyPlacedPlaced(r, d, w, hasher);
  }
}
