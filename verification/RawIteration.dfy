/** Iteration over the full buckets of a table. */
module RawIteration {
  import opened Control
  import opened Group
  import opened Probe
  import opened TableSpec
  import opened Wrappers

  /** The iterator has yielded every full bucket below `at` and holds the rest of the group at `first`. */
  ghost predicate IterAt(group: BitMask, first: nat, items: nat, at: nat, step: nat, r: seq<Tag>, w: nat) {
    && w > 0 && first == Stride(w, step) && step < Groups(|r|, w)
    && first <= at <= |r| && at <= first + w == first + |group|
    && items == FullsFrom(r, at)
    && forall b :: 0 <= b < w ==> (group[b] <==> at <= first + b < |r| && IsFull(r[first + b]))
  }

  lemma {:induction false} StrideMono(w: nat, a: nat, b: nat)
    requires a < b
    ensures Stride(w, a) + w <= Stride(w, b)
    decreases b
  {
    if a < b - 1 {
      StrideMono(w, a, b - 1);
    }
  }

  /** The groups of a large table end where the table does. */
  lemma GroupsEnd(n: nat, w: nat)
    requires Geometry(n, w) && w <= n
    ensures Stride(w, Groups(n, w)) == n
  {
    GroupsMul(n, w);
    StrideClosed(w, Groups(n, w));
  }

  /** While elements remain there is a next group, and it lies inside the table. */
  lemma GroupFollows(group: BitMask, first: nat, items: nat, at: nat, step: nat, r: seq<Tag>, w: nat)
    requires Geometry(|r|, w) && IterAt(group, first, items, at, step, r, w) && items > 0 && !AnyBitSet(group)
    ensures step + 1 < Groups(|r|, w) && first + w < |r|
    ensures Stride(w, step + 1) == first + w && FullsFrom(r, first + w) == items
    ensures NoneFull(r, at, first + w)
  {
    forall j | at <= j < first + w && j < |r|
      ensures !IsFull(r[j])
    {
      assert !group[j - first];
    }
    FullsFromNone(r, at);
    var i :| at <= i < |r| && IsFull(r[i]);
    GroupsEnd(|r|, w);
    assert Stride(w, step + 1) == first + w;
    if step + 1 != Groups(|r|, w) {
      StrideMono(w, step + 1, Groups(|r|, w));
    }
    FullsFromSkip(r, at, first + w);
  }

  /** Taking the lowest lane off the group yields the next full bucket. */
  lemma IterYield(group: BitMask, first: nat, items: nat, at: nat, step: nat, r: seq<Tag>, w: nat)
    requires IterAt(group, first, items, at, step, r, w) && AnyBitSet(group)
    ensures var i := first + LowestSetBit(group).value;
            && at <= i < |r| && IsFull(r[i]) && NoneFull(r, at, i) && items > 0
            && IterAt(RemoveLowestBit(group), first, items - 1, i + 1, step, r, w)
  {
    var i := first + LowestSetBit(group).value;
    forall j | at <= j < i
      ensures !IsFull(r[j])
    {
      assert !group[j - first];
    }
    FullsFromSkip(r, at, i);
  }

  /** A freshly loaded group continues the iteration at its first lane. */
  lemma GroupLoaded(c: seq<Tag>, r: seq<Tag>, w: nat, step: nat, first: nat)
    requires Geometry(|r|, w) && Mirrors(c, r, w) && step < Groups(|r|, w) && first == Stride(w, step)
    ensures first + w <= |c| && first < |r|
    ensures IterAt(MatchFull(c[first..first + w]), first, FullsFrom(r, first), first, step, r, w)
  {
    if w <= |r| {
      GroupsEnd(|r|, w);
      StrideMono(w, step, Groups(|r|, w));
    }
    var group := c[first..first + w];
    forall b | 0 <= b < w
      ensures group[b] == ByteAt(r, w, first + b)
    {
      assert MirrorAt(c, r, w, first + b);
    }
  }

  /** Erasing a bucket that has been yielded already does not disturb the iterator. */
  lemma IterErased(group: BitMask, first: nat, items: nat, at: nat, step: nat, r: seq<Tag>, w: nat, i: nat, t: Tag)
    requires IterAt(group, first, items, at, step, r, w) && i < at
    ensures IterAt(group, first, items, at, step, r[i := t], w)
  {
    FullsFromUpdate(r, at, i, t);
  }

  /** The full buckets from a to b, in ascending order. */
  ghost function FullBetween(r: seq<Tag>, a: nat, b: nat): seq<nat>
    requires a <= b <= |r|
    decreases b - a
  {
    if a == b then []
    else if IsFull(r[a]) then [a] + FullBetween(r, a + 1, b)
    else FullBetween(r, a + 1, b)
  }

  lemma {:induction false} FullBetweenSkip(r: seq<Tag>, a: nat, m: nat, b: nat)
    requires a <= m <= b <= |r| && NoneFull(r, a, m)
    ensures FullBetween(r, a, b) == FullBetween(r, m, b)
    decreases m - a
  {
    if a < m {
      assert NotFull(r, a);
      FullBetweenSkip(r, a + 1, m, b);
    }
  }

  lemma {:induction false} FullBetweenJoin(r: seq<Tag>, a: nat, m: nat, b: nat)
    requires a <= m <= b <= |r|
    ensures FullBetween(r, a, b) == FullBetween(r, a, m) + FullBetween(r, m, b)
    decreases m - a
  {
    if a < m {
      FullBetweenJoin(r, a + 1, m, b);
    }
  }

  /** The listing holds exactly the full buckets of the range. */
  lemma {:induction false} FullBetweenExact(r: seq<Tag>, a: nat, b: nat, i: nat)
    requires a <= b <= |r|
    ensures i in FullBetween(r, a, b) <==> a <= i < b && IsFull(r[i])
    decreases b - a
  {
    if a < b {
      FullBetweenExact(r, a + 1, b, i);
    }
  }

  /** And each of them once, in ascending order. */
  lemma {:induction false} FullBetweenAscending(r: seq<Tag>, a: nat, b: nat)
    requires a <= b <= |r|
    ensures forall x, y :: 0 <= x < y < |FullBetween(r, a, b)| ==> FullBetween(r, a, b)[x] < FullBetween(r, a, b)[y]
    decreases b - a
  {
    if a < b {
      FullBetweenAscending(r, a + 1, b);
      var rest := FullBetween(r, a + 1, b);
      forall y | 0 <= y < |rest|
        ensures a < rest[y]
      {
        FullBetweenExact(r, a + 1, b, rest[y]);
      }
    }
  }

  /** The accumulator after f has been applied to the elements of s from left to right. */
  function FoldLeft<A, B>(s: seq<A>, acc: B, f: (B, A) -> B): B {
    if s == [] then acc else FoldLeft(s[1..], f(acc, s[0]), f)
  }

  /** f is applied once more for each element at the end. */
  lemma {:induction false} FoldLeftAppend<A, B>(s: seq<A>, x: A, acc: B, f: (B, A) -> B)
    ensures FoldLeft([], acc, f) == acc
    ensures FoldLeft(s + [x], acc, f) == f(FoldLeft(s, acc, f), x)
  {
    if s == [] {
      assert [x][1..] == [];
    } else {
      assert (s + [x])[1..] == s[1..] + [x];
      FoldLeftAppend(s[1..], x, f(acc, s[0]), f);
    }
  }

  /** Collecting with a fold gives back what was folded. */
  lemma {:induction false} FoldCollects<A>(s: seq<A>, acc: seq<A>)
    ensures FoldLeft(s, acc, (t: seq<A>, x: A) => t + [x]) == acc + s
  {
    if s != [] {
      FoldCollects(s[1..], acc + [s[0]]);
      assert acc + [s[0]] + s[1..] == acc + s;
    }
  }

  /** The accumulator after all full buckets from i on. */
  ghost function FoldFrom<B>(r: seq<Tag>, i: nat, acc: B, f: (B, nat) -> B): B
    requires i <= |r|
  {
    FoldLeft(FullBetween(r, i, |r|), acc, f)
  }

  /** Passing the next full bucket i applies f to it. */
  lemma FoldStep<B>(r: seq<Tag>, at: nat, i: nat, acc: B, f: (B, nat) -> B)
    requires at <= i < |r| && NoneFull(r, at, i) && IsFull(r[i])
    ensures FoldFrom(r, at, acc, f) == FoldFrom(r, i + 1, f(acc, i), f)
  {
    FullBetweenSkip(r, at, i, |r|);
    assert FullBetween(r, i, |r|)[1..] == FullBetween(r, i + 1, |r|);
  }

  lemma FoldSkip<B>(r: seq<Tag>, i: nat, j: nat, acc: B, f: (B, nat) -> B)
    requires i <= j <= |r| && NoneFull(r, i, j)
    ensures FoldFrom(r, i, acc, f) == FoldFrom(r, j, acc, f)
  {
    FullBetweenSkip(r, i, j, |r|);
  }

  /** An iterator over the full buckets, scanning aligned groups and counting the elements still to come. */
  class RawIter {
    const ctrl: array<Tag>
    const width: nat
    var group: BitMask
    var first: nat
    var items: nat
    ghost var at: nat
    ghost var step: nat

    ghost predicate Valid(r: seq<Tag>)
      reads this, ctrl
    {
      Geometry(|r|, width) && Mirrors(ctrl[..], r, width) && IterAt(group, first, items, at, step, r, width)
    }

    constructor (ctrl: array<Tag>, width: nat, items: nat, ghost r: seq<Tag>)
      requires Geometry(|r|, width) && Mirrors(ctrl[..], r, width) && items == Fulls(r)
      ensures this.ctrl == ctrl && this.width == width && Valid(r) && at == 0 && this.items == items
    {
      this.ctrl, this.width, this.items, this.first := ctrl, width, items, 0;
      this.group := MatchFull(ctrl[0..width]);
      this.at, this.step := 0, 0;
      if width <= |r| {
        GroupsMul(|r|, width);
      }
      GroupLoaded(ctrl[..], r, width, 0, 0);
      assert ctrl[..][0..width] == ctrl[0..width];
    }

    /** Loads the group after an exhausted one, which exists because elements remain. */
    method LoadNext(ghost r: seq<Tag>)
      requires Valid(r) && items > 0 && !AnyBitSet(group)
      modifies this`group, this`first, this`at, this`step
      ensures Valid(r) && first == old(first) + width && old(at) <= at < |r|
      ensures NoneFull(r, old(at), at)
    {
      GroupFollows(group, first, items, at, step, r, width);
      first := first + width;
      GroupLoaded(ctrl[..], r, width, step + 1, first);
      assert ctrl[..][first..first + width] == ctrl[first..first + width];
      group := MatchFull(ctrl[first..first + width]);
      at, step := first, step + 1;
    }

    /** Yields the next full bucket in ascending order; a group is loaded only while elements remain. */
    method Next(ghost r: seq<Tag>) returns (index: Option<nat>)
      requires Valid(r)
      modifies this
      ensures Valid(r) && (index.None? <==> old(items) == 0)
      ensures index.None? ==> at == old(at) && items == 0 && NoneFull(r, at, |r|)
      ensures index.Some? ==> old(at) <= index.value < |r| && IsFull(r[index.value])
      ensures index.Some? ==> NoneFull(r, old(at), index.value)
      ensures index.Some? ==> at == index.value + 1 && items == old(items) - 1
    {
      if items == 0 {
        FullsFromNone(r, at);
        return None;
      }
      while !AnyBitSet(group)
        invariant Valid(r) && items == old(items) && old(at) <= at
        invariant NoneFull(r, old(at), at)
        decreases |r| - first
      {
        LoadNext(r);
      }
      IterYield(group, first, items, at, step, r, width);
      var bit := LowestSetBit(group).value;
      group := RemoveLowestBit(group);
      at := first + bit + 1;
      items := items - 1;
      return Some(first + bit);
    }

    /** Applies f to every bucket still to come, ending with the last element and not with the last group. */
    method Fold<B>(ghost r: seq<Tag>, init: B, f: (B, nat) -> B) returns (acc: B)
      requires Valid(r)
      modifies this
      ensures acc == FoldLeft(FullBetween(r, old(at), |r|), init, f) && items == 0
    {
      acc := init;
      var more := true;
      while more
        invariant Valid(r) && FoldFrom(r, at, acc, f) == FoldFrom(r, old(at), init, f)
        invariant !more ==> items == 0
        decreases more, |r| - first
      {
        acc := FoldGroup(r, acc, f);
        if items == 0 {
          more := false;
        } else {
          FoldSkips(r, acc, f);
        }
      }
      FullsFromNone(r, at);
      FoldSkip(r, at, |r|, acc, f);
    }

    /** Applies f to the lanes left in the current group. */
    method FoldGroup<B>(ghost r: seq<Tag>, init: B, f: (B, nat) -> B) returns (acc: B)
      requires Valid(r)
      modifies this
      ensures Valid(r) && first == old(first) && !AnyBitSet(group)
      ensures FoldFrom(r, at, acc, f) == FoldFrom(r, old(at), init, f)
    {
      acc := init;
      while AnyBitSet(group)
        invariant Valid(r) && first == old(first)
        invariant FoldFrom(r, at, acc, f) == FoldFrom(r, old(at), init, f)
        decreases items
      {
        IterYield(group, first, items, at, step, r, width);
        var bit := LowestSetBit(group).value;
        FoldStep(r, at, first + bit, acc, f);
        acc := f(acc, first + bit);
        group := RemoveLowestBit(group);
        at := first + bit + 1;
        items := items - 1;
      }
    }

    method FoldSkips<B>(ghost r: seq<Tag>, ghost acc: B, ghost f: (B, nat) -> B)
      requires Valid(r) && items > 0 && !AnyBitSet(group)
      modifies this`group, this`first, this`at, this`step
      ensures Valid(r) && old(first) < first <= |r| && FoldFrom(r, at, acc, f) == FoldFrom(r, old(at), acc, f)
    {
      LoadNext(r);
      FoldSkip(r, old(at), at, acc, f);
    }

    /** The same by repeated calls of Next. */
    method FoldByNext<B>(ghost r: seq<Tag>, init: B, f: (B, nat) -> B) returns (acc: B)
      requires Valid(r)
      modifies this
      ensures acc == FoldLeft(FullBetween(r, old(at), |r|), init, f) && items == 0
    {
      acc := init;
      var more := true;
      while more
        invariant Valid(r) && FoldFrom(r, at, acc, f) == FoldFrom(r, old(at), init, f)
        invariant !more ==> items == 0 && NoneFull(r, at, |r|)
        decreases more, items
      {
        ghost var before := at;
        var next := Next(r);
        if next.Some? {
          FoldStep(r, before, next.value, acc, f);
          acc := f(acc, next.value);
        } else {
          more := false;
        }
      }
      FoldSkip(r, at, |r|, acc, f);
    }
  }
}
