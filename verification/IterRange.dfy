/** Ranges of aligned groups that can be iterated and split in two, as parallel iteration does. */
module IterRange {
  import opened Arith
  import opened Control
  import opened Group
  import opened Probe
  import opened RawIteration
  import opened Wrappers

  lemma {:induction false} StrideSum(w: nat, a: nat, b: nat)
    ensures Stride(w, a + b) == Stride(w, a) + Stride(w, b)
  {
    if b > 0 {
      StrideSum(w, a, b - 1);
    }
  }

  /** Rounding down to whole groups. */
  lemma {:induction false} RoundDown(x: nat, w: nat)
    requires w > 0
    ensures x - Mask(x, w) == Stride(w, Quot(x, w)) <= x
  {
    if x >= w {
      RoundDown(x - w, w);
    }
  }

  /** The buckets a range covers end at its end, or with the table when one group spans it. */
  function Limit(n: nat, w: nat, end: nat): nat {
    if w <= n then end else n
  }

  /** The range has yielded what lies below `at` and holds the rest of its current group. */
  ghost predicate RangeAt(group: BitMask, first: nat, end: nat, at: nat, step: nat, last: nat, r: seq<Tag>, w: nat) {
    && w > 0 && first == Stride(w, step) && |group| == w
    && (if w <= |r| then step < last <= Groups(|r|, w) && end == Stride(w, last) else first == 0 && end == |r|)
    && first <= at <= Limit(|r|, w, end) <= |r| && at <= first + w
    && forall b :: 0 <= b < w ==> (group[b] <==> at <= first + b < |r| && IsFull(r[first + b]))
  }

  /** The lowest lane of the current group is the next full bucket of the range. */
  lemma RangeYield(group: BitMask, first: nat, end: nat, at: nat, step: nat, last: nat, r: seq<Tag>, w: nat)
    requires RangeAt(group, first, end, at, step, last, r, w) && AnyBitSet(group)
    ensures var i, limit := first + LowestSetBit(group).value, Limit(|r|, w, end);
      i < limit && FullBetween(r, at, limit) == [i] + FullBetween(r, i + 1, limit) &&
      RangeAt(RemoveLowestBit(group), first, end, i + 1, step, last, r, w)
  {
    var i, limit := first + LowestSetBit(group).value, Limit(|r|, w, end);
    InRange(first, end, step, last, |r|, w);
    forall j | at <= j < i
      ensures !IsFull(r[j])
    {
      assert !group[j - first];
    }
    FullBetweenSkip(r, at, i, limit);
  }

  /** The current group lies inside the range. */
  lemma InRange(first: nat, end: nat, step: nat, last: nat, n: nat, w: nat)
    requires first == Stride(w, step) && (w <= n ==> step < last && end == Stride(w, last))
    ensures w <= n ==> first + w <= end
    ensures w <= n && first + w < end ==> step + 1 < last
  {
    if w <= n {
      StrideMono(w, step, last);
      assert Stride(w, step + 1) == first + w;
    }
  }

  /** With the current group used up, either the range is over or the next group is inside it. */
  lemma RangeNext(group: BitMask, first: nat, end: nat, at: nat, step: nat, last: nat, r: seq<Tag>, w: nat)
    requires Geometry(|r|, w) && RangeAt(group, first, end, at, step, last, r, w) && !AnyBitSet(group)
    ensures first + w >= end ==> FullBetween(r, at, Limit(|r|, w, end)) == []
    ensures first + w < end ==> w <= |r| && step + 1 < last && first + w <= Limit(|r|, w, end)
    ensures first + w < end ==>
      FullBetween(r, at, Limit(|r|, w, end)) == FullBetween(r, first + w, Limit(|r|, w, end))
  {
    var limit := Limit(|r|, w, end);
    InRange(first, end, step, last, |r|, w);
    forall j | at <= j < first + w && j < |r|
      ensures !IsFull(r[j])
    {
      assert !group[j - first];
    }
    FullBetweenSkip(r, at, if first + w < limit then first + w else limit, limit);
  }

  /** A freshly loaded group starts a range. */
  lemma RangeLoaded(c: seq<Tag>, r: seq<Tag>, w: nat, first: nat, end: nat, step: nat, last: nat)
    requires Geometry(|r|, w) && Mirrors(c, r, w) && first == Stride(w, step)
    requires if w <= |r| then step < last <= Groups(|r|, w) && end == Stride(w, last) else first == 0 && end == |r|
    ensures first + w <= |c| && RangeAt(MatchFull(c[first..first + w]), first, end, first, step, last, r, w)
  {
    InRange(first, end, step, last, |r|, w);
    if w <= |r| {
      GroupsEnd(|r|, w);
      if last < Groups(|r|, w) {
        StrideMono(w, last, Groups(|r|, w));
      }
    }
    var group := c[first..first + w];
    forall b | 0 <= b < w
      ensures group[b] == ByteAt(r, w, first + b)
    {
      assert MirrorAt(c, r, w, first + b);
    }
  }

  /** The middle of what follows the current group, rounded down to a whole group, leaves a group for the tail. */
  lemma SplitPoint(first: nat, end: nat, step: nat, last: nat, n: nat, w: nat) returns (m: nat)
    requires Geometry(n, w) && w <= n && first == Stride(w, step)
    requires step < last <= Groups(n, w) && end == Stride(w, last)
    requires first + w < end
    ensures step < m < last
    ensures var half := (end - (first + w)) / 2;
      0 <= half - Mask(half, w) && Stride(w, m) == first + w + (half - Mask(half, w)) < end
  {
    var half := (end - (first + w)) / 2;
    RoundDown(half, w);
    m := step + 1 + Quot(half, w);
    StrideSum(w, step + 1, Quot(half, w));
    assert Stride(w, step + 1) == first + w;
    if last <= m {
      if last < m {
        StrideMono(w, last, m);
      }
    }
  }

  /** The head of a split is a range up to the split point, and the rest is what follows that point. */
  lemma HeadStays(
    group: BitMask, first: nat, end: nat, at: nat, step: nat, last: nat, r: seq<Tag>, w: nat, mid: nat, m: nat)
    requires RangeAt(group, first, end, at, step, last, r, w) && w <= |r|
    requires step < m < last && mid == Stride(w, m) < end
    ensures RangeAt(group, first, mid, at, step, m, r, w)
    ensures FullBetween(r, at, end) == FullBetween(r, at, mid) + FullBetween(r, mid, end)
  {
    InRange(first, mid, step, m, |r|, w);
    FullBetweenJoin(r, at, mid, end);
  }

  class RawIterRange {
    const ctrl: array<Tag>
    const width: nat
    var group: BitMask
    var first: nat
    var end: nat
    ghost var at: nat
    ghost var step: nat
    ghost var last: nat

    ghost predicate Valid(r: seq<Tag>)
      reads this, ctrl
    {
      Geometry(|r|, width) && Mirrors(ctrl[..], r, width) && RangeAt(group, first, end, at, step, last, r, width)
    }

    /** What the range still has to yield. */
    ghost function Remaining(r: seq<Tag>): seq<nat>
      requires Valid(r)
      reads this, ctrl
    {
      FullBetween(r, at, Limit(|r|, width, end))
    }

    /** A range of `len` buckets from `first` on; a table smaller than a group is one range. */
    constructor (
      ctrl: array<Tag>, width: nat, first: nat, len: nat, ghost step: nat, ghost last: nat, ghost r: seq<Tag>)
      requires Geometry(|r|, width) && Mirrors(ctrl[..], r, width) && first == Stride(width, step)
      requires if width <= |r| then step < last <= Groups(|r|, width) && first + len == Stride(width, last)
               else first == 0 && len == |r|
      ensures Valid(r) && this.ctrl == ctrl && this.width == width && this.first == first && end == first + len
      ensures at == first && this.last == last
    {
      RangeLoaded(ctrl[..], r, width, first, first + len, step, last);
      assert ctrl[..][first..first + width] == ctrl[first..first + width];
      this.ctrl, this.width, this.first, this.end := ctrl, width, first, first + len;
      this.group := MatchFull(ctrl[first..first + width]);
      this.at, this.step, this.last := first, step, last;
    }

    /** Yields the next full bucket; loads a group only inside the range. */
    method Next(ghost r: seq<Tag>) returns (index: Option<nat>)
      requires Valid(r)
      modifies this
      ensures Valid(r)
      ensures match index case None => old(Remaining(r)) == [] case Some(i) => old(Remaining(r)) == [i] + Remaining(r)
    {
      while !AnyBitSet(group)
        invariant Valid(r) && Remaining(r) == old(Remaining(r))
        decreases end - first
      {
        RangeNext(group, first, end, at, step, last, r, width);
        if first + width >= end {
          return None;
        }
        LoadNext(r);
      }
      var i := TakeBucket(r);
      index := Some(i);
    }

    method TakeBucket(ghost r: seq<Tag>) returns (i: nat)
      requires Valid(r) && AnyBitSet(group)
      modifies this`group, this`at
      ensures Valid(r) && old(Remaining(r)) == [i] + Remaining(r)
    {
      RangeYield(group, first, end, at, step, last, r, width);
      var bit := LowestSetBit(group).value;
      group, at := RemoveLowestBit(group), first + bit + 1;
      i := first + bit;
    }

    method LoadNext(ghost r: seq<Tag>)
      requires Valid(r) && !AnyBitSet(group) && first + width < end
      modifies this`group, this`first, this`at, this`step
      ensures Valid(r) && Remaining(r) == old(Remaining(r)) && first == old(first) + width && first < end
    {
      RangeNext(group, first, end, at, step, last, r, width);
      RangeLoaded(ctrl[..], r, width, first + width, end, step + 1, last);
      first := first + width;
      assert ctrl[..][first..first + width] == ctrl[first..first + width];
      group := MatchFull(ctrl[first..first + width]);
      at, step := first, step + 1;
    }

    /** Splits off the second half of the groups after the current one, unless the current one is the last. */
    method Split(ghost r: seq<Tag>) returns (tail: Option<RawIterRange>)
      requires Valid(r)
      modifies this`end, this`last
      ensures Valid(r) && (tail.Some? <==> old(first + width < end))
      ensures tail.None? ==> end == old(end) && last == old(last)
      ensures tail.Some? ==>
        var t := tail.value;
        fresh(t) && t.ctrl == ctrl && t.Valid(r) && old(Remaining(r)) == Remaining(r) + t.Remaining(r) &&
        end == t.first && t.end == old(end)
      ensures tail.Some? ==>
        var rest, mid := old(end) - (first + width), end - (first + width);
        0 <= mid <= rest / 2 < mid + width && first == old(first)
    {
      if end <= first + width {
        return None;
      }
      InRange(first, end, step, last, |r|, width);
      var len := end - (first + width);
      var mid := len / 2 - Mask(len / 2, width);
      ghost var m := SplitPoint(first, end, step, last, |r|, width);
      HeadStays(group, first, end, at, step, last, r, width, first + width + mid, m);
      var t := new RawIterRange(ctrl, width, first + width + mid, len - mid, m, last, r);
      end, last := first + width + mid, m;
      tail := Some(t);
    }
  }
}
