/** Iteration over the buckets that may hold elements with a given hash. */
module IterHash {
  import opened Arith
  import opened Control
  import opened Group
  import opened Probe
  import opened RawTable
  import opened SearchSpec
  import opened TableSpec
  import opened Wrappers

  /** Within one window no two lanes show the same full bucket. */
  lemma LaneUnique(r: seq<Tag>, w: nat, pos: nat, b: nat, c: nat)
    requires Geometry(|r|, w) && pos < |r| && b < w && c < w
    requires IsFull(ByteAt(r, w, pos + b)) && IsFull(ByteAt(r, w, pos + c))
    requires LaneBucket(|r|, pos, b) == LaneBucket(|r|, pos, c)
    ensures b == c
  {
    LaneIndex(r, w, pos, b);
    LaneIndex(r, w, pos, c);
  }

  lemma LaneIndex(r: seq<Tag>, w: nat, pos: nat, b: nat)
    requires Geometry(|r|, w) && pos < |r| && b < w && IsFull(ByteAt(r, w, pos + b))
    ensures LaneBucket(|r|, pos, b) ==
              if pos + b < |r| then pos + b else if w <= |r| then pos + b - |r| else pos + b - w
  {
    var n := |r|;
    if pos + b < n || w <= n {
      MaskSmall(pos + b, n);
    } else {
      MaskDivides(pos + b - w, n, w);
      MaskSmall(pos + b - w, n);
    }
  }

  /** A yielded bucket was shown by an earlier window, or by a lane of the current one that has been taken off. */
  ghost predicate Seen(r: seq<Tag>, w: nat, hash: Hash, k: nat, mask: BitMask, i: nat)
    requires |r| > 0
  {
    && i < |r| && IsFull(r[i])
    && (SeenBefore(|r|, w, hash, k, i) || SeenHere(r, w, ProbePos(|r|, w, hash, k), mask, i))
  }

  ghost predicate SeenBefore(n: nat, w: nat, hash: Hash, k: nat, i: nat)
    requires n > 0
  {
    exists j: nat :: j < k && InWindow(n, w, ProbePos(n, w, hash, j), i)
  }

  ghost predicate SeenHere(r: seq<Tag>, w: nat, pos: nat, mask: BitMask, i: nat)
    requires pos < |r|
  {
    exists b :: 0 <= b < |mask| && !mask[b] && b < w && TakenLane(r, w, pos, b, i)
  }

  ghost predicate TakenLane(r: seq<Tag>, w: nat, pos: nat, b: nat, i: nat)
    requires pos < |r| && b < w
  {
    LaneBucket(|r|, pos, b) == i && IsFull(ByteAt(r, w, pos + b))
  }

  /** Every candidate of the window at pos has been yielded, except those whose lane is still set. */
  ghost predicate Covered(r: seq<Tag>, w: nat, pos: nat, tag: Tag, mask: BitMask, yielded: set<nat>) {
    pos < |r| && |mask| == w && forall b :: 0 <= b < w ==> LaneCovered(r, w, pos, tag, mask, yielded, b)
  }

  ghost predicate LaneCovered(r: seq<Tag>, w: nat, pos: nat, tag: Tag, mask: BitMask, yielded: set<nat>, b: nat)
    requires pos < |r| && b < |mask| == w
  {
    ByteAt(r, w, pos + b) == tag && !mask[b] ==> LaneBucket(|r|, pos, b) in yielded
  }

  /** All candidates of the window at pos have been yielded. */
  ghost predicate Exhausted(r: seq<Tag>, w: nat, pos: nat, tag: Tag, yielded: set<nat>)
    requires |r| > 0
  {
    forall i :: 0 <= i < |r| && InWindow(|r|, w, pos, i) && r[i] == tag ==> i in yielded
  }

  /** All candidates of the first k windows have been yielded. */
  ghost predicate WindowsExhausted(r: seq<Tag>, w: nat, hash: Hash, k: nat, yielded: set<nat>)
    requires |r| > 0
  {
    forall j: nat :: j < k ==> Exhausted(r, w, ProbePos(|r|, w, hash, j), FullTag(hash), yielded)
  }

  /** Whatever was yielded has been seen. */
  ghost predicate AllSeen(r: seq<Tag>, w: nat, hash: Hash, k: nat, mask: BitMask, yielded: set<nat>)
    requires |r| > 0
  {
    forall i :: i in yielded ==> Seen(r, w, hash, k, mask, i)
  }

  /** The set lanes are lanes that may match. */
  ghost predicate OnlyMatches(kind: GroupKind, group: seq<Tag>, tag: Tag, mask: BitMask) {
    |mask| == |group| && forall b :: 0 <= b < |mask| ==> LaneMatches(kind, group, tag, mask, b)
  }

  predicate LaneMatches(kind: GroupKind, group: seq<Tag>, tag: Tag, mask: BitMask, b: nat)
    requires b < |mask| == |group|
  {
    mask[b] ==> MatchTag(kind, group, tag)[b]
  }

  lemma FewerMatches(kind: GroupKind, group: seq<Tag>, tag: Tag, mask: BitMask, bit: nat)
    requires OnlyMatches(kind, group, tag, mask) && bit < |mask|
    ensures OnlyMatches(kind, group, tag, mask[bit := false])
  {
    var mask' := mask[bit := false];
    forall b | 0 <= b < |mask'|
      ensures LaneMatches(kind, group, tag, mask', b)
    {
      assert LaneMatches(kind, group, tag, mask, b);
    }
  }

  ghost predicate Progress(
    r: seq<Tag>, w: nat, kind: GroupKind, hash: Hash, k: nat, group: seq<Tag>, mask: BitMask, yielded: set<nat>)
  {
    && Geometry(|r|, w) && k < Groups(|r|, w) && Passed(r, w, hash, k)
    && Shows(group, r, w, ProbePos(|r|, w, hash, k)) && OnlyMatches(kind, group, FullTag(hash), mask)
    && Covered(r, w, ProbePos(|r|, w, hash, k), FullTag(hash), mask, yielded)
    && WindowsExhausted(r, w, hash, k, yielded) && AllSeen(r, w, hash, k, mask, yielded)
  }

  /** A set lane shows a full bucket whose tag may match. */
  lemma LaneHits(
    r: seq<Tag>, w: nat, kind: GroupKind, group: seq<Tag>, pos: nat, tag: Tag, mask: BitMask, bit: nat)
    requires Geometry(|r|, w) && Shows(group, r, w, pos) && IsFull(tag) && OnlyMatches(kind, group, tag, mask)
    requires bit < w && mask[bit]
    ensures IsFull(ByteAt(r, w, pos + bit))
    ensures IsFull(r[LaneBucket(|r|, pos, bit)]) && Candidate(kind, r[LaneBucket(|r|, pos, bit)], tag)
  {
    assert LaneMatches(kind, group, tag, mask, bit);
    MatchTagSound(kind, group, tag, bit);
    LaneShows(r, w, pos, bit);
    assert LaneIs(group, r, w, pos, bit);
  }

  lemma LaneIsNew(r: seq<Tag>, w: nat, hash: Hash, k: nat, mask: BitMask, bit: nat)
    requires Geometry(|r|, w) && k < Groups(|r|, w) && bit < |mask| == w && mask[bit]
    requires IsFull(ByteAt(r, w, ProbePos(|r|, w, hash, k) + bit))
    ensures !Seen(r, w, hash, k, mask, LaneBucket(|r|, ProbePos(|r|, w, hash, k), bit))
  {
    var pos := ProbePos(|r|, w, hash, k);
    var i := LaneBucket(|r|, pos, bit);
    LaneShows(r, w, pos, bit);
    if SeenBefore(|r|, w, hash, k, i) {
      var j: nat :| j < k && InWindow(|r|, w, ProbePos(|r|, w, hash, j), i);
      ProbeOnce(|r|, w, hash, i, j, k);
    } else if SeenHere(r, w, pos, mask, i) {
      var b :| 0 <= b < |mask| && !mask[b] && b < w && TakenLane(r, w, pos, b, i);
      LaneUnique(r, w, pos, b, bit);
    }
  }

  lemma SeenStays(r: seq<Tag>, w: nat, hash: Hash, k: nat, mask: BitMask, mask': BitMask, i: nat)
    requires |r| > 0 && Seen(r, w, hash, k, mask, i)
    requires |mask'| == |mask| && forall b :: 0 <= b < |mask| && !mask[b] ==> !mask'[b]
    ensures Seen(r, w, hash, k, mask', i)
  {
    var pos := ProbePos(|r|, w, hash, k);
    if SeenHere(r, w, pos, mask, i) {
      var b :| 0 <= b < |mask| && !mask[b] && b < w && TakenLane(r, w, pos, b, i);
      assert !mask'[b];
    }
  }

  /** The lowest set lane shows a bucket that has not been yielded before. */
  lemma TakeLane(
    r: seq<Tag>, w: nat, kind: GroupKind, hash: Hash, k: nat, group: seq<Tag>, mask: BitMask,
    yielded: set<nat>)
    requires Progress(r, w, kind, hash, k, group, mask, yielded) && AnyBitSet(mask)
    ensures var i := LaneBucket(|r|, ProbePos(|r|, w, hash, k), LowestSetBit(mask).value);
            && i < |r| && IsFull(r[i]) && Candidate(kind, r[i], FullTag(hash)) && i !in yielded
            && Progress(r, w, kind, hash, k, group, RemoveLowestBit(mask), yielded + {i})
  {
    var bit := LowestSetBit(mask).value;
    LaneHits(r, w, kind, group, ProbePos(|r|, w, hash, k), FullTag(hash), mask, bit);
    LaneIsNew(r, w, hash, k, mask, bit);
    assert RemoveLowestBit(mask) == mask[bit := false];
    ProgressGrows(r, w, kind, hash, k, group, mask, yielded, bit);
  }

  lemma ProgressGrows(
    r: seq<Tag>, w: nat, kind: GroupKind, hash: Hash, k: nat, group: seq<Tag>, mask: BitMask,
    yielded: set<nat>, bit: nat)
    requires Progress(r, w, kind, hash, k, group, mask, yielded) && bit < w && mask[bit]
    ensures Progress(r, w, kind, hash, k, group, mask[bit := false],
                     yielded + {LaneBucket(|r|, ProbePos(|r|, w, hash, k), bit)})
  {
    var pos, tag, mask' := ProbePos(|r|, w, hash, k), FullTag(hash), mask[bit := false];
    var yielded' := yielded + {LaneBucket(|r|, pos, bit)};
    LaneHits(r, w, kind, group, pos, tag, mask, bit);
    FewerMatches(kind, group, tag, mask, bit);
    SeenGrows(r, w, hash, k, mask, mask', yielded, bit);
    YieldedGrows(r, w, hash, k, yielded, yielded');
    CoveredGrows(r, w, pos, tag, mask, mask', yielded, bit);
  }

  lemma SeenGrows(r: seq<Tag>, w: nat, hash: Hash, k: nat, mask: BitMask, mask': BitMask, yielded: set<nat>, bit: nat)
    requires Geometry(|r|, w) && bit < |mask| == w && mask' == mask[bit := false]
    requires IsFull(ByteAt(r, w, ProbePos(|r|, w, hash, k) + bit))
    requires IsFull(r[LaneBucket(|r|, ProbePos(|r|, w, hash, k), bit)])
    requires AllSeen(r, w, hash, k, mask, yielded)
    ensures AllSeen(r, w, hash, k, mask', yielded + {LaneBucket(|r|, ProbePos(|r|, w, hash, k), bit)})
  {
    var pos := ProbePos(|r|, w, hash, k);
    assert !mask'[bit] && TakenLane(r, w, pos, bit, LaneBucket(|r|, pos, bit));
    forall x | x in yielded
      ensures Seen(r, w, hash, k, mask', x)
    {
      SeenStays(r, w, hash, k, mask, mask', x);
    }
  }

  lemma CoveredGrows(
    r: seq<Tag>, w: nat, pos: nat, tag: Tag, mask: BitMask, mask': BitMask, yielded: set<nat>, bit: nat)
    requires pos < |r| && bit < |mask| == w && mask' == mask[bit := false]
    requires Covered(r, w, pos, tag, mask, yielded)
    ensures Covered(r, w, pos, tag, mask', yielded + {LaneBucket(|r|, pos, bit)})
  {
    var yielded' := yielded + {LaneBucket(|r|, pos, bit)};
    forall b | 0 <= b < w
      ensures LaneCovered(r, w, pos, tag, mask', yielded', b)
    {
      assert LaneCovered(r, w, pos, tag, mask, yielded, b);
    }
  }

  lemma YieldedGrows(r: seq<Tag>, w: nat, hash: Hash, k: nat, yielded: set<nat>, yielded': set<nat>)
    requires |r| > 0 && yielded <= yielded' && WindowsExhausted(r, w, hash, k, yielded)
    ensures WindowsExhausted(r, w, hash, k, yielded')
  {
    forall j: nat | j < k
      ensures Exhausted(r, w, ProbePos(|r|, w, hash, j), FullTag(hash), yielded')
    {
      assert Exhausted(r, w, ProbePos(|r|, w, hash, j), FullTag(hash), yielded);
    }
  }

  lemma WindowExhausted(
    r: seq<Tag>, w: nat, kind: GroupKind, hash: Hash, k: nat, group: seq<Tag>, mask: BitMask,
    yielded: set<nat>)
    requires Progress(r, w, kind, hash, k, group, mask, yielded) && !AnyBitSet(mask)
    ensures Exhausted(r, w, ProbePos(|r|, w, hash, k), FullTag(hash), yielded)
  {
    var pos := ProbePos(|r|, w, hash, k);
    forall i | 0 <= i < |r| && InWindow(|r|, w, pos, i) && r[i] == FullTag(hash)
      ensures i in yielded
    {
      var b := LaneOf(r, w, pos, i);
      assert !mask[b] && LaneCovered(r, w, pos, FullTag(hash), mask, yielded, b);
    }
  }

  lemma SeenMoves(r: seq<Tag>, w: nat, hash: Hash, k: nat, mask: BitMask, mask': BitMask, i: nat)
    requires Geometry(|r|, w) && Seen(r, w, hash, k, mask, i)
    ensures Seen(r, w, hash, k + 1, mask', i)
  {
    var pos, k' := ProbePos(|r|, w, hash, k), k + 1;
    if SeenBefore(|r|, w, hash, k, i) {
      var j: nat :| j < k && InWindow(|r|, w, ProbePos(|r|, w, hash, j), i);
      assert j < k';
    } else {
      var b :| 0 <= b < |mask| && !mask[b] && b < w && TakenLane(r, w, pos, b, i);
      LaneShows(r, w, pos, b);
      assert k < k' && InWindow(|r|, w, pos, i);
    }
  }

  /** A fresh mask leaves no candidate of its window out. */
  lemma FreshCovered(r: seq<Tag>, w: nat, kind: GroupKind, pos: nat, group: seq<Tag>, tag: Tag, yielded: set<nat>)
    requires Geometry(|r|, w) && pos < |r| && Shows(group, r, w, pos) && IsFull(tag)
    ensures Covered(r, w, pos, tag, MatchTag(kind, group, tag), yielded)
  {
    var mask := MatchTag(kind, group, tag);
    forall b | 0 <= b < w
      ensures LaneCovered(r, w, pos, tag, mask, yielded, b)
    {
      assert LaneIs(group, r, w, pos, b);
      MatchTagSound(kind, group, tag, b);
    }
  }

  /** Moving on to the next window. */
  lemma NextWindow(
    r: seq<Tag>, w: nat, kind: GroupKind, hash: Hash, k: nat, group: seq<Tag>, mask: BitMask,
    yielded: set<nat>, group': seq<Tag>)
    requires Progress(r, w, kind, hash, k, group, mask, yielded) && !AnyBitSet(mask)
    requires k + 1 < Groups(|r|, w) && Passed(r, w, hash, k + 1) && Shows(group', r, w, ProbePos(|r|, w, hash, k + 1))
    ensures Progress(r, w, kind, hash, k + 1, group', MatchTag(kind, group', FullTag(hash)), yielded)
  {
    var k' := k + 1;
    var mask' := MatchTag(kind, group', FullTag(hash));
    WindowExhausted(r, w, kind, hash, k, group, mask, yielded);
    forall x | x in yielded
      ensures Seen(r, w, hash, k', mask', x)
    {
      SeenMoves(r, w, hash, k, mask, mask', x);
    }
    FreshCovered(r, w, kind, ProbePos(|r|, w, hash, k'), group', FullTag(hash), yielded);
  }

  /** When the search stops, every element with the hash has been yielded. */
  lemma AllYielded<T>(r: seq<Tag>, d: seq<T>, w: nat, hasher: T -> Hash, kind: GroupKind, hash: Hash, k: nat,
                      group: seq<Tag>, mask: BitMask, yielded: set<nat>)
    requires Progress(r, w, kind, hash, k, group, mask, yielded) && !AnyBitSet(mask) && Placed(r, d, w, hasher)
    requires SeesEmpty(r, w, ProbePos(|r|, w, hash, k))
    ensures forall i :: 0 <= i < |r| && IsFull(r[i]) && hasher(d[i]) == hash ==> i in yielded
  {
    WindowExhausted(r, w, kind, hash, k, group, mask, yielded);
    forall i | 0 <= i < |r| && IsFull(r[i]) && hasher(d[i]) == hash
      ensures i in yielded
    {
      assert PlacedAt(r, d, w, hasher, i);
      SearchComplete(r, w, hash, i, k);
      var j: nat :| j <= k && InWindow(|r|, w, ProbePos(|r|, w, hash, j), i);
      assert Exhausted(r, w, ProbePos(|r|, w, hash, j), FullTag(hash), yielded);
    }
  }

  /** The iterator; the table must not change while it is in use. */
  class RawIterHash<T(0)> {
    const table: RawTable<T>
    const hash: Hash
    var probe: ProbeSeq
    var group: seq<Tag>
    var mask: BitMask
    ghost var yielded: set<nat>
    ghost var step: nat

    ghost predicate Valid()
      reads this, table, table.ctrl, table.data
    {
      && table.Valid() && probe == ProbeAt(table.Buckets(), table.Width(), hash, step)
      && Progress(table.Tags(), table.Width(), table.kind, hash, step, group, mask, yielded)
    }

    constructor (table: RawTable<T>, hash: Hash)
      requires table.Valid()
      ensures Valid() && this.table == table && this.hash == hash && yielded == {}
    {
      this.table, this.hash := table, hash;
      probe := ProbeSeq(Mask(hash, table.Buckets()), 0);
      yielded, step := {}, 0;
      new;
      group := table.LoadGroup(probe.pos);
      mask := MatchTag(table.kind, group, FullTag(hash));
      ghost var r, d := table.Tags(), table.data[..];
      ghost var e := InvHasEmpty(r, d, table.Width(), table.hasher, table.growthLeft, table.items);
      var k := ProbeCovers(table.Buckets(), table.Width(), hash, e);
      FreshCovered(table.Tags(), table.Width(), table.kind, probe.pos, group, FullTag(hash), yielded);
    }

    /** Every element with the hash has been yielded. */
    ghost predicate AllFound()
      reads this, table, table.ctrl, table.data
      requires table.Valid()
    {
      forall i ::
        0 <= i < table.Buckets() && IsFull(table.Tags()[i]) && table.hasher(table.data[i]) == hash ==> i in yielded
    }

    /** A full bucket whose tag is the hash's, up to the lowest bit in the portable group. */
    ghost predicate MayMatch(i: nat)
      requires table.Valid()
      reads this, table, table.ctrl, table.data
    {
      i < table.Buckets() && IsFull(table.Tags()[i]) && Candidate(table.kind, table.Tags()[i], FullTag(hash))
    }

    /** Yields a full bucket with a matching tag, not yielded before; at the end every element with the hash has
        been yielded. */
    method Next() returns (index: Option<nat>)
      requires Valid()
      modifies this
      ensures Valid()
      ensures index.Some? ==> index.value < table.Buckets() && IsFull(table.Tags()[index.value])
      ensures index.Some? ==>
        var t, tag := table.Tags()[index.value], FullTag(hash);
        t == tag || (table.kind.Generic? && t / 2 == tag / 2)
      ensures index.Some? ==> index.value !in old(yielded) && yielded == old(yielded) + {index.value}
      ensures index.None? ==> yielded == old(yielded) && AllFound()
    {
      var found := SkipWindows();
      if !found {
        return None;
      }
      var i := TakeBucket();
      index := Some(i);
    }

    method TakeBucket() returns (i: nat)
      requires Valid() && AnyBitSet(mask)
      modifies this
      ensures Valid() && MayMatch(i)
      ensures i !in old(yielded) && yielded == old(yielded) + {i}
    {
      ghost var r, n := table.Tags(), table.Buckets();
      LowestLane();
      var bit := LowestSetBit(mask).value;
      i := Mask(probe.pos + bit, table.Buckets());
      mask, yielded := RemoveLowestBit(mask), yielded + {i};
      assert table.Tags() == r && table.Buckets() == n;
    }

    /** The lowest set lane, as a bucket of this table. */
    lemma LowestLane()
      requires Valid() && AnyBitSet(mask)
      ensures var i := Mask(probe.pos + LowestSetBit(mask).value, table.Buckets());
              && MayMatch(i) && i !in yielded
              && Progress(table.Tags(), table.Width(), table.kind, hash, step, group, RemoveLowestBit(mask),
                          yielded + {i})
    {
      TakeLane(table.Tags(), table.Width(), table.kind, hash, step, group, mask, yielded);
    }

    /** Moves to a window with a candidate left, unless the search is over before. */
    method SkipWindows() returns (found: bool)
      requires Valid()
      modifies this
      ensures Valid() && yielded == old(yielded)
      ensures if found then AnyBitSet(mask) else AllFound()
    {
      while !AnyBitSet(mask)
        invariant Valid() && yielded == old(yielded)
        decreases Groups(table.Buckets(), table.Width()) - step
      {
        if AnyBitSet(MatchEmpty(group)) {
          Over();
          return false;
        }
        MoreWindows();
        Advance();
      }
      return true;
    }

    /** A window with an EMPTY byte and no candidate left ends the search. */
    lemma Over()
      requires Valid() && !AnyBitSet(mask) && AnyBitSet(MatchEmpty(group))
      ensures AllFound()
    {
      ghost var r, d, w := table.Tags(), table.data[..], table.Width();
      GroupSeesEmpty(group, r, w, probe.pos);
      AllYielded(r, d, w, table.hasher, table.kind, hash, step, group, mask, yielded);
    }

    lemma MoreWindows()
      requires Valid() && !AnyBitSet(MatchEmpty(group))
      ensures step + 1 < Groups(table.Buckets(), table.Width()) && Passed(table.Tags(), table.Width(), hash, step + 1)
    {
      ghost var r, w := table.Tags(), table.Width();
      ghost var e := InvHasEmpty(r, table.data[..], w, table.hasher, table.growthLeft, table.items);
      GroupSeesEmpty(group, r, w, probe.pos);
      SearchStops(r, w, hash, step, e);
    }

    method Advance()
      requires Valid() && !AnyBitSet(mask)
      requires step + 1 < Groups(table.Buckets(), table.Width()) && Passed(table.Tags(), table.Width(), hash, step + 1)
      modifies this
      ensures Valid() && yielded == old(yielded) && step == old(step) + 1
    {
      var next := table.NextProbe(probe, hash, step);
      var loaded := table.LoadGroup(next.pos);
      NextWindow(table.Tags(), table.Width(), table.kind, hash, step, group, mask, yielded, loaded);
      probe, group, step := next, loaded, step + 1;
      mask := MatchTag(table.kind, group, FullTag(hash));
    }
  }
}
