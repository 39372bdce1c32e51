/** Searching a table: the probe sequence, matches, and the free bucket remembered on the way. */
module SearchSpec {
  import opened Arith
  import opened Control
  import opened Group
  import opened Probe
  import opened TableSpec
  import opened Wrappers

  lemma WidthPow2(kind: GroupKind)
    ensures IsPow2(kind.Width())
  {
    assert IsPow2(8) by { assert IsPow2(4) by { assert IsPow2(2); } }
  }

  /** A probe sequence under way; the structure is small and passed by value. */
  datatype ProbeSeq = ProbeSeq(pos: nat, stride: nat) {

    /** Going past the end of the probe sequence is excluded by the precondition. */
    function MoveNext(bucketMask: nat, width: nat): ProbeSeq
      requires stride <= bucketMask
    {
      ProbeSeq(Mask(pos + (stride + width), bucketMask + 1), stride + width)
    }
  }

  /** The position and stride after k steps. */
  function ProbeAt(n: nat, w: nat, hash: nat, k: nat): ProbeSeq
    requires n > 0
  {
    ProbeSeq(ProbePos(n, w, hash, k), Stride(w, k))
  }

  /** Before the last window the debug assertion on the stride holds and the step is the specified one. */
  lemma ProbeStep(n: nat, w: nat, hash: nat, k: nat)
    requires Geometry(n, w) && k + 1 < Groups(n, w)
    ensures ProbeAt(n, w, hash, k).stride <= n - 1
    ensures ProbeAt(n, w, hash, k).MoveNext(n - 1, w) == ProbeAt(n, w, hash, k + 1)
  {
    StrideBound(n, w, k);
  }

  /** Stored elements that compare equal to the one sought have the hash that is sought. */
  ghost predicate Agrees<T>(r: seq<Tag>, d: seq<T>, hasher: T -> Hash, hash: Hash, eq: T -> bool)
    requires |r| == |d|
  {
    forall i :: 0 <= i < |r| && IsFull(r[i]) && eq(d[i]) ==> hasher(d[i]) == hash
  }

  /** Bucket i stores an element equal to the one sought. */
  predicate Hit<T>(r: seq<Tag>, d: seq<T>, eq: T -> bool, i: nat)
    requires |r| == |d|
  {
    i < |r| && IsFull(r[i]) && eq(d[i])
  }

  ghost predicate Absent<T>(r: seq<Tag>, d: seq<T>, eq: T -> bool)
    requires |r| == |d|
  {
    forall i :: 0 <= i < |r| ==> !Hit(r, d, eq, i)
  }

  /** The same, said of the contents. */
  ghost predicate AgreesOn<T>(contents: multiset<T>, hasher: T -> Hash, hash: Hash, eq: T -> bool) {
    forall x :: x in contents && eq(x) ==> hasher(x) == hash
  }

  ghost predicate NoMatch<T>(contents: multiset<T>, eq: T -> bool) {
    forall x :: x in contents ==> !eq(x)
  }

  lemma AgreesOnAll<T>(r: seq<Tag>, d: seq<T>, hasher: T -> Hash, hash: Hash, eq: T -> bool)
    requires |r| == |d| && AgreesOn(Elems(r, d, false), hasher, hash, eq)
    ensures Agrees(r, d, hasher, hash, eq)
  {
    forall i | 0 <= i < |r| && IsFull(r[i]) && eq(d[i])
      ensures hasher(d[i]) == hash
    {
      ElemsHas(r, d, false, i);
    }
  }

  lemma AbsentNoMatch<T>(r: seq<Tag>, d: seq<T>, eq: T -> bool)
    requires |r| == |d| && Absent(r, d, eq)
    ensures NoMatch(Elems(r, d, false), eq)
  {
    forall x | x in Elems(r, d, false)
      ensures !eq(x)
    {
      var i := ElemsFrom(r, d, false, x);
      assert !Hit(r, d, eq, i);
    }
  }

  /** The window at pos holds no full bucket with this tag that satisfies eq. */
  ghost predicate WindowScanned<T>(r: seq<Tag>, d: seq<T>, w: nat, pos: nat, tag: Tag, eq: T -> bool)
    requires |r| == |d| > 0
  {
    forall i :: 0 <= i < |r| && InWindow(|r|, w, pos, i) && r[i] == tag ==> !eq(d[i])
  }

  /** So for the first k windows of a search. */
  ghost predicate Scanned<T>(r: seq<Tag>, d: seq<T>, w: nat, hash: Hash, eq: T -> bool, k: nat)
    requires |r| == |d| > 0
  {
    forall j: nat :: j < k ==> WindowScanned(r, d, w, ProbePos(|r|, w, hash, j), FullTag(hash), eq)
  }

  lemma ScannedStep<T>(r: seq<Tag>, d: seq<T>, w: nat, hash: Hash, eq: T -> bool, k: nat)
    requires |r| == |d| > 0 && Scanned(r, d, w, hash, eq, k)
    requires WindowScanned(r, d, w, ProbePos(|r|, w, hash, k), FullTag(hash), eq)
    ensures Scanned(r, d, w, hash, eq, k + 1)
  {
  }

  /** Stopping at EMPTY proves that the element is absent. */
  lemma NothingFound<T>(r: seq<Tag>, d: seq<T>, w: nat, hasher: T -> Hash, hash: Hash, eq: T -> bool, k: nat)
    requires Geometry(|r|, w) && Placed(r, d, w, hasher) && Scanned(r, d, w, hash, eq, k + 1)
    requires Agrees(r, d, hasher, hash, eq) && SeesEmpty(r, w, ProbePos(|r|, w, hash, k))
    ensures Absent(r, d, eq)
  {
    forall i | 0 <= i < |r|
      ensures !Hit(r, d, eq, i)
    {
      assert PlacedAt(r, d, w, hasher, i);
      if IsFull(r[i]) && hasher(d[i]) == hash {
        SearchComplete(r, w, hash, i, k);
        var j: nat :| j <= k && InWindow(|r|, w, ProbePos(|r|, w, hash, j), i);
        assert WindowScanned(r, d, w, ProbePos(|r|, w, hash, j), FullTag(hash), eq);
      }
    }
  }

  /** The first free bucket of a group, if the group shows any; small tables may report a full bucket. */
  function SlotInGroup(group: seq<Tag>, pos: nat, n: nat): (index: Option<nat>)
    requires n > 0
    ensures index.Some? <==> AnyBitSet(MatchEmptyOrDeleted(group))
    ensures index.Some? ==> index.value < n
  {
    var bit := LowestSetBit(MatchEmptyOrDeleted(group));
    if bit.Some? then Some(Mask(pos + bit.value, n)) else None
  }

  /** Lane b is the first of the window at pos that shows no full bucket. */
  ghost predicate FirstLane(r: seq<Tag>, w: nat, pos: nat, b: nat) {
    pos < |r| && b < w && !FullLane(r, w, pos, b) && forall c: nat :: c < b ==> FullLane(r, w, pos, c)
  }

  predicate FullLane(r: seq<Tag>, w: nat, pos: nat, b: nat) {
    pos < |r| && b < w && IsFull(ByteAt(r, w, pos + b))
  }

  /** s is the first bucket that is not full. */
  ghost predicate FirstBucket(r: seq<Tag>, s: nat) {
    s < |r| && NotFull(r, s) && forall j: nat :: j < s ==> !NotFull(r, j)
  }

  /**
   * s is the bucket where the search for a free bucket ends: the one that the first free lane of the
   * first window with room stands for or, if that is the full bucket behind the filler of a small
   * table, the first free bucket of all.
   */
  ghost predicate FirstFree(r: seq<Tag>, w: nat, hash: nat, s: nat)
    requires |r| > 0
  {
    exists k, b :: FirstFreeAt(r, w, hash, s, k, b)
  }

  ghost predicate FirstFreeAt(r: seq<Tag>, w: nat, hash: nat, s: nat, k: nat, b: nat)
    requires |r| > 0
  {
    var pos := ProbePos(|r|, w, hash, k);
    && Crowded(r, w, hash, k) && FirstLane(r, w, pos, b)
    && if IsFull(r[LaneBucket(|r|, pos, b)]) then FirstBucket(r, s) else s == LaneBucket(|r|, pos, b)
  }

  /** There is one such bucket only. */
  lemma FirstFreeUnique(r: seq<Tag>, w: nat, hash: nat, s: nat, t: nat)
    requires |r| > 0 && Geometry(|r|, w) && FirstFree(r, w, hash, s) && FirstFree(r, w, hash, t)
    ensures s == t
  {
    var k, b :| FirstFreeAt(r, w, hash, s, k, b);
    var j, c :| FirstFreeAt(r, w, hash, t, j, c);
    FirstLaneSeen(r, w, ProbePos(|r|, w, hash, k), b);
    FirstLaneSeen(r, w, ProbePos(|r|, w, hash, j), c);
    assert k == j;
    assert b == c;
  }

  /** The first free bucket for the hash is a tombstone, so that filling it takes no EMPTY away. */
  ghost predicate FillsTombstone(r: seq<Tag>, w: nat, hash: nat)
    requires |r| > 0
  {
    exists s :: 0 <= s < |r| && FirstFree(r, w, hash, s) && r[s] == DELETED
  }

  /** The first free bucket is one only, so its tag decides. */
  lemma FirstFreeDecides(r: seq<Tag>, w: nat, hash: nat, s: nat)
    requires Geometry(|r|, w) && s < |r| && FirstFree(r, w, hash, s)
    ensures FillsTombstone(r, w, hash) <==> r[s] == DELETED
  {
    if FillsTombstone(r, w, hash) {
      var t :| 0 <= t < |r| && FirstFree(r, w, hash, t) && r[t] == DELETED;
      FirstFreeUnique(r, w, hash, s, t);
    }
  }

  lemma FirstLaneSeen(r: seq<Tag>, w: nat, pos: nat, b: nat)
    requires Geometry(|r|, w) && FirstLane(r, w, pos, b)
    ensures SeesSpecial(r, w, pos)
  {
    LaneShows(r, w, pos, b);
    assert |r| < w || SpecialIn(r, w, pos, LaneBucket(|r|, pos, b));
  }

  /** And there is one whenever some bucket is free. */
  lemma FirstFreeExists(r: seq<Tag>, w: nat, hash: nat)
    requires |r| > 0 && Geometry(|r|, w) && HasSpecial(r)
    ensures exists s :: FirstFree(r, w, hash, s)
  {
    var e :| 0 <= e < |r| && !IsFull(r[e]);
    var s := FirstFreeFrom(r, w, hash, e, 0);
  }

  lemma {:induction false} FirstFreeFrom(r: seq<Tag>, w: nat, hash: nat, e: nat, k: nat) returns (s: nat)
    requires |r| > 0 && Geometry(|r|, w) && e < |r| && !IsFull(r[e]) && k < Groups(|r|, w) && Crowded(r, w, hash, k)
    ensures FirstFree(r, w, hash, s)
    decreases Groups(|r|, w) - k
  {
    var pos := ProbePos(|r|, w, hash, k);
    if SeesSpecial(r, w, pos) {
      var b := FreeLane(r, w, pos);
      b := LeastLane(r, w, pos, b);
      var i := LaneBucket(|r|, pos, b);
      s := i;
      if IsFull(r[i]) {
        s := LeastBucket(r, e);
      }
      assert FirstFreeAt(r, w, hash, s, k, b);
    } else {
      SlotSearchStops(r, w, hash, k, e);
      s := FirstFreeFrom(r, w, hash, e, k + 1);
    }
  }

  lemma FreeLane(r: seq<Tag>, w: nat, pos: nat) returns (b: nat)
    requires Geometry(|r|, w) && pos < |r| && SeesSpecial(r, w, pos)
    ensures b < w && !FullLane(r, w, pos, b)
  {
    if |r| < w {
      b := |r| - pos;
    } else {
      var i: nat :| SpecialIn(r, w, pos, i);
      b := LaneOf(r, w, pos, i);
    }
  }

  lemma {:induction false} LeastLane(r: seq<Tag>, w: nat, pos: nat, b: nat) returns (c: nat)
    requires pos < |r| && b < w && !FullLane(r, w, pos, b)
    ensures FirstLane(r, w, pos, c)
    decreases b
  {
    if d: nat :| d < b && !FullLane(r, w, pos, d) {
      c := LeastLane(r, w, pos, d);
    } else {
      c := b;
    }
  }

  lemma {:induction false} LeastBucket(r: seq<Tag>, e: nat) returns (s: nat)
    requires e < |r| && !IsFull(r[e])
    ensures FirstBucket(r, s)
    decreases e
  {
    if d: nat :| d < e && NotFull(r, d) {
      s := LeastBucket(r, d);
    } else {
      s := e;
    }
  }

  /** index was reported for the window at pos: its first free lane stands for it. */
  ghost predicate Reported(r: seq<Tag>, w: nat, pos: nat, index: nat) {
    && index < |r| && (if IsFull(r[index]) then |r| < w else InWindow(|r|, w, pos, index))
    && exists b :: FirstLane(r, w, pos, b) && LaneBucket(|r|, pos, b) == index
  }

  lemma SlotReported(g: seq<Tag>, r: seq<Tag>, w: nat, pos: nat)
    requires Geometry(|r|, w) && Shows(g, r, w, pos) && SlotInGroup(g, pos, |r|).Some?
    ensures Reported(r, w, pos, SlotInGroup(g, pos, |r|).value)
  {
    var b := LowestSetBit(MatchEmptyOrDeleted(g)).value;
    LaneShows(r, w, pos, b);
    assert LaneIs(g, r, w, pos, b);
    forall c: nat | c < b
      ensures FullLane(r, w, pos, c)
    {
      assert LaneIs(g, r, w, pos, c);
      assert !MatchEmptyOrDeleted(g)[c];
    }
    assert FirstLane(r, w, pos, b);
  }

  /** In a small table the first free lane of the group at the start is a free bucket. */
  lemma SlotFixed(g: seq<Tag>, r: seq<Tag>, w: nat)
    requires Shows(g, r, w, 0) && |r| < w && HasSpecial(r)
    ensures var first := LowestSetBit(MatchEmptyOrDeleted(g));
            first.Some? && FirstBucket(r, first.value)
  {
    var e :| 0 <= e < |r| && !IsFull(r[e]);
    assert LaneIs(g, r, w, 0, e);
    assert MatchEmptyOrDeleted(g)[e];
    var first := LowestSetBit(MatchEmptyOrDeleted(g)).value;
    assert LaneIs(g, r, w, 0, first);
    forall j: nat | j < first
      ensures !NotFull(r, j)
    {
      assert LaneIs(g, r, w, 0, j);
      assert !MatchEmptyOrDeleted(g)[j];
    }
  }

  /** The slot remembered by a search that has passed k windows: the hit in the first window with room. */
  ghost predicate Remembered(r: seq<Tag>, w: nat, hash: nat, slot: Option<nat>, first: nat, k: nat)
    requires |r| > 0
  {
    && first <= k && Crowded(r, w, hash, first)
    && (slot.None? ==> first == k)
    && (slot.Some? ==> Reported(r, w, ProbePos(|r|, w, hash, first), slot.value))
  }

  /** What a search that has passed k windows without stopping knows. */
  ghost predicate Searching<T>(
    r: seq<Tag>, d: seq<T>, w: nat, hash: Hash, eq: T -> bool, slot: Option<nat>, first: nat, k: nat)
    requires |r| == |d| && Geometry(|r|, w)
  {
    && k < Groups(|r|, w) && Passed(r, w, hash, k) && Scanned(r, d, w, hash, eq, k)
    && Remembered(r, w, hash, slot, first, k)
  }

  /** The slot to remember after seeing one more group. */
  function Remember(slot: Option<nat>, group: seq<Tag>, pos: nat, n: nat): Option<nat>
    requires n > 0
  {
    if slot.None? then SlotInGroup(group, pos, n) else slot
  }

  lemma RememberedStep(
    g: seq<Tag>, r: seq<Tag>, w: nat, hash: nat, slot: Option<nat>, first: nat, k: nat) returns (first': nat)
    requires Geometry(|r|, w) && Remembered(r, w, hash, slot, first, k)
    requires Shows(g, r, w, ProbePos(|r|, w, hash, k))
    ensures Remembered(r, w, hash, Remember(slot, g, ProbePos(|r|, w, hash, k), |r|), first', k + 1)
  {
    var pos := ProbePos(|r|, w, hash, k);
    GroupSeesSpecial(g, r, w, pos);
    var hit := SlotInGroup(g, pos, |r|);
    if hit.Some? {
      SlotReported(g, r, w, pos);
    }
    first' := if slot.None? && hit.None? then k + 1 else first;
  }

  lemma SearchingStep<T>(r: seq<Tag>, d: seq<T>, w: nat, hash: Hash, eq: T -> bool, k: nat, e: nat,
                         slot: Option<nat>, first: nat)
    requires |r| == |d| && Geometry(|r|, w) && e < |r| && r[e] == EMPTY
    requires Passed(r, w, hash, k) && Scanned(r, d, w, hash, eq, k + 1) && Remembered(r, w, hash, slot, first, k + 1)
    requires !SeesEmpty(r, w, ProbePos(|r|, w, hash, k))
    ensures Searching(r, d, w, hash, eq, slot, first, k + 1)
  {
    SearchStops(r, w, hash, k, e);
  }

  /** A search that stops has remembered a slot. */
  lemma RememberedSlot(r: seq<Tag>, w: nat, hash: nat, slot: Option<nat>, first: nat, k: nat)
    requires |r| > 0 && Remembered(r, w, hash, slot, first, k + 1)
    requires SeesEmpty(r, w, ProbePos(|r|, w, hash, k))
    ensures slot.Some?
  {
    EmptySpecial(r, w, ProbePos(|r|, w, hash, k));
  }

  /** Overwriting a stored element by another with the same hash keeps the invariant. */
  lemma ReplaceInv<T>(r: seq<Tag>, d: seq<T>, w: nat, hasher: T -> Hash, growthLeft: nat, items: nat, s: nat, x: T)
    requires Inv(r, d, w, hasher, growthLeft, items) && s < |r| && IsFull(r[s]) && hasher(x) == hasher(d[s])
    ensures Inv(r, d[s := x], w, hasher, growthLeft, items)
    ensures Elems(r, d[s := x], false) + multiset{d[s]} == Elems(r, d, false) + multiset{x}
  {
    ElemsUpdate(r, d, false, s, r[s], x);
    assert r[s := r[s]] == r;
    assert PlacedAt(r, d, w, hasher, s);
    var d' := d[s := x];
    forall i | 0 <= i < |r|
      ensures PlacedAt(r, d', w, hasher, i)
    {
      assert PlacedAt(r, d, w, hasher, i);
    }
  }
}
