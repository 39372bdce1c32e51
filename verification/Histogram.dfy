/**
 * The histogram a thread accumulates over its own inputs, with the links of its chains in one
 * overflow buffer per input.  A tracker shared by all threads numbers the buffers and their items;
 * the other threads may take any number of ranges before each range taken here.
 */
module Histogram {
  import opened Wrappers
  import opened Arith
  import opened Group
  import opened ChainLog

  /** Where a link is stored: the buffer by its global number, the item within the buffer. */
  datatype ChainItem = ChainItem(thread: nat, buffer: nat, item: nat)

  /** The newest index of a hash, and the place of the link that ends its chain. */
  datatype HistogramEntry = HistogramEntry(hash: Hash, value: nat, end: ChainItem)

  type Buckets = seq<map<Hash, HistogramEntry>>

  datatype OrderedBuffer = OrderedBuffer(globalIndex: nat, data: seq<nat>)

  datatype Offset = Offset(index: nat, size: nat)

  // ---------- The shared tracker ----------

  function Sum(sizes: seq<nat>, k: nat): nat
    requires k <= |sizes|
  {
    if k == 0 then 0 else Sum(sizes, k - 1) + sizes[k - 1]
  }

  lemma {:induction false} SumAppend(sizes: seq<nat>, n: nat, k: nat)
    requires k <= |sizes|
    ensures Sum(sizes + [n], k) == Sum(sizes, k)
  {
    if k > 0 {
      SumAppend(sizes, n, k - 1);
    }
  }

  /** The ranges of different allocations do not meet. */
  lemma {:induction false} RangesFollow(sizes: seq<nat>, a: nat, b: nat)
    requires a < b <= |sizes|
    ensures Sum(sizes, a) + sizes[a] <= Sum(sizes, b)
  {
    if a + 1 < b {
      RangesFollow(sizes, a, b - 1);
    }
  }

  class GlobalIndexTracker {
    var value: Offset
    /** The sizes of all ranges handed out so far. */
    ghost var sizes: seq<nat>

    ghost predicate Valid()
      reads this
    {
      value == Offset(|sizes|, Sum(sizes, |sizes|))
    }

    constructor ()
      ensures Valid() && sizes == []
    {
      value := Offset(0, 0);
      sizes := [];
    }

    /** The new range starts where all earlier ranges end. */
    method Allocate(size: nat) returns (offset: Offset)
      requires Valid()
      modifies this
      ensures Valid() && sizes == old(sizes) + [size]
      ensures offset == Offset(|old(sizes)|, Sum(sizes, |old(sizes)|)) == old(value)
      ensures value == Offset(offset.index + 1, offset.size + size)
    {
      SumAppend(sizes, size, |sizes|);
      offset := value;
      value := Offset(value.index + 1, value.size + size);
      sizes := sizes + [size];
    }

    /** Other threads take ranges of these sizes. */
    method AllocateOthers(taken: seq<nat>)
      requires Valid()
      modifies this
      ensures Valid() && sizes == old(sizes) + taken && value.size >= old(value.size)
    {
      for i := 0 to |taken|
        invariant Valid() && sizes == old(sizes) + taken[..i] && value.size >= old(value.size)
      {
        var _ := Allocate(taken[i]);
      }
    }
  }

  // ---------- What a histogram shows ----------

  /** The first push of h, or k when there is none among the first k. */
  function First(log: seq<Push>, k: nat, h: Hash): (f: nat)
    requires k <= |log|
    ensures f <= k && (f < k ==> log[f].hash == h) && forall j :: 0 <= j < f ==> log[j].hash != h
  {
    if k == 0 then 0
    else
      var f := First(log, k - 1, h);
      if f < k - 1 || log[k - 1].hash == h then f else k
  }

  ghost predicate Rising(log: seq<Push>) {
    forall j, k :: 0 <= j < k < |log| ==> log[j].at < log[k].at
  }

  /** The entry of h, if any, holds its newest index and the place of its oldest link. */
  ghost predicate EntryShows(buckets: Buckets, log: seq<Push>, spots: seq<ChainItem>, h: Hash)
    requires |buckets| > 0 && |spots| == |log|
  {
    var m := buckets[Mask(h, |buckets|)];
    var f := First(log, |log|, h);
    (h in m <==> f < |log|) && (h in m ==> m[h] == HistogramEntry(h, Latest(log, |log|, h), spots[f]))
  }

  /** Log and spots record the pushes of this thread, links all overflow buffers laid end to end. */
  ghost predicate Shows(buckets: Buckets, log: seq<Push>, spots: seq<ChainItem>, links: seq<nat>) {
    |buckets| > 0 && |spots| == |log| && Linked(log, links) && Rising(log) &&
    (forall h :: EntryShows(buckets, log, spots, h))
  }

  lemma {:induction false} FirstPrefix(log: seq<Push>, p: Push, k: nat, h: Hash)
    requires k <= |log|
    ensures First(log + [p], k, h) == First(log, k, h)
  {
    if k > 0 {
      FirstPrefix(log, p, k - 1, h);
    }
  }

  lemma {:induction false} FirstLatest(log: seq<Push>, k: nat, h: Hash)
    requires k <= |log| && Distinct(log)
    ensures First(log, k, h) == k <==> Latest(log, k, h) == 0
  {
    if k > 0 {
      FirstLatest(log, k - 1, h);
    }
  }

  function Bucket(buckets: Buckets, h: Hash): (m: map<Hash, HistogramEntry>)
    requires |buckets| > 0
  {
    buckets[Mask(h, |buckets|)]
  }

  /** The entry after one more push: a vacant one records the place, an occupied one keeps it. */
  function Accumulate(buckets: Buckets, p: Push, spot: ChainItem): Buckets
    requires |buckets| > 0
  {
    var m := Bucket(buckets, p.hash);
    var entry := if p.hash in m then m[p.hash].(value := p.at) else HistogramEntry(p.hash, p.at, spot);
    buckets[Mask(p.hash, |buckets|) := m[p.hash := entry]]
  }

  lemma AccumulateShows(
    buckets: Buckets, log: seq<Push>, spots: seq<ChainItem>, links: seq<nat>, p: Push, spot: ChainItem)
    requires Shows(buckets, log, spots, links) && p.at < |links| && 0 < p.at
    requires forall k :: 0 <= k < |log| ==> log[k].at < p.at
    ensures Shows(Accumulate(buckets, p, spot), log + [p], spots + [spot], links[p.at := Latest(log, |log|, p.hash)])
    ensures p.hash in Bucket(buckets, p.hash) <==> Latest(log, |log|, p.hash) != 0
    ensures p.hash in Bucket(buckets, p.hash) ==> Bucket(buckets, p.hash)[p.hash].value == Latest(log, |log|, p.hash)
  {
    PushKeeps(log, links, p);
    forall h ensures EntryShows(Accumulate(buckets, p, spot), log + [p], spots + [spot], h) {
      assert EntryShows(buckets, log, spots, h);
      assert EntryShows(buckets, log, spots, p.hash);
      FirstPrefix(log, p, |log|, h);
    }
    assert EntryShows(buckets, log, spots, p.hash);
    FirstLatest(log, |log|, p.hash);
  }

  // ---------- One input ----------

  /** The pushes of the first k items of an input whose range starts after `start`. */
  function Pushes(input: seq<Hash>, start: nat, k: nat): (log: seq<Push>)
    requires k <= |input|
    ensures |log| == k && forall i :: 0 <= i < k ==> log[i] == Push(start + i + 1, input[i])
  {
    seq(k, i requires 0 <= i < k => Push(start + i + 1, input[i]))
  }

  function Spots(thread: nat, buffer: nat, k: nat): (spots: seq<ChainItem>)
    ensures |spots| == k && forall i :: 0 <= i < k ==> spots[i] == ChainItem(thread, buffer, i)
  {
    seq(k, i requires 0 <= i < k => ChainItem(thread, buffer, i))
  }

  /** The links of the range after `start` are the data of a buffer. */
  predicate BufferAt(links: seq<nat>, start: nat, data: seq<nat>) {
    start + |data| < |links| && links[start + 1..start + 1 + |data|] == data
  }

  ghost predicate Below(log: seq<Push>, top: nat) {
    forall k :: 0 <= k < |log| ==> log[k].at <= top
  }

  /** Zero links for the indices up to top. */
  function Stretch(links: seq<nat>, top: nat): (more: seq<nat>)
    ensures |more| == (if |links| <= top then top + 1 else |links|)
    ensures forall j :: 0 <= j < |more| ==> more[j] == if j < |links| then links[j] else 0
  {
    links + seq(if |links| <= top then top + 1 - |links| else 0, j => 0)
  }

  lemma StretchShows(buckets: Buckets, log: seq<Push>, spots: seq<ChainItem>, links: seq<nat>, top: nat)
    requires Shows(buckets, log, spots, links)
    ensures Shows(buckets, log, spots, Stretch(links, top))
  {
    LinksExtend(log, links, Stretch(links, top));
  }

  lemma AccumulateNext(
    buckets: Buckets, log: seq<Push>, spots: seq<ChainItem>, links: seq<nat>,
    input: seq<Hash>, start: nat, i: nat, spot: ChainItem)
    requires i < |input| && |links| == start + |input| + 1 && Below(log, start)
    requires Shows(buckets, log + Pushes(input, start, i), spots + Spots(spot.thread, spot.buffer, i), links)
    requires spot.item == i
    ensures var p, m := Push(start + i + 1, input[i]), Bucket(buckets, input[i]);
      var head := if p.hash in m then m[p.hash].value else 0;
      Shows(Accumulate(buckets, p, spot), log + Pushes(input, start, i + 1),
            spots + Spots(spot.thread, spot.buffer, i + 1), links[p.at := head])
  {
    var done := log + Pushes(input, start, i);
    var p := Push(start + i + 1, input[i]);
    AccumulateShows(buckets, done, spots + Spots(spot.thread, spot.buffer, i), links, p, spot);
    assert log + Pushes(input, start, i + 1) == done + [p];
    assert spots + Spots(spot.thread, spot.buffer, i + 1) == spots + Spots(spot.thread, spot.buffer, i) + [spot];
  }

  predicate LinkIs(links: seq<nat>, at: nat, value: nat) {
    at < |links| && links[at] == value
  }

  /** The first i items of an input are accumulated; the links of the others are still zero. */
  ghost predicate Partway(
    buckets: Buckets, log: seq<Push>, spots: seq<ChainItem>, links: seq<nat>,
    input: seq<Hash>, start: nat, thread: nat, buffer: nat, overflow: seq<nat>, i: nat)
  {
    i <= |input| == |overflow| && |links| == start + |input| + 1 && Below(log, start) &&
    Shows(buckets, log + Pushes(input, start, i), spots + Spots(thread, buffer, i), links) &&
    (forall j :: 0 <= j < |overflow| ==> LinkIs(links, start + 1 + j, overflow[j])) &&
    (forall j :: i <= j < |overflow| ==> overflow[j] == 0)
  }

  lemma PartwayStart(
    buckets: Buckets, log: seq<Push>, spots: seq<ChainItem>, links: seq<nat>,
    input: seq<Hash>, start: nat, thread: nat, buffer: nat, overflow: seq<nat>)
    requires Shows(buckets, log, spots, links) && Below(log, start) && |links| <= start + 1
    requires |overflow| == |input| && forall j :: 0 <= j < |overflow| ==> overflow[j] == 0
    ensures Partway(buckets, log, spots, Stretch(links, start + |input|), input, start, thread, buffer, overflow, 0)
  {
    StretchShows(buckets, log, spots, links, start + |input|);
    assert log + Pushes(input, start, 0) == log && spots + Spots(thread, buffer, 0) == spots;
  }

  lemma PartwayStep(
    buckets: Buckets, log: seq<Push>, spots: seq<ChainItem>, links: seq<nat>,
    input: seq<Hash>, start: nat, thread: nat, buffer: nat, overflow: seq<nat>, i: nat)
    requires Partway(buckets, log, spots, links, input, start, thread, buffer, overflow, i) && i < |input|
    ensures var m := Bucket(buckets, input[i]);
      var head := if input[i] in m then m[input[i]].value else 0;
      Partway(Accumulate(buckets, Push(start + i + 1, input[i]), ChainItem(thread, buffer, i)),
              log, spots, links[start + i + 1 := head], input, start, thread, buffer, overflow[i := head], i + 1)
  {
    AccumulateNext(buckets, log, spots, links, input, start, i, ChainItem(thread, buffer, i));
  }

  lemma PartwayEnd(links: seq<nat>, start: nat, overflow: seq<nat>)
    requires |links| == start + |overflow| + 1
    requires forall j :: 0 <= j < |overflow| ==> LinkIs(links, start + 1 + j, overflow[j])
    ensures BufferAt(links, start, overflow)
  {
    forall j | 0 <= j < |overflow| ensures links[start + 1..start + 1 + |overflow|][j] == overflow[j] {
      assert LinkIs(links, start + 1 + j, overflow[j]);
    }
  }

  method AccumulateInput(
    thread: nat, tracker: GlobalIndexTracker, input: seq<Hash>, buckets: Buckets,
    ghost log: seq<Push>, ghost spots: seq<ChainItem>, ghost links: seq<nat>)
    returns (result: Buckets, buffer: OrderedBuffer, ghost links': seq<nat>)
    requires tracker.Valid() && Shows(buckets, log, spots, links)
    requires Below(log, tracker.value.size) && |links| <= tracker.value.size + 1
    modifies tracker
    ensures tracker.Valid() && tracker.sizes == old(tracker.sizes) + [|input|]
    ensures tracker.value.size == old(tracker.value.size) + |input|
    ensures buffer.globalIndex == old(tracker.value.index) && |buffer.data| == |input|
    ensures |result| == |buckets|
    ensures Shows(result, log + Pushes(input, old(tracker.value.size), |input|),
                  spots + Spots(thread, buffer.globalIndex, |input|), links')
    ensures |links'| == tracker.value.size + 1 && BufferAt(links', old(tracker.value.size), buffer.data)
    ensures forall j :: 0 <= j < |links| ==> links'[j] == links[j]
  {
    var offset := tracker.Allocate(|input|);
    var start := offset.size;
    result := buckets;
    var overflow := new nat[|input|](_ => 0);
    links' := Stretch(links, start + |input|);
    PartwayStart(buckets, log, spots, links, input, start, thread, offset.index, overflow[..]);
    for i := 0 to |input|
      invariant |result| == |buckets|
      invariant tracker.Valid() && tracker.sizes == old(tracker.sizes) + [|input|]
      invariant tracker.value.size == start + |input|
      invariant Partway(result, log, spots, links', input, start, thread, offset.index, overflow[..], i)
      invariant forall j :: 0 <= j < |links| ==> links'[j] == links[j]
    {
      PartwayStep(result, log, spots, links', input, start, thread, offset.index, overflow[..], i);
      ghost var o := overflow[..];
      var m := Bucket(result, input[i]);
      if input[i] in m {
        overflow[i] := m[input[i]].value;
      }
      assert overflow[..] == o[i := overflow[i]];
      result := Accumulate(result, Push(start + i + 1, input[i]), ChainItem(thread, offset.index, i));
      links' := links'[start + i + 1 := overflow[i]];
    }
    PartwayEnd(links', start, overflow[..]);
    buffer := OrderedBuffer(offset.index, overflow[..]);
  }

  // ---------- All inputs of a thread ----------

  function LogOf(inputs: seq<seq<Hash>>, starts: seq<nat>, k: nat): seq<Push>
    requires k <= |inputs| && k <= |starts|
  {
    if k == 0 then [] else LogOf(inputs, starts, k - 1) + Pushes(inputs[k - 1], starts[k - 1], |inputs[k - 1]|)
  }

  function SpotsOf(thread: nat, inputs: seq<seq<Hash>>, buffers: seq<OrderedBuffer>, k: nat): seq<ChainItem>
    requires k <= |inputs| && k <= |buffers|
  {
    if k == 0 then []
    else SpotsOf(thread, inputs, buffers, k - 1) + Spots(thread, buffers[k - 1].globalIndex, |inputs[k - 1]|)
  }

  /** Buffer b holds the links of the range that the tracker gave out under the number of b. */
  ghost predicate BufferPlaced(sizes: seq<nat>, input: seq<Hash>, start: nat, buffer: OrderedBuffer, links: seq<nat>) {
    buffer.globalIndex < |sizes| && sizes[buffer.globalIndex] == |input| == |buffer.data| &&
    start == Sum(sizes, buffer.globalIndex) && BufferAt(links, start, buffer.data)
  }

  /** The first k inputs are accumulated. */
  ghost predicate Accumulated(
    thread: nat, inputs: seq<seq<Hash>>, k: nat, sizes: seq<nat>,
    buckets: Buckets, buffers: seq<OrderedBuffer>, starts: seq<nat>, links: seq<nat>)
  {
    k <= |inputs| && k == |buffers| == |starts| &&
    Shows(buckets, LogOf(inputs, starts, k), SpotsOf(thread, inputs, buffers, k), links) &&
    (forall b :: 0 <= b < k ==> BufferPlaced(sizes, inputs[b], starts[b], buffers[b], links)) &&
    |links| <= Sum(sizes, |sizes|) + 1
  }

  lemma {:induction false} SumExtends(sizes: seq<nat>, more: seq<nat>, k: nat)
    requires k <= |sizes|
    ensures Sum(sizes + more, k) == Sum(sizes, k)
  {
    if k > 0 {
      SumExtends(sizes, more, k - 1);
    }
  }

  lemma {:induction false} SumGrows(sizes: seq<nat>, a: nat, b: nat)
    requires a <= b <= |sizes|
    ensures Sum(sizes, a) <= Sum(sizes, b)
  {
    if a < b {
      SumGrows(sizes, a, b - 1);
    }
  }

  lemma PlacedStays(
    sizes: seq<nat>, more: seq<nat>, input: seq<Hash>, start: nat, buffer: OrderedBuffer, links: seq<nat>,
    links': seq<nat>)
    requires BufferPlaced(sizes, input, start, buffer, links)
    requires |links| <= |links'| && forall j :: 0 <= j < |links| ==> links'[j] == links[j]
    ensures BufferPlaced(sizes + more, input, start, buffer, links')
  {
    SumExtends(sizes, more, buffer.globalIndex);
    var from, till := start + 1, start + 1 + |buffer.data|;
    assert links'[from..till] == links[from..till];
  }

  lemma {:induction false} LogPrefix(inputs: seq<seq<Hash>>, starts: seq<nat>, start: nat, k: nat)
    requires k <= |inputs| && k <= |starts|
    ensures LogOf(inputs, starts + [start], k) == LogOf(inputs, starts, k)
  {
    if k > 0 {
      LogPrefix(inputs, starts, start, k - 1);
    }
  }

  lemma {:induction false} SpotsPrefix(
    thread: nat, inputs: seq<seq<Hash>>, buffers: seq<OrderedBuffer>, buffer: OrderedBuffer, k: nat)
    requires k <= |inputs| && k <= |buffers|
    ensures SpotsOf(thread, inputs, buffers + [buffer], k) == SpotsOf(thread, inputs, buffers, k)
  {
    if k > 0 {
      SpotsPrefix(thread, inputs, buffers, buffer, k - 1);
    }
  }

  lemma OthersKeep(
    thread: nat, inputs: seq<seq<Hash>>, k: nat, sizes: seq<nat>, more: seq<nat>,
    buckets: Buckets, buffers: seq<OrderedBuffer>, starts: seq<nat>, links: seq<nat>)
    requires Accumulated(thread, inputs, k, sizes, buckets, buffers, starts, links)
    ensures Accumulated(thread, inputs, k, sizes + more, buckets, buffers, starts, links)
  {
    SumExtends(sizes, more, |sizes|);
    SumGrows(sizes + more, |sizes|, |sizes + more|);
    forall b | 0 <= b < k ensures BufferPlaced(sizes + more, inputs[b], starts[b], buffers[b], links) {
      PlacedStays(sizes, more, inputs[b], starts[b], buffers[b], links, links);
    }
  }

  lemma OneMoreInput(
    thread: nat, inputs: seq<seq<Hash>>, k: nat, sizes: seq<nat>,
    buckets: Buckets, buffers: seq<OrderedBuffer>, starts: seq<nat>, links: seq<nat>,
    buckets': Buckets, buffer: OrderedBuffer, links': seq<nat>)
    requires Accumulated(thread, inputs, k, sizes, buckets, buffers, starts, links) && k < |inputs|
    requires buffer.globalIndex == |sizes| && |buffer.data| == |inputs[k]|
    requires Shows(buckets', LogOf(inputs, starts, k) + Pushes(inputs[k], Sum(sizes, |sizes|), |inputs[k]|),
                   SpotsOf(thread, inputs, buffers, k) + Spots(thread, |sizes|, |inputs[k]|), links')
    requires |links'| == Sum(sizes, |sizes|) + |inputs[k]| + 1 && BufferAt(links', Sum(sizes, |sizes|), buffer.data)
    requires forall j :: 0 <= j < |links| ==> links'[j] == links[j]
    ensures Accumulated(thread, inputs, k + 1, sizes + [|inputs[k]|], buckets', buffers + [buffer],
                        starts + [Sum(sizes, |sizes|)], links')
  {
    var start := Sum(sizes, |sizes|);
    LogPrefix(inputs, starts, start, k);
    SpotsPrefix(thread, inputs, buffers, buffer, k);
    SumExtends(sizes, [|inputs[k]|], |sizes|);
    forall b | 0 <= b < k + 1
      ensures BufferPlaced(sizes + [|inputs[k]|], inputs[b], (starts + [start])[b], (buffers + [buffer])[b], links')
    {
      if b < k {
        PlacedStays(sizes, [|inputs[k]|], inputs[b], starts[b], buffers[b], links, links');
      }
    }
  }

  lemma LogBelow(
    thread: nat, inputs: seq<seq<Hash>>, k: nat, sizes: seq<nat>,
    buckets: Buckets, buffers: seq<OrderedBuffer>, starts: seq<nat>, links: seq<nat>)
    requires Accumulated(thread, inputs, k, sizes, buckets, buffers, starts, links)
    ensures Below(LogOf(inputs, starts, k), Sum(sizes, |sizes|))
  {
    var log := LogOf(inputs, starts, k);
    forall j | 0 <= j < |log| ensures log[j].at <= Sum(sizes, |sizes|) {
      assert LinkedAt(log, links, j);
    }
  }

  /**
   * `others[i]` are the sizes that other threads allocate just before the i-th input.  The bucket
   * count must be a power of two; there is no result otherwise.
   */
  method AccumulateHistograms(
    thread: nat, bucketCount: nat, tracker: GlobalIndexTracker, inputs: seq<seq<Hash>>, others: seq<seq<nat>>)
    returns (r: Option<(Buckets, seq<OrderedBuffer>)>, ghost starts: seq<nat>, ghost links: seq<nat>)
    requires tracker.Valid() && |others| == |inputs|
    modifies tracker
    ensures tracker.Valid()
    ensures r.Some? <==> IsPow2(bucketCount)
    ensures r.Some? ==>
      |r.value.0| == bucketCount &&
      Accumulated(thread, inputs, |inputs|, tracker.sizes, r.value.0, r.value.1, starts, links)
  {
    starts, links := [], [0];
    if !IsPow2(bucketCount) {
      return None, starts, links;
    }
    var buckets: Buckets := seq(bucketCount, i => map[]);
    var buffers := [];
    for k := 0 to |inputs|
      invariant tracker.Valid() && |buckets| == bucketCount
      invariant Accumulated(thread, inputs, k, tracker.sizes, buckets, buffers, starts, links)
    {
      ghost var sizes := tracker.sizes;
      tracker.AllocateOthers(others[k]);
      OthersKeep(thread, inputs, k, sizes, others[k], buckets, buffers, starts, links);
      sizes := tracker.sizes;
      LogBelow(thread, inputs, k, sizes, buckets, buffers, starts, links);
      var buckets', buffer, links' := AccumulateInput(
        thread, tracker, inputs[k], buckets,
        LogOf(inputs, starts, k), SpotsOf(thread, inputs, buffers, k), links);
      OneMoreInput(thread, inputs, k, sizes, buckets, buffers, starts, links, buckets', buffer, links');
      buckets, buffers, links := buckets', buffers + [buffer], links';
      starts := starts + [Sum(sizes, |sizes|)];
    }
    r := Some((buckets, buffers));
  }

  // ---------- The chains of one thread ----------

  /** A push and the place of its link belong to an item of the first k inputs. */
  ghost predicate ComesFrom(
    thread: nat, inputs: seq<seq<Hash>>, starts: seq<nat>, buffers: seq<OrderedBuffer>, k: nat, p: Push,
    spot: ChainItem)
    requires k <= |inputs| && k <= |starts| && k <= |buffers|
  {
    exists b, i ::
      0 <= b < k && 0 <= i < |inputs[b]| && p == Push(starts[b] + i + 1, inputs[b][i]) &&
      spot == ChainItem(thread, buffers[b].globalIndex, i)
  }

  lemma {:induction false} InLog(
    thread: nat, inputs: seq<seq<Hash>>, starts: seq<nat>, buffers: seq<OrderedBuffer>, k: nat, x: nat)
    requires k <= |inputs| && k <= |starts| && k <= |buffers|
    ensures |SpotsOf(thread, inputs, buffers, k)| == |LogOf(inputs, starts, k)|
    ensures x < |LogOf(inputs, starts, k)| ==>
      ComesFrom(thread, inputs, starts, buffers, k, LogOf(inputs, starts, k)[x], SpotsOf(thread, inputs, buffers, k)[x])
  {
    if k > 0 {
      InLog(thread, inputs, starts, buffers, k - 1, x);
      var before := |LogOf(inputs, starts, k - 1)|;
      if before <= x < |LogOf(inputs, starts, k)| {
        var b, i := k - 1, x - before;
        assert LogOf(inputs, starts, k)[x] == Push(starts[b] + i + 1, inputs[b][i]);
      } else if x < before {
        var p, spot := LogOf(inputs, starts, k - 1)[x], SpotsOf(thread, inputs, buffers, k - 1)[x];
        assert ComesFrom(thread, inputs, starts, buffers, k - 1, p, spot);
      }
    }
  }

  lemma {:induction false} LogHas(inputs: seq<seq<Hash>>, starts: seq<nat>, k: nat, b: nat, i: nat)
    requires b < k <= |inputs| && k <= |starts| && i < |inputs[b]|
    ensures Push(starts[b] + i + 1, inputs[b][i]) in LogOf(inputs, starts, k)
  {
    if b < k - 1 {
      LogHas(inputs, starts, k - 1, b, i);
    } else {
      assert Pushes(inputs[b], starts[b], |inputs[b]|)[i] == Push(starts[b] + i + 1, inputs[b][i]);
    }
  }

  lemma {:induction false} OldestEnds(log: seq<Push>, k: nat, h: Hash)
    requires k <= |log| && Distinct(log)
    ensures Listing(log, k, h) == [] <==> First(log, k, h) == k
    ensures First(log, k, h) < k ==>
      Listing(log, k, h)[|Listing(log, k, h)| - 1] == log[First(log, k, h)].at
  {
    if k > 0 {
      OldestEnds(log, k - 1, h);
    }
  }

  /** The chain of h for one thread. */
  ghost function Chain(inputs: seq<seq<Hash>>, starts: seq<nat>, h: Hash): seq<nat>
    requires |inputs| <= |starts|
  {
    Listing(LogOf(inputs, starts, |inputs|), |LogOf(inputs, starts, |inputs|)|, h)
  }

  /** Index p belongs to an item of hash h of this thread. */
  ghost predicate HasHash(inputs: seq<seq<Hash>>, starts: seq<nat>, h: Hash, p: nat)
    requires |inputs| <= |starts|
  {
    exists b, i :: 0 <= b < |inputs| && 0 <= i < |inputs[b]| && inputs[b][i] == h && p == starts[b] + i + 1
  }

  /** The chain visits exactly this thread's positions of h, in strictly falling global index. */
  lemma ChainFalls(
    thread: nat, inputs: seq<seq<Hash>>, sizes: seq<nat>,
    buckets: Buckets, buffers: seq<OrderedBuffer>, starts: seq<nat>, links: seq<nat>, h: Hash)
    requires Accumulated(thread, inputs, |inputs|, sizes, buckets, buffers, starts, links)
    ensures var chain := Chain(inputs, starts, h);
      (forall p: nat :: p in chain <==> HasHash(inputs, starts, h, p)) &&
      forall x, y :: 0 <= x < y < |chain| ==> chain[y] < chain[x]
  {
    var log, chain := LogOf(inputs, starts, |inputs|), Chain(inputs, starts, h);
    forall p: nat ensures p in chain <==> HasHash(inputs, starts, h, p) {
      ListedExactly(log, |log|, h, p);
      if x :| 0 <= x < |log| && log[x] == Push(p, h) {
        InLog(thread, inputs, starts, buffers, |inputs|, x);
      }
      if b, i :| 0 <= b < |inputs| && 0 <= i < |inputs[b]| && inputs[b][i] == h && p == starts[b] + i + 1 {
        LogHas(inputs, starts, |inputs|, b, i);
      }
    }
    forall x, y | 0 <= x < y < |chain| ensures chain[y] < chain[x] {
      ListedOnce(log, |log|, h, x, y);
    }
  }

  /** `end` names the last link of the chain, and that link holds the end marker. */
  ghost predicate EndsAt(chain: seq<nat>, end: ChainItem, thread: nat, buffers: seq<OrderedBuffer>, starts: seq<nat>)
    requires |buffers| == |starts| && chain != []
  {
    end.thread == thread &&
    exists b ::
      0 <= b < |buffers| && end.buffer == buffers[b].globalIndex && end.item < |buffers[b].data| &&
      chain[|chain| - 1] == starts[b] + end.item + 1 && buffers[b].data[end.item] == 0
  }

  /**
   * Walking the links laid out in the buffers from the entry of h visits the chain and stops at the
   * link that `end` names; a hash without an entry has no element in the inputs.
   */
  lemma ChainEndsAtEnd(
    thread: nat, inputs: seq<seq<Hash>>, sizes: seq<nat>,
    buckets: Buckets, buffers: seq<OrderedBuffer>, starts: seq<nat>, links: seq<nat>, h: Hash)
    requires Accumulated(thread, inputs, |inputs|, sizes, buckets, buffers, starts, links)
    ensures var m, chain := Bucket(buckets, h), Chain(inputs, starts, h);
      (h in m <==> chain != []) &&
      (h in m ==>
         m[h].hash == h && IsChain(links, m[h].value, chain) && EndsAt(chain, m[h].end, thread, buffers, starts))
  {
    var log := LogOf(inputs, starts, |inputs|);
    ChainIsListing(log, links, |log|, h);
    OldestEnds(log, |log|, h);
    LatestHeads(log, |log|, h);
    InLog(thread, inputs, starts, buffers, |inputs|, 0);
    assert EntryShows(buckets, log, SpotsOf(thread, inputs, buffers, |inputs|), h);
    var chain, f := Chain(inputs, starts, h), First(log, |log|, h);
    if chain != [] {
      InLog(thread, inputs, starts, buffers, |inputs|, f);
      var x := |chain| - 1;
      assert LinkFollows(links, chain, x);
      var spot := SpotsOf(thread, inputs, buffers, |inputs|)[f];
      OldestPlaced(thread, inputs, sizes, buffers, starts, links, chain, log[f], spot);
    }
  }

  lemma OldestPlaced(
    thread: nat, inputs: seq<seq<Hash>>, sizes: seq<nat>, buffers: seq<OrderedBuffer>, starts: seq<nat>,
    links: seq<nat>, chain: seq<nat>, p: Push, spot: ChainItem)
    requires |inputs| == |buffers| == |starts| && chain != []
    requires forall b :: 0 <= b < |inputs| ==> BufferPlaced(sizes, inputs[b], starts[b], buffers[b], links)
    requires ComesFrom(thread, inputs, starts, buffers, |inputs|, p, spot)
    requires chain[|chain| - 1] == p.at < |links| && links[p.at] == 0
    ensures EndsAt(chain, spot, thread, buffers, starts)
  {
    var b, i :| 0 <= b < |inputs| && 0 <= i < |inputs[b]| &&
      p == Push(starts[b] + i + 1, inputs[b][i]) && spot == ChainItem(thread, buffers[b].globalIndex, i);
    DataIsLink(sizes, inputs[b], starts[b], buffers[b], links, i);
  }

  lemma DataIsLink(sizes: seq<nat>, input: seq<Hash>, start: nat, buffer: OrderedBuffer, links: seq<nat>, i: nat)
    requires BufferPlaced(sizes, input, start, buffer, links) && i < |input|
    ensures start + i + 1 < |links| && buffer.data[i] == links[start + i + 1]
  {
    assert buffer.data[i] == links[start + 1..start + 1 + |buffer.data|][i];
  }
}
