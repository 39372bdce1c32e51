/** Whole runs of the hash map against a mathematical map, and what they cost. */
module MapRun {
  import opened Capacity
  import opened Group
  import opened HashMap
  import opened MapSpec
  import opened Wrappers

  datatype Op<!K, !V> =
    | Get(k: K)
    | Insert(k: K, v: V)
    | Remove(k: K)
    | EntryOrInsert(k: K, v: V)
    | ReplaceEntry(k: K, f: (K, V) -> Option<V>)
    | Retain(judge: Verdict<K, V>)
    | Len
    | Clear
    | Reserve(n: nat)
    | ShrinkTo(n: nat)

  datatype Reply<V> = Unit | Value(v: Option<V>) | Size(n: nat)

  /** What a mathematical map answers, and what it becomes. */
  function Spec<K, V>(m: map<K, V>, op: Op<K, V>): (map<K, V>, Reply<V>) {
    match op
    case Get(k) => (m, Value(Lookup(m, k)))
    case Insert(k, v) => (m[k := v], Value(Lookup(m, k)))
    case Remove(k) => (m - {k}, Value(Lookup(m, k)))
    case EntryOrInsert(k, v) => if k in m then (m, Value(Some(m[k]))) else (m[k := v], Value(None))
    case ReplaceEntry(k, f) =>
      if k !in m then (m, Value(None))
      else if f(k, m[k]).Some? then (m[k := f(k, m[k]).value], Value(f(k, m[k])))
      else (m - {k}, Value(None))
    case Retain(judge) => (Kept(m, judge), Unit)
    case Len => (m, Size(|m|))
    case Clear => (map[], Unit)
    case Reserve(n) => (m, Unit)
    case ShrinkTo(n) => (m, Unit)
  }

  /** The state after a run, and its answers. */
  function SpecRun<K, V>(m: map<K, V>, ops: seq<Op<K, V>>): (map<K, V>, seq<Reply<V>>) {
    if ops == [] then (m, [])
    else
      var (m', replies) := SpecRun(m, ops[..|ops| - 1]);
      var (m'', reply) := Spec(m', ops[|ops| - 1]);
      (m'', replies + [reply])
  }

  /** Whether an operation inserts a new key. */
  predicate AddsKey<K, V>(m: map<K, V>, op: Op<K, V>) {
    (op.Insert? || op.EntryOrInsert?) && op.k !in m
  }

  /** How many new keys a run inserts. */
  function NewKeys<K, V>(m: map<K, V>, ops: seq<Op<K, V>>): nat {
    if ops == [] then 0
    else
      var before := ops[..|ops| - 1];
      NewKeys(m, before) + if AddsKey(SpecRun(m, before).0, ops[|ops| - 1]) then 1 else 0
  }

  /** Operations that resize only when an insertion needs room. */
  predicate Incremental<K, V>(ops: seq<Op<K, V>>) {
    forall i :: 0 <= i < |ops| ==> !ops[i].Reserve? && !ops[i].ShrinkTo?
  }

  /** The replies so far, and the map now, are those of the mathematical map. */
  ghost predicate Replied<K, V>(m: map<K, V>, ops: seq<Op<K, V>>, replies: seq<Reply<V>>, now: map<K, V>) {
    |replies| <= |ops| && SpecRun(m, ops[..|replies|]) == (now, replies)
  }

  /** New keys inserted by the first i operations. */
  ghost function Keyed<K, V>(m: map<K, V>, ops: seq<Op<K, V>>, i: nat): nat
    requires i <= |ops|
  {
    NewKeys(m, ops[..i])
  }

  lemma ReplyNext<K, V>(m: map<K, V>, ops: seq<Op<K, V>>, replies: seq<Reply<V>>, now: map<K, V>)
    requires Replied(m, ops, replies, now) && |replies| < |ops|
    ensures var (next, reply) := Spec(now, ops[|replies|]);
            && Replied(m, ops, replies + [reply], next)
            && Keyed(m, ops, |replies| + 1) == Keyed(m, ops, |replies|) + if AddsKey(now, ops[|replies|]) then 1 else 0
  {
    var i := |replies|;
    assert ops[..i + 1][..i] == ops[..i];
  }

  /** There is no room for the operation and none can be made: it panics. */
  predicate Starved<K(==, 0, !new), V(==, 0, !new)>(m: HashMap<K, V>, op: Op<K, V>)
    reads m, m.table
  {
    match op
    case Insert(_, _) => m.table.growthLeft == 0 && !m.table.Reservable(1)
    case EntryOrInsert(_, _) => m.table.growthLeft == 0 && !m.table.Reservable(1)
    case Reserve(n) => m.table.growthLeft < n && !m.table.Reservable(n)
    case _ => false
  }

  /** How many free places an operation asks for before it starts. */
  function AsksFor<K, V>(op: Op<K, V>): nat {
    match op
    case Insert(_, _) => 1
    case EntryOrInsert(_, _) => 1
    case Reserve(n) => n
    case _ => 0
  }

  /** Every operation has room: a table for twice the elements the run may hold and the operation asks for. */
  ghost predicate Affordable<K, V>(m: map<K, V>, ops: seq<Op<K, V>>, bucketLimit: nat) {
    var most := |m| + NewKeys(m, ops);
    forall i :: 0 <= i < |ops| ==> HasRoom(most, ops[i], bucketLimit)
  }

  /** The operation has room in a map of at most this many keys. */
  predicate HasRoom<K, V>(most: nat, op: Op<K, V>, bucketLimit: nat) {
    Allocates(2 * (most + AsksFor(op)), bucketLimit)
  }

  /** An operation has room if a table for twice the elements it may end up with can be allocated. */
  lemma NotStarved<K(0, !new), V(0, !new)>(m: HashMap<K, V>, op: Op<K, V>, most: nat)
    requires m.Valid() && |m.model| + AsksFor(op) <= most && Allocates(2 * most, m.table.bucketLimit)
    ensures !Starved(m, op)
  {
    m.ItemsCount();
    var items, n := m.table.items + AsksFor(op), AsksFor(op);
    if n > 0 {
      BucketsMonotone(items, 2 * most);
      BucketsSuffice(2 * most);
      if items > BucketMaskToCapacity(m.table.bucketMask) / 2 {
        BucketsMonotone(m.table.ResizeTarget(items), 2 * most);
      }
    }
  }

  /** A run adds no more keys than it inserts, and a longer run inserts no fewer. */
  lemma {:induction false} KeysBound<K, V>(m: map<K, V>, ops: seq<Op<K, V>>, i: nat)
    requires i <= |ops|
    ensures |SpecRun(m, ops[..i]).0| <= |m| + Keyed(m, ops, i)
    ensures Keyed(m, ops, i) <= NewKeys(m, ops)
  {
    KeysGrow(m, ops, i);
    SizeBound(m, ops[..i]);
  }

  /** The next operation of an affordable run is not starved. */
  lemma NextHasRoom<K(0, !new), V(0, !new)>(
    m: HashMap<K, V>, m0: map<K, V>, ops: seq<Op<K, V>>, replies: seq<Reply<V>>)
    requires m.Valid() && Replied(m0, ops, replies, m.model) && |replies| < |ops|
    requires Affordable(m0, ops, m.table.bucketLimit)
    ensures !Starved(m, ops[|replies|])
  {
    KeysBound(m0, ops, |replies|);
    assert HasRoom(|m0| + NewKeys(m0, ops), ops[|replies|], m.table.bucketLimit);
    NotStarved(m, ops[|replies|], |m0| + NewKeys(m0, ops) + AsksFor(ops[|replies|]));
  }

  lemma {:induction false} KeysGrow<K, V>(m: map<K, V>, ops: seq<Op<K, V>>, i: nat)
    requires i <= |ops|
    ensures Keyed(m, ops, i) <= NewKeys(m, ops)
    decreases |ops|
  {
    if i < |ops| {
      var before := ops[..|ops| - 1];
      assert before[..i] == ops[..i];
      KeysGrow(m, before, i);
    } else {
      assert ops[..i] == ops;
    }
  }

  lemma {:induction false} SizeBound<K, V>(m: map<K, V>, ops: seq<Op<K, V>>)
    ensures |SpecRun(m, ops).0| <= |m| + NewKeys(m, ops)
    decreases |ops|
  {
    if ops != [] {
      var before, op := ops[..|ops| - 1], ops[|ops| - 1];
      SizeBound(m, before);
      StepSize(SpecRun(m, before).0, op);
    }
  }

  lemma StepSize<K, V>(m: map<K, V>, op: Op<K, V>)
    ensures |Spec(m, op).0| <= |m| + if AddsKey(m, op) then 1 else 0
  {
    var m' := Spec(m, op).0;
    if AddsKey(m, op) {
      assert m'.Keys == m.Keys + {op.k};
    } else {
      assert m'.Keys <= m.Keys;
      SubsetSmaller(m'.Keys, m.Keys);
    }
  }

  /** Reads the entry for k, inserting v first if there is none. */
  method PerformEntry<K(==, 0, !new), V(==, 0, !new)>(
    m: HashMap<K, V>, k: K, v: V) returns (result: Outcome, found: Option<V>)
    requires m.Valid()
    modifies m`model, m.table, m.table.ctrl, m.table.data
    ensures m.Valid()
    ensures m.table.ctrl == old(m.table.ctrl) || fresh(m.table.ctrl)
    ensures m.table.data == old(m.table.data) || fresh(m.table.data)
    ensures found == if k in old(m.model) then Some(old(m.model)[k]) else None
    ensures m.model == if result.Done? && k !in old(m.model) then old(m.model)[k := v] else old(m.model)
    ensures result.Done? ==> Spec(old(m.model), EntryOrInsert(k, v)) == (m.model, Value(found))
    ensures result.CapacityOverflow? ==> m.table.growthLeft == 0 && !m.table.Reservable(1)
    ensures m.table.Spent() <= old(m.table.Spent()) + if result.Done? && k !in old(m.model) then 2 else 0
  {
    var entry := m.Entry(k);
    if entry.Some? {
      m.EntryIn(entry.value);
      return Done, Some(m.table.data[entry.value].1);
    }
    result := m.VacantInsert(k, v);
    found := None;
  }

  /** Updates or removes the entry for k, if there is one, and reads what is left of it. */
  method PerformReplace<K(==, 0, !new), V(==, 0, !new)>(
    m: HashMap<K, V>, k: K, f: (K, V) -> Option<V>) returns (left: Option<V>)
    requires m.Valid()
    modifies m`model, m.table`growthLeft, m.table`items, m.table.ctrl, m.table.data
    ensures m.Valid() && m.table.Spent() <= old(m.table.Spent())
    ensures left == if k in old(m.model) then f(k, old(m.model)[k]) else None
    ensures m.model == match left case Some(v) => old(m.model)[k := v] case None => old(m.model) - {k}
    ensures Spec(old(m.model), ReplaceEntry(k, f)) == (m.model, Value(left))
  {
    var entry := m.Entry(k);
    if entry.None? {
      return None;
    }
    var handle := m.ReplaceEntryWith(entry.value, k, f);
    if handle.Vacant? {
      return None;
    }
    m.EntryIn(entry.value);
    left := Some(m.table.data[entry.value].1);
  }

  /** Performs one operation; an overflow (a panic) gives no answer and changes no entry. */
  method Perform<K(==, 0, !new), V(==, 0, !new)>(
    m: HashMap<K, V>, op: Op<K, V>) returns (result: Outcome, reply: Reply<V>)
    requires m.Valid()
    modifies m`model, m.table, m.table.ctrl, m.table.data
    ensures m.Valid()
    ensures m.table.ctrl == old(m.table.ctrl) || fresh(m.table.ctrl)
    ensures m.table.data == old(m.table.data) || fresh(m.table.data)
    ensures result.Done? ==> Spec(old(m.model), op) == (m.model, reply)
    ensures result.CapacityOverflow? ==> m.model == old(m.model) && Starved(m, op)
    ensures result.Done? && (op.Get? || op.Insert? || op.Remove? || op.EntryOrInsert?) ==>
      reply == Value(if op.k in old(m.model) then Some(old(m.model)[op.k]) else None)
    ensures op.Get? || op.Len? || op.Reserve? || op.ShrinkTo? ==> m.model == old(m.model)
    ensures result.Done? && op.Insert? ==> m.model == old(m.model)[op.k := op.v]
    ensures op.Remove? ==> result.Done? && m.model == old(m.model) - {op.k}
    ensures result.Done? && op.EntryOrInsert? ==>
      m.model == if op.k in old(m.model) then old(m.model) else old(m.model)[op.k := op.v]
    ensures op.ReplaceEntry? ==>
      result.Done? &&
      reply == Value(if op.k in old(m.model) then op.f(op.k, old(m.model)[op.k]) else None) &&
      m.model == match reply.v case Some(v) => old(m.model)[op.k := v] case None => old(m.model) - {op.k}
    ensures op.Retain? ==> result.Done? && reply == Unit
    ensures op.Retain? ==> forall k :: k in m.model <==> k in old(m.model) && op.judge(k, old(m.model)[k]).0
    ensures op.Retain? ==> forall k :: k in m.model ==> m.model[k] == op.judge(k, old(m.model)[k]).1
    ensures op.Len? ==> result.Done? && reply == Size(|old(m.model)|)
    ensures op.Clear? ==> result.Done? && reply == Unit && m.model == map[]
    ensures result.Done? && (op.Reserve? || op.ShrinkTo?) ==> reply == Unit
    ensures !op.Reserve? && !op.ShrinkTo? ==>
              m.table.Spent() <= old(m.table.Spent())
                + if result.Done? && AddsKey(old(m.model), op) then 2 else 0
  {
    if op.Retain? || op.Len? || op.Clear? || op.Reserve? || op.ShrinkTo? {
      result, reply := PerformWhole(m, op);
    } else {
      result, reply := PerformKey(m, op);
    }
  }

  /** The operations on the entry of one key. */
  method PerformKey<K(==, 0, !new), V(==, 0, !new)>(
    m: HashMap<K, V>, op: Op<K, V>) returns (result: Outcome, reply: Reply<V>)
    requires m.Valid() && (op.Get? || op.Insert? || op.Remove? || op.EntryOrInsert? || op.ReplaceEntry?)
    modifies m`model, m.table, m.table.ctrl, m.table.data
    ensures m.Valid()
    ensures m.table.ctrl == old(m.table.ctrl) || fresh(m.table.ctrl)
    ensures m.table.data == old(m.table.data) || fresh(m.table.data)
    ensures result.Done? ==> Spec(old(m.model), op) == (m.model, reply)
    ensures result.CapacityOverflow? ==> m.model == old(m.model) && Starved(m, op)
    ensures result.Done? && !op.ReplaceEntry? ==>
      reply == Value(if op.k in old(m.model) then Some(old(m.model)[op.k]) else None)
    ensures op.Get? ==> m.model == old(m.model)
    ensures result.Done? && op.Insert? ==> m.model == old(m.model)[op.k := op.v]
    ensures op.Remove? ==> result.Done? && m.model == old(m.model) - {op.k}
    ensures result.Done? && op.EntryOrInsert? ==>
      m.model == if op.k in old(m.model) then old(m.model) else old(m.model)[op.k := op.v]
    ensures op.ReplaceEntry? ==>
      result.Done? &&
      reply == Value(if op.k in old(m.model) then op.f(op.k, old(m.model)[op.k]) else None) &&
      m.model == match reply.v case Some(v) => old(m.model)[op.k := v] case None => old(m.model) - {op.k}
    ensures m.table.Spent() <= old(m.table.Spent()) + if result.Done? && AddsKey(old(m.model), op) then 2 else 0
  {
    result, reply := Done, Unit;
    match op {
      case Get(k) =>
        var v := m.Get(k);
        reply := Value(v);
      case Insert(k, v) =>
        var outcome, previous := m.Insert(k, v);
        result, reply := outcome, Value(previous);
      case Remove(k) =>
        var removed := m.RemoveEntry(k);
        reply := Value(if removed.Some? then Some(removed.value.1) else None);
      case EntryOrInsert(k, v) =>
        var outcome, found := PerformEntry(m, k, v);
        result, reply := outcome, Value(found);
      case ReplaceEntry(k, f) =>
        var left := PerformReplace(m, k, f);
        reply := Value(left);
    }
  }

  /** The operations on the map as a whole. */
  method PerformWhole<K(==, 0, !new), V(==, 0, !new)>(
    m: HashMap<K, V>, op: Op<K, V>) returns (result: Outcome, reply: Reply<V>)
    requires m.Valid() && (op.Retain? || op.Len? || op.Clear? || op.Reserve? || op.ShrinkTo?)
    modifies m`model, m.table, m.table.ctrl, m.table.data
    ensures m.Valid()
    ensures m.table.ctrl == old(m.table.ctrl) || fresh(m.table.ctrl)
    ensures m.table.data == old(m.table.data) || fresh(m.table.data)
    ensures result.Done? ==> Spec(old(m.model), op) == (m.model, reply)
    ensures result.CapacityOverflow? ==> m.model == old(m.model) && op.Reserve? && Starved(m, op)
    ensures op.Len? || op.Reserve? || op.ShrinkTo? ==> m.model == old(m.model)
    ensures op.Retain? ==> forall k :: k in m.model <==> k in old(m.model) && op.judge(k, old(m.model)[k]).0
    ensures op.Retain? ==> forall k :: k in m.model ==> m.model[k] == op.judge(k, old(m.model)[k]).1
    ensures op.Clear? ==> m.model == map[]
    ensures reply == if op.Len? then Size(|old(m.model)|) else Unit
    ensures !op.Reserve? && !op.ShrinkTo? ==> m.table.Spent() <= old(m.table.Spent())
  {
    result, reply := Done, Unit;
    match op {
      case Retain(judge) =>
        m.Retain(judge);
      case Len =>
        var n := m.Len();
        reply := Size(n);
      case Clear =>
        m.Clear();
      case Reserve(n) =>
        result := m.Reserve(n);
      case ShrinkTo(n) =>
        m.ShrinkTo(n);
    }
  }

  /** Performs operations until the end or an overflow. Every answer is the one a mathematical map gives,
      and in incremental runs at most two elements are placed anew for each new key. */
  method Run<K(==, 0, !new), V(==, 0, !new)>(m: HashMap<K, V>, ops: seq<Op<K, V>>)
    returns (result: Outcome, replies: seq<Reply<V>>)
    requires m.Valid()
    modifies m`model, m.table, m.table.ctrl, m.table.data
    ensures m.Valid() && |replies| <= |ops| && (result.Done? <==> |replies| == |ops|)
    ensures result.CapacityOverflow? ==> Starved(m, ops[|replies|])
    ensures SpecRun(old(m.model), ops[..|replies|]) == (m.model, replies)
    ensures Incremental(ops) ==> m.table.Spent() <= old(m.table.Spent()) + 2 * Keyed(old(m.model), ops, |replies|)
    ensures Affordable(old(m.model), ops, m.table.bucketLimit) ==> result.Done?
  {
    replies := [];
    ghost var m0 := m.model;
    assert ops[..0] == [];
    result := Done;
    while |replies| < |ops| && result.Done?
      invariant m.Valid() && |replies| <= |ops|
      invariant result.CapacityOverflow? ==> |replies| < |ops| && Starved(m, ops[|replies|])
      invariant Affordable(m0, ops, m.table.bucketLimit) ==> result.Done?
      invariant m.table.ctrl == old(m.table.ctrl) || fresh(m.table.ctrl)
      invariant m.table.data == old(m.table.data) || fresh(m.table.data)
      invariant Replied(m0, ops, replies, m.model)
      invariant Incremental(ops) ==> m.table.Spent() <= old(m.table.Spent()) + 2 * Keyed(m0, ops, |replies|)
      decreases |ops| - |replies|, result.Done?
    {
      result, replies := PerformNext(m, ops, replies, m0);
    }
  }

  /** Performs the next operation of a run. */
  method PerformNext<K(==, 0, !new), V(==, 0, !new)>(
    m: HashMap<K, V>, ops: seq<Op<K, V>>, replies: seq<Reply<V>>, ghost m0: map<K, V>)
    returns (result: Outcome, replies': seq<Reply<V>>)
    requires m.Valid() && Replied(m0, ops, replies, m.model) && |replies| < |ops|
    modifies m`model, m.table, m.table.ctrl, m.table.data
    ensures m.Valid() && Replied(m0, ops, replies', m.model)
    ensures m.table.ctrl == old(m.table.ctrl) || fresh(m.table.ctrl)
    ensures m.table.data == old(m.table.data) || fresh(m.table.data)
    ensures |replies'| == |replies| + if result.Done? then 1 else 0
    ensures result.CapacityOverflow? ==>
      Starved(m, ops[|replies|]) && !Affordable(m0, ops, m.table.bucketLimit)
    ensures Incremental(ops) ==>
      m.table.Spent() + 2 * Keyed(m0, ops, |replies|) <= old(m.table.Spent()) + 2 * Keyed(m0, ops, |replies'|)
  {
    ReplyNext(m0, ops, replies, m.model);
    var reply;
    result, reply := Perform(m, ops[|replies|]);
    if result.Done? {
      return result, replies + [reply];
    }
    replies' := replies;
    if Affordable(m0, ops, m.table.bucketLimit) {
      NextHasRoom(m, m0, ops, replies);
    }
  }

  /**
   * A run on a new map. It finishes if it asks for no more room than there is; without explicit reserving or
   * shrinking, room for twice the new keys and two more is enough.
   */
  method RunNew<K(==, 0, !new), V(==, 0, !new)>(kind: GroupKind, hash: K -> Hash, bucketLimit: nat, ops: seq<Op<K, V>>)
    returns (m: HashMap<K, V>, result: Outcome, replies: seq<Reply<V>>)
    ensures m.Valid() && m.hash == hash && m.table.kind == kind && m.table.bucketLimit == bucketLimit
    ensures |replies| <= |ops| && (result.Done? <==> |replies| == |ops|)
    ensures result.CapacityOverflow? ==> Starved(m, ops[|replies|])
    ensures SpecRun(map[], ops[..|replies|]) == (m.model, replies)
    ensures result.Done? ==> SpecRun(map[], ops) == (m.model, replies)
    ensures Incremental(ops) ==> m.table.moved <= 2 * Keyed(map[], ops, |replies|)
    ensures result.Done? && Incremental(ops) ==> m.table.moved <= 2 * NewKeys(map[], ops)
    ensures Affordable(map[], ops, bucketLimit) ==> result.Done?
    ensures Incremental(ops) && Allocates(2 * NewKeys(map[], ops) + 2, bucketLimit) ==> result.Done?
    ensures
      Allocates(2 * |ops| + 2, bucketLimit) &&
      (forall i :: 0 <= i < |ops| && ops[i].Reserve? ==> Allocates(2 * (|ops| + ops[i].n), bucketLimit)) ==>
        result.Done?
  {
    NewKeysAtMost(map[], ops);
    if Incremental(ops) && Allocates(2 * NewKeys(map[], ops) + 2, bucketLimit) {
      AllAffordable(ops, bucketLimit, NewKeys(map[], ops));
    }
    if RoomForAll(ops, bucketLimit, |ops|) {
      AllAffordable(ops, bucketLimit, |ops|);
    }
    m := new HashMap(kind, hash, bucketLimit);
    result, replies := Run(m, ops);
    assert ops[..|ops|] == ops;
  }

  /** Room for `most` keys and one more, and for what the run reserves, with the factor two that is always enough. */
  ghost predicate RoomForAll<K, V>(ops: seq<Op<K, V>>, bucketLimit: nat, most: nat) {
    && Allocates(2 * most + 2, bucketLimit)
    && forall i :: 0 <= i < |ops| && ops[i].Reserve? ==> Allocates(2 * (most + ops[i].n), bucketLimit)
  }

  lemma AllAffordable<K, V>(ops: seq<Op<K, V>>, bucketLimit: nat, most: nat)
    requires NewKeys(map[], ops) <= most && RoomForAll(ops, bucketLimit, most)
    ensures Affordable(map[], ops, bucketLimit)
  {
    var none: map<K, V> := map[];
    forall i | 0 <= i < |ops|
      ensures HasRoom(|none| + NewKeys(none, ops), ops[i], bucketLimit)
    {
      var room := if ops[i].Reserve? then most + ops[i].n else most + 1;
      AllocatesLess(2 * (NewKeys(none, ops) + AsksFor(ops[i])), 2 * room, bucketLimit);
    }
  }

  lemma {:induction false} NewKeysAtMost<K, V>(m: map<K, V>, ops: seq<Op<K, V>>)
    ensures NewKeys(m, ops) <= |ops|
    decreases |ops|
  {
    if ops != [] {
      NewKeysAtMost(m, ops[..|ops| - 1]);
    }
  }
}
