/** Control tags, groups of tags, and the bit masks produced by matching a group. */
module Group {
  import opened Wrappers

  type Hash = h: nat | h < 0x1_0000_0000_0000_0000

  /** A control byte: a full bucket holds seven hash bits, the other two values are special. */
  type Tag = t: nat | t <= 128 || t == 255

  const EMPTY: Tag := 255
  const DELETED: Tag := 128

  predicate IsFull(t: Tag) {
    t < 128
  }

  /** Tells the two special tags apart by their lowest bit. */
  predicate SpecialIsEmpty(t: Tag)
    requires !IsFull(t)
  {
    t % 2 == 1
  }

  /** The top seven bits of the hash. */
  function FullTag(hash: Hash): Tag {
    hash / 0x200_0000_0000_0000
  }

  /** The tag is determined by the top seven of the 64 bits alone: dropping the other 57 leaves it. */
  lemma FullTagBits(hash: Hash)
    ensures FullTag(hash) < 128
    ensures FullTag(hash) * 0x200_0000_0000_0000 <= hash < (FullTag(hash) + 1) * 0x200_0000_0000_0000
  {
  }

  /** The three implementations of a group on 64-bit targets. */
  datatype GroupKind = Sse2 | Neon | Generic {
    function Width(): nat {
      if Sse2? then 16 else 8
    }
  }

  /** One boolean for each lane of a group, lowest address first. */
  type BitMask = seq<bool>

  predicate AnyBitSet(m: BitMask) {
    exists b :: 0 <= b < |m| && m[b]
  }

  /** The first set lane at or after lane i. */
  function NextSet(m: BitMask, i: nat): (j: nat)
    requires i <= |m|
    ensures i <= j <= |m| && (forall b :: i <= b < j ==> !m[b]) && (j < |m| ==> m[j])
    decreases |m| - i
  {
    if i == |m| || m[i] then i else NextSet(m, i + 1)
  }

  /** The number of clear lanes just below lane i. */
  function ClearBelow(m: BitMask, i: nat): (z: nat)
    requires i <= |m|
    ensures z <= i && (forall b :: i - z <= b < i ==> !m[b]) && (z < i ==> m[i - 1 - z])
  {
    if i == 0 || m[i - 1] then 0 else 1 + ClearBelow(m, i - 1)
  }

  /** The number of clear lanes at the low end. */
  function TrailingZeros(m: BitMask): (z: nat)
    ensures z <= |m| && (forall b :: 0 <= b < z ==> !m[b]) && (z < |m| ==> m[z])
  {
    NextSet(m, 0)
  }

  /** The number of clear lanes at the high end. */
  function LeadingZeros(m: BitMask): (z: nat)
    ensures z <= |m| && (forall b :: |m| - z <= b < |m| ==> !m[b]) && (z < |m| ==> m[|m| - 1 - z])
  {
    ClearBelow(m, |m|)
  }

  function LowestSetBit(m: BitMask): (r: Option<nat>)
    ensures r.None? <==> !AnyBitSet(m)
    ensures r.Some? ==> r.value < |m| && m[r.value] && forall b :: 0 <= b < r.value ==> !m[b]
  {
    var z := TrailingZeros(m);
    if z < |m| then Some(z) else None
  }

  function RemoveLowestBit(m: BitMask): (r: BitMask)
    requires AnyBitSet(m)
    ensures |r| == |m|
    ensures forall b :: 0 <= b < |m| ==> r[b] == (m[b] && Some(b) != LowestSetBit(m))
  {
    m[LowestSetBit(m).value := false]
  }

  function MatchEmpty(g: seq<Tag>): (m: BitMask)
    ensures |m| == |g| && forall b :: 0 <= b < |g| ==> m[b] == (g[b] == EMPTY)
  {
    seq(|g|, b requires 0 <= b < |g| => g[b] == EMPTY)
  }

  function MatchEmptyOrDeleted(g: seq<Tag>): (m: BitMask)
    ensures |m| == |g| && forall b :: 0 <= b < |g| ==> m[b] == (!IsFull(g[b]))
  {
    seq(|g|, b requires 0 <= b < |g| => !IsFull(g[b]))
  }

  function MatchFull(g: seq<Tag>): (m: BitMask)
    ensures |m| == |g| && forall b :: 0 <= b < |g| ==> m[b] == (IsFull(g[b]))
  {
    seq(|g|, b requires 0 <= b < |g| => IsFull(g[b]))
  }

  /** The word-at-a-time comparison lets a borrow leak into a lane that differs in the lowest bit only. */
  predicate MatchLane(g: seq<Tag>, tag: Tag, b: nat)
    requires b < |g|
  {
    g[b] == tag || (b > 0 && g[b] / 2 == tag / 2 && MatchLane(g, tag, b - 1))
  }

  function MatchTag(kind: GroupKind, g: seq<Tag>, tag: Tag): (m: BitMask)
    ensures |m| == |g|
  {
    seq(|g|, b requires 0 <= b < |g| => if kind.Generic? then MatchLane(g, tag, b) else g[b] == tag)
  }

  /** What a match may find: the tag itself or, for the portable group, one that differs in the lowest bit. */
  predicate Candidate(kind: GroupKind, t: Tag, tag: Tag) {
    t == tag || (kind.Generic? && t / 2 == tag / 2)
  }

  /** A match never misses; it only strays to full lanes, and only above a true match. */
  lemma {:induction false} MatchTagSound(kind: GroupKind, g: seq<Tag>, tag: Tag, b: nat)
    requires b < |g| && IsFull(tag)
    ensures g[b] == tag ==> MatchTag(kind, g, tag)[b]
    ensures MatchTag(kind, g, tag)[b] ==> Candidate(kind, g[b], tag)
    ensures MatchTag(kind, g, tag)[b] ==> IsFull(g[b]) && g[b] / 2 == tag / 2 && exists a :: 0 <= a <= b && g[a] == tag
  {
    if kind.Generic? && g[b] != tag && MatchLane(g, tag, b) {
      MatchTagSound(kind, g, tag, b - 1);
    }
  }

  /** EMPTY and DELETED become EMPTY, full tags become DELETED. */
  function ConvertSpecial(t: Tag): Tag {
    if IsFull(t) then DELETED else EMPTY
  }
}
