/**
 * The portable group: eight tags packed in one 64-bit word, lowest address first, and its bit mask
 * with stride eight, where the top bit of a byte stands for its lane.
 *
 * Each word-parallel operation is proved equal to the lane-by-lane one on the tags of the window.
 * Facts about bits are proved one lane at a time, so that every shift is by a constant; the case
 * splits with empty branches do just that.
 */
module GroupWord {
  import opened Wrappers
  import opened Group

  const HIGH: bv64 := 0x8080_8080_8080_8080
  const ONES: bv64 := 0x0101_0101_0101_0101

  /** The byte at bit position p. */
  function Lane(w: bv64, p: bv7): bv8
    requires p < 64
  {
    ((w >> p) & 0xff) as bv8
  }

  /** The bit of a mask that stands for the lane at p: the top bit of its byte. */
  predicate Flag(m: bv64, p: bv7)
    requires p < 64
  {
    (m >> p) & 0x80 != 0
  }

  function Byte(w: bv64, b: nat): bv8
    requires b < 8
  {
    if b == 0 then Lane(w, 0) else if b == 1 then Lane(w, 8) else if b == 2 then Lane(w, 16)
    else if b == 3 then Lane(w, 24) else if b == 4 then Lane(w, 32) else if b == 5 then Lane(w, 40)
    else if b == 6 then Lane(w, 48) else Lane(w, 56)
  }

  /** Lane b of a mask. */
  predicate Bit(m: bv64, b: nat)
    requires b < 8
  {
    if b == 0 then Flag(m, 0) else if b == 1 then Flag(m, 8) else if b == 2 then Flag(m, 16)
    else if b == 3 then Flag(m, 24) else if b == 4 then Flag(m, 32) else if b == 5 then Flag(m, 40)
    else if b == 6 then Flag(m, 48) else Flag(m, 56)
  }

  /** Only the top bits of the bytes are in use. */
  predicate Sparse(m: bv64) {
    m & !HIGH == 0
  }

  /** The word holds these tags. */
  ghost predicate Holds(w: bv64, g: seq<Tag>) {
    |g| == 8 && forall b :: 0 <= b < 8 ==> Byte(w, b) as int == g[b]
  }

  /** The mask has exactly these lanes set. */
  ghost predicate Marks(m: bv64, flags: BitMask) {
    Sparse(m) && |flags| == 8 && forall b :: 0 <= b < 8 ==> Bit(m, b) == flags[b]
  }

  // ---------- The word-parallel operations ----------

  function Repeat(t: bv8): bv64 {
    (t as bv64) * ONES
  }

  function MatchTagWord(w: bv64, tag: bv8): bv64 {
    var cmp := w ^ Repeat(tag);
    (cmp - ONES) & !cmp & HIGH
  }

  function MatchEmptyWord(w: bv64): bv64 {
    w & (w << 1) & HIGH
  }

  function MatchEmptyOrDeletedWord(w: bv64): bv64 {
    w & HIGH
  }

  function Invert(m: bv64): bv64 {
    m ^ HIGH
  }

  function MatchFullWord(w: bv64): bv64 {
    Invert(MatchEmptyOrDeletedWord(w))
  }

  function ConvertWord(w: bv64): bv64 {
    var full := !w & HIGH;
    !full + (full >> 7)
  }

  // ---------- Bytes as tags ----------

  lemma ByteFacts(x: bv8, y: bv8)
    ensures x == y <==> x as int == y as int
    ensures x & 0x80 != 0 <==> x as int >= 128
  {
  }

  lemma ByteHalf(x: bv8, y: bv8)
    ensures ((x ^ y) & 0xfe == 0) <==> (x as int) / 2 == (y as int) / 2
  {
    assert ((x ^ y) & 0xfe == 0) <==> (x >> 1) == (y >> 1);
    HalfShift(x);
    HalfShift(y);
    ByteFacts(x >> 1, y >> 1);
  }

  lemma HalfShift(x: bv8)
    ensures (x >> 1) as int == (x as int) / 2
  {
  }

  // ---------- Matching a tag ----------

  /** One lane of the comparison: equal, or different in the lowest bit with a borrow from below. */
  predicate Strays(x: bv8, tag: bv8, below: bool) {
    x == tag || ((x ^ tag) & 0xfe == 0 && below)
  }

  predicate LaneStrays(w: bv64, tag: bv8, b: nat)
    requires b < 8
  {
    Bit(MatchTagWord(w, tag), b) == Strays(Byte(w, b), tag, b > 0 && Bit(MatchTagWord(w, tag), b - 1))
  }

  lemma Lane0Strays(w: bv64, tag: bv8)
    ensures LaneStrays(w, tag, 0)
  {
  }

  lemma Lane1Strays(w: bv64, tag: bv8)
    ensures LaneStrays(w, tag, 1)
  {
  }

  lemma Lane2Strays(w: bv64, tag: bv8)
    ensures LaneStrays(w, tag, 2)
  {
  }

  lemma Lane3Strays(w: bv64, tag: bv8)
    ensures LaneStrays(w, tag, 3)
  {
  }

  lemma Lane4Strays(w: bv64, tag: bv8)
    ensures LaneStrays(w, tag, 4)
  {
  }

  lemma Lane5Strays(w: bv64, tag: bv8)
    ensures LaneStrays(w, tag, 5)
  {
  }

  lemma Lane6Strays(w: bv64, tag: bv8)
    ensures LaneStrays(w, tag, 6)
  {
  }

  lemma Lane7Strays(w: bv64, tag: bv8)
    ensures LaneStrays(w, tag, 7)
  {
  }

  lemma EveryLaneStrays(w: bv64, tag: bv8, b: nat)
    requires b < 8
    ensures LaneStrays(w, tag, b)
  {
    if b == 0 {
      Lane0Strays(w, tag);
    } else if b == 1 {
      Lane1Strays(w, tag);
    } else if b == 2 {
      Lane2Strays(w, tag);
    } else if b == 3 {
      Lane3Strays(w, tag);
    } else if b == 4 {
      Lane4Strays(w, tag);
    } else if b == 5 {
      Lane5Strays(w, tag);
    } else if b == 6 {
      Lane6Strays(w, tag);
    } else {
      Lane7Strays(w, tag);
    }
  }

  lemma StrayTags(x: bv8, tag: bv8, below: bool)
    ensures Strays(x, tag, below) <==> x as int == tag as int || (x as int / 2 == tag as int / 2 && below)
  {
    ByteFacts(x, tag);
    ByteHalf(x, tag);
  }

  lemma TagLane(w: bv64, g: seq<Tag>, byte: bv8, tag: Tag, b: nat)
    requires Holds(w, g) && byte as int == tag && b < 8
    ensures Bit(MatchTagWord(w, byte), b) <==>
      g[b] == tag || (g[b] / 2 == tag / 2 && b > 0 && Bit(MatchTagWord(w, byte), b - 1))
  {
    EveryLaneStrays(w, byte, b);
    StrayTags(Byte(w, b), byte, b > 0 && Bit(MatchTagWord(w, byte), b - 1));
  }

  lemma {:induction false} MatchTagLane(w: bv64, g: seq<Tag>, byte: bv8, tag: Tag, b: nat)
    requires Holds(w, g) && byte as int == tag && b < 8
    ensures Bit(MatchTagWord(w, byte), b) == MatchLane(g, tag, b)
  {
    TagLane(w, g, byte, tag, b);
    if b > 0 {
      MatchTagLane(w, g, byte, tag, b - 1);
    }
  }

  lemma MatchTagSparse(w: bv64, byte: bv8)
    ensures Sparse(MatchTagWord(w, byte))
  {
  }

  /** The word comparison marks exactly the lanes of the tag match, stray ones included. */
  lemma MatchTagRefines(w: bv64, g: seq<Tag>, byte: bv8, tag: Tag)
    requires Holds(w, g) && byte as int == tag
    ensures Marks(MatchTagWord(w, byte), MatchTag(Generic, g, tag))
  {
    MatchTagSparse(w, byte);
    forall b | 0 <= b < 8 ensures Bit(MatchTagWord(w, byte), b) == MatchTag(Generic, g, tag)[b] {
      MatchTagLane(w, g, byte, tag, b);
    }
  }

  // ---------- Matching special tags ----------

  lemma SpecialBit(w: bv64, b: nat)
    requires b < 8
    ensures Bit(MatchEmptyOrDeletedWord(w), b) == (Byte(w, b) & 0x80 != 0)
    ensures Bit(MatchFullWord(w), b) == (Byte(w, b) & 0x80 == 0)
    ensures Bit(MatchEmptyWord(w), b) == (Byte(w, b) & 0xc0 == 0xc0)
  {
    if b == 0 {
    } else if b == 1 {
    } else if b == 2 {
    } else if b == 3 {
    } else if b == 4 {
    } else if b == 5 {
    } else if b == 6 {
    } else {
    }
  }

  lemma SpecialSparse(w: bv64)
    ensures Sparse(MatchEmptyOrDeletedWord(w)) && Sparse(MatchFullWord(w)) && Sparse(MatchEmptyWord(w))
  {
  }

  /** Both top bits set means EMPTY, because no other tag above 128 exists. */
  lemma TopBits(x: bv8, t: Tag)
    requires x as int == t
    ensures (x & 0xc0 == 0xc0) == (t == EMPTY)
    ensures (x & 0x80 != 0) == !IsFull(t)
  {
    ByteFacts(x, 0x80);
    ByteFacts(x, 0xff);
    assert x == 0x80 || x == 0xff || x & 0x80 == 0;
  }

  /** The three matches on special tags are exact. */
  lemma MatchSpecialRefines(w: bv64, g: seq<Tag>)
    requires Holds(w, g)
    ensures Marks(MatchEmptyWord(w), MatchEmpty(g))
    ensures Marks(MatchEmptyOrDeletedWord(w), MatchEmptyOrDeleted(g))
    ensures Marks(MatchFullWord(w), MatchFull(g))
  {
    SpecialSparse(w);
    forall b | 0 <= b < 8 ensures
      Bit(MatchEmptyWord(w), b) == MatchEmpty(g)[b] && Bit(MatchFullWord(w), b) == MatchFull(g)[b] &&
      Bit(MatchEmptyOrDeletedWord(w), b) == MatchEmptyOrDeleted(g)[b]
    {
      SpecialBit(w, b);
      TopBits(Byte(w, b), g[b]);
    }
  }

  // ---------- The conversion before an in-place rehash ----------

  function ConvertByte(x: bv8): bv8 {
    if x & 0x80 == 0 then 0x80 else 0xff
  }

  lemma ConvertLane(w: bv64, b: nat)
    requires b < 8
    ensures Byte(ConvertWord(w), b) == ConvertByte(Byte(w, b))
  {
    if b == 0 {
    } else if b == 1 {
    } else if b == 2 {
    } else if b == 3 {
    } else if b == 4 {
    } else if b == 5 {
    } else if b == 6 {
    } else {
    }
  }

  lemma ConvertTag(x: bv8, t: Tag)
    requires x as int == t
    ensures ConvertByte(x) as int == ConvertSpecial(t)
  {
    TopBits(x, t);
  }

  /** No carry crosses a lane: every tag is converted on its own. */
  lemma ConvertRefines(w: bv64, g: seq<Tag>, g': seq<Tag>)
    requires Holds(w, g) && |g'| == 8 && forall b :: 0 <= b < 8 ==> g'[b] == ConvertSpecial(g[b])
    ensures Holds(ConvertWord(w), g')
  {
    forall b | 0 <= b < 8 ensures Byte(ConvertWord(w), b) as int == g'[b] {
      ConvertLane(w, b);
      ConvertTag(Byte(w, b), g[b]);
    }
  }

  // ---------- Counting with stride eight ----------

  /** z is the number of trailing zero bits of w. */
  predicate IsTrailing(w: bv64, z: bv7) {
    if w == 0 then z == 64 else z < 64 && (w >> z) & 1 == 1 && (w >> z) << z == w
  }

  /** z is the number of leading zero bits of w. */
  predicate IsLeading(w: bv64, z: bv7) {
    if w == 0 then z == 64 else z < 64 && (w << z) >> 63 == 1 && (w << z) >> z == w
  }

  lemma TrailingUnique(w: bv64, y: bv7, z: bv7)
    requires IsTrailing(w, y) && IsTrailing(w, z)
    ensures y == z
  {
  }

  lemma LeadingUnique(w: bv64, y: bv7, z: bv7)
    requires IsLeading(w, y) && IsLeading(w, z)
    ensures y == z
  {
  }

  predicate LowestIs(m: bv64, b: nat)
    requires b < 8
  {
    Bit(m, b) && (b > 0 ==> !Bit(m, 0)) && (b > 1 ==> !Bit(m, 1)) && (b > 2 ==> !Bit(m, 2)) && (b > 3 ==> !Bit(m, 3)) &&
    (b > 4 ==> !Bit(m, 4)) && (b > 5 ==> !Bit(m, 5)) && (b > 6 ==> !Bit(m, 6))
  }

  predicate HighestIs(m: bv64, b: nat)
    requires b < 8
  {
    Bit(m, b) && (b < 1 ==> !Bit(m, 1)) && (b < 2 ==> !Bit(m, 2)) && (b < 3 ==> !Bit(m, 3)) && (b < 4 ==> !Bit(m, 4)) &&
    (b < 5 ==> !Bit(m, 5)) && (b < 6 ==> !Bit(m, 6)) && (b < 7 ==> !Bit(m, 7))
  }

  /** The bits below lane b in a mask whose lowest lane is b. */
  function BitsBelow(b: nat): (z: bv7)
    requires b < 8
    ensures z as int / 8 == b
  {
    if b == 0 then 7 else if b == 1 then 15 else if b == 2 then 23 else if b == 3 then 31
    else if b == 4 then 39 else if b == 5 then 47 else if b == 6 then 55 else 63
  }

  /** The bits above lane b in a mask whose highest lane is b. */
  function BitsAbove(b: nat): (z: bv7)
    requires b < 8
    ensures z as int / 8 == 7 - b
  {
    if b == 0 then 56 else if b == 1 then 48 else if b == 2 then 40 else if b == 3 then 32
    else if b == 4 then 24 else if b == 5 then 16 else if b == 6 then 8 else 0
  }

  function OneLane(b: nat): bv64
    requires b < 8
  {
    if b == 0 then 0x80 else if b == 1 then 0x8000 else if b == 2 then 0x800000 else if b == 3 then 0x80000000
    else if b == 4 then 0x80_0000_0000 else if b == 5 then 0x8000_0000_0000
    else if b == 6 then 0x80_0000_0000_0000 else 0x8000_0000_0000_0000
  }

  lemma LowestLane(m: bv64, b: nat)
    requires b < 8 && Sparse(m) && LowestIs(m, b)
    ensures m != 0 && IsTrailing(m, BitsBelow(b)) && m & (m - 1) == m ^ OneLane(b)
  {
    if b == 0 {
    } else if b == 1 {
    } else if b == 2 {
    } else if b == 3 {
    } else if b == 4 {
    } else if b == 5 {
    } else if b == 6 {
    } else {
    }
  }

  lemma HighestLane(m: bv64, b: nat)
    requires b < 8 && Sparse(m) && HighestIs(m, b)
    ensures m != 0 && IsLeading(m, BitsAbove(b))
  {
    if b == 0 {
    } else if b == 1 {
    } else if b == 2 {
    } else if b == 3 {
    } else if b == 4 {
    } else if b == 5 {
    } else if b == 6 {
    } else {
    }
  }

  lemma FlipBit(m: bv64, x: bv64, c: nat)
    requires c < 8
    ensures Bit(m ^ x, c) == (Bit(m, c) != Bit(x, c))
  {
    if c == 0 {
    } else if c == 1 {
    } else if c == 2 {
    } else if c == 3 {
    } else if c == 4 {
    } else if c == 5 {
    } else if c == 6 {
    } else {
    }
  }

  lemma OneLaneBit(b: nat, c: nat)
    requires b < 8 && c < 8
    ensures Bit(OneLane(b), c) == (b == c) && Sparse(OneLane(b))
  {
    if c == 0 {
    } else if c == 1 {
    } else if c == 2 {
    } else if c == 3 {
    } else if c == 4 {
    } else if c == 5 {
    } else if c == 6 {
    } else {
    }
  }

  lemma FlipSparse(m: bv64, x: bv64)
    requires Sparse(m) && Sparse(x)
    ensures Sparse(m ^ x)
  {
  }

  lemma ZeroMask(m: bv64)
    requires Sparse(m)
    ensures m == 0 <==> forall b :: 0 <= b < 8 ==> !Bit(m, b)
  {
    assert (!Bit(m, 0) && !Bit(m, 1) && !Bit(m, 2) && !Bit(m, 3) &&
            !Bit(m, 4) && !Bit(m, 5) && !Bit(m, 6) && !Bit(m, 7)) ==> m == 0;
  }

  /** Dividing the trailing zero bits by the stride gives the clear lanes at the low end. */
  lemma TrailingZerosRefines(m: bv64, flags: BitMask, z: bv7)
    requires Marks(m, flags) && IsTrailing(m, z)
    ensures z as int / 8 == TrailingZeros(flags)
    ensures m != 0 <==> AnyBitSet(flags)
    ensures LowestSetBit(flags) == if m != 0 then Some(z as int / 8) else None
  {
    ZeroMask(m);
    var b := TrailingZeros(flags);
    if b < 8 {
      LowestLane(m, b);
      TrailingUnique(m, z, BitsBelow(b));
    }
  }

  lemma TrailingExists(m: bv64, flags: BitMask)
    requires Marks(m, flags)
    ensures exists z :: IsTrailing(m, z)
  {
    ZeroMask(m);
    var b := TrailingZeros(flags);
    if b < 8 {
      LowestLane(m, b);
      assert IsTrailing(m, BitsBelow(b));
    } else {
      assert IsTrailing(m, 64);
    }
  }

  lemma LeadingZerosRefines(m: bv64, flags: BitMask, z: bv7)
    requires Marks(m, flags) && IsLeading(m, z)
    ensures z as int / 8 == LeadingZeros(flags)
  {
    ZeroMask(m);
    var c := LeadingZeros(flags);
    if c < 8 {
      HighestLane(m, 7 - c);
      LeadingUnique(m, z, BitsAbove(7 - c));
    }
  }

  /** Clearing the lowest bit of the word clears the lowest lane. */
  lemma RemoveLowestRefines(m: bv64, flags: BitMask)
    requires Marks(m, flags) && AnyBitSet(flags)
    ensures m != 0 && Marks(m & (m - 1), RemoveLowestBit(flags))
  {
    var b := TrailingZeros(flags);
    LowestLane(m, b);
    FlipLane(m, b, b);
    forall c | 0 <= c < 8 ensures Bit(m & (m - 1), c) == RemoveLowestBit(flags)[c] {
      FlipLane(m, b, c);
    }
  }

  lemma FlipLane(m: bv64, b: nat, c: nat)
    requires b < 8 && c < 8 && Sparse(m)
    ensures Bit(m ^ OneLane(b), c) == (Bit(m, c) != (b == c)) && Sparse(m ^ OneLane(b))
  {
    FlipBit(m, OneLane(b), c);
    OneLaneBit(b, c);
    FlipSparse(m, OneLane(b));
  }

  /** Iterates over the set lanes of a mask in ascending order. */
  class BitMaskIter {
    var word: bv64
    ghost var flags: BitMask

    ghost predicate Valid()
      reads this
    {
      Marks(word, flags)
    }

    constructor (word: bv64, ghost flags: BitMask)
      requires Marks(word, flags)
      ensures Valid() && this.flags == flags
    {
      this.word, this.flags := word, flags;
    }

    method Next() returns (bit: Option<nat>)
      requires Valid()
      modifies this
      ensures Valid() && bit == LowestSetBit(old(flags))
      ensures flags == if bit.None? then old(flags) else RemoveLowestBit(old(flags))
    {
      TrailingExists(word, flags);
      // The count that the processor's instruction gives; there is only one.
      var z: bv7 :| IsTrailing(word, z);
      TrailingZerosRefines(word, flags, z);
      if word == 0 {
        return None;
      }
      RemoveLowestRefines(word, flags);
      bit := Some(z as int / 8);
      word := word & (word - 1);
      flags := RemoveLowestBit(flags);
    }
  }
}
