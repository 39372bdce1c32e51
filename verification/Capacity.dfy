/** Bucket counts, load factor and allocation layout, on 64-bit machine words. */
module Capacity {
  import opened Arith
  import opened Wrappers

  const USIZE_MAX: nat := 0xffff_ffff_ffff_ffff
  const ISIZE_MAX: nat := 0x7fff_ffff_ffff_ffff

  function NextPow2(p: nat, x: nat): nat
    requires p > 0
    decreases x - p
  {
    if p >= x then p else NextPow2(2 * p, x)
  }

  /** The number of buckets for `cap` elements; None when the multiplication overflows. */
  function CapacityToBuckets(cap: nat): Option<nat>
    requires cap != 0
  {
    if cap < 8 then Some(if cap < 4 then 4 else 8)
    else if cap * 8 > USIZE_MAX then None
    else Some(NextPow2(1, cap * 8 / 7))
  }

  /** The number of elements a table may hold before it grows. */
  function BucketMaskToCapacity(bucketMask: nat): nat {
    if bucketMask < 8 then bucketMask else ((bucketMask + 1) / 8) * 7
  }

  lemma {:induction false} NextPow2Least(p: nat, x: nat)
    requires IsPow2(p)
    ensures IsPow2(NextPow2(p, x)) && NextPow2(p, x) >= x && NextPow2(p, x) >= p
    ensures NextPow2(p, x) > p ==> NextPow2(p, x) < 2 * x
    ensures forall q: nat :: IsPow2(q) && q >= x && q >= p ==> NextPow2(p, x) <= q
    decreases x - p
  {
    if p < x {
      NextPow2Least(2 * p, x);
      forall q: nat | IsPow2(q) && q >= x && q >= p
        ensures NextPow2(p, x) <= q
      {
        Pow2Gap(p, q);
      }
    }
  }

  /** There is no power of two strictly between p and 2p. */
  lemma Pow2Gap(p: nat, q: nat)
    requires IsPow2(p) && IsPow2(q) && p < q
    ensures q >= 2 * p
  {
    Pow2Divides(p, q);
    assert q == (q / p) * p;
    if q / p < 2 {
      assert (q / p) * p <= p;
    }
  }

  /** A bucket count of eight or more is a multiple of eight. */
  lemma Pow2By8(n: nat)
    requires IsPow2(n) && n >= 8
    ensures n % 8 == 0
  {
    assert IsPow2(8) by { assert IsPow2(4) by { assert IsPow2(2); } }
    Pow2Divides(8, n);
  }

  /** At least one bucket is never handed out, and doubling a table at least doubles its capacity. */
  lemma CapacityBounds(n: nat)
    requires IsPow2(n)
    ensures BucketMaskToCapacity(n - 1) < n
    ensures 2 * BucketMaskToCapacity(n - 1) <= BucketMaskToCapacity(2 * n - 1)
  {
    if n >= 8 {
      Pow2By8(n);
    } else {
      assert n != 5 && n != 6 && n != 7;
    }
  }

  /** Credit saved up for the next reallocation: what is used beyond half the capacity, counted twice. */
  function Potential(n: nat, growthLeft: nat): nat
    requires n > 0
  {
    var cap := BucketMaskToCapacity(n - 1);
    if 2 * growthLeft <= cap then cap - 2 * growthLeft else 0
  }

  /** A table with a larger capacity has at least twice the capacity. */
  lemma CapacityDoubles(n: nat, m: nat)
    requires IsPow2(n) && IsPow2(m) && BucketMaskToCapacity(n - 1) < BucketMaskToCapacity(m - 1)
    ensures BucketMaskToCapacity(m - 1) >= 2 * BucketMaskToCapacity(n - 1)
  {
    if m <= n {
      CapacityMonotone(m, n);
    } else {
      Pow2Gap(n, m);
      CapacityBounds(n);
      CapacityMonotone(2 * n, m);
    }
  }

  /** Re-placing every element of a full table uses up no more than the credit saved. */
  lemma RehashPays(n: nat, items: nat)
    requires n > 0 && items + 1 <= BucketMaskToCapacity(n - 1) / 2
    ensures items + Potential(n, BucketMaskToCapacity(n - 1) - items) <= Potential(n, 0)
  {
  }

  lemma ResizePays(n: nat, m: nat, items: nat)
    requires IsPow2(n) && IsPow2(m)
    requires items <= BucketMaskToCapacity(n - 1) < BucketMaskToCapacity(m - 1)
    ensures items + Potential(m, BucketMaskToCapacity(m - 1) - items) <= Potential(n, 0)
  {
    CapacityDoubles(n, m);
  }

  lemma CapacityMonotone(n: nat, m: nat)
    requires 0 < n <= m
    ensures BucketMaskToCapacity(n - 1) <= BucketMaskToCapacity(m - 1)
  {
  }

  /** The chosen bucket count is a power of two that fits a word and really holds `cap` elements. */
  lemma BucketsSuffice(cap: nat)
    requires cap != 0
    ensures CapacityToBuckets(cap).None? <==> cap * 8 > USIZE_MAX
    ensures CapacityToBuckets(cap).Some? ==>
              var n := CapacityToBuckets(cap).value;
              IsPow2(n) && 4 <= n <= ISIZE_MAX && BucketMaskToCapacity(n - 1) >= cap
  {
    assert IsPow2(4) by { assert IsPow2(2); }
    assert IsPow2(8);
    if 8 <= cap && cap * 8 <= USIZE_MAX {
      NextPow2Least(1, cap * 8 / 7);
      var n := NextPow2(1, cap * 8 / 7);
      Pow2By8(n);
    }
  }

  /** Room for fewer elements needs no more buckets, and can be computed if room for more can. */
  lemma BucketsMonotone(small: nat, large: nat)
    requires 0 < small <= large && CapacityToBuckets(large).Some?
    ensures CapacityToBuckets(small).Some? && CapacityToBuckets(small).value <= CapacityToBuckets(large).value
  {
    if 8 <= large {
      NextPow2Least(1, large * 8 / 7);
      if 8 <= small {
        NextPow2Least(1, small * 8 / 7);
      }
    }
  }

  /** A table for this many elements can be allocated when no table may have more than bucketLimit buckets. */
  predicate Allocates(capacity: nat, bucketLimit: nat) {
    capacity == 0 || (CapacityToBuckets(capacity).Some? && CapacityToBuckets(capacity).value <= bucketLimit)
  }

  lemma AllocatesLess(small: nat, large: nat, bucketLimit: nat)
    requires small <= large && Allocates(large, bucketLimit)
    ensures Allocates(small, bucketLimit)
  {
    if small > 0 {
      BucketsMonotone(small, large);
    }
  }

  /** A table for more elements than n buckets can hold has more than n buckets. */
  lemma MoreBuckets(n: nat, cap: nat)
    requires n > 0 && cap > BucketMaskToCapacity(n - 1) && CapacityToBuckets(cap).Some?
    ensures CapacityToBuckets(cap).value > n
  {
    BucketsSuffice(cap);
    var m := CapacityToBuckets(cap).value;
    if m <= n {
      CapacityMonotone(m, n);
    }
  }

  ghost predicate Holds(n: nat, cap: nat) {
    IsPow2(n) && BucketMaskToCapacity(n - 1) >= cap
  }

  /** No smaller power of two would do, except that a single element gets four buckets and not two. */
  lemma BucketsLeast(cap: nat)
    requires cap != 0 && CapacityToBuckets(cap).Some?
    ensures (forall p: nat :: Holds(p, cap) ==> CapacityToBuckets(cap).value <= p) <==> cap != 1
  {
    if cap == 1 {
      assert Holds(2, 1);
    } else {
      forall p: nat | Holds(p, cap)
        ensures CapacityToBuckets(cap).value <= p
      {
        if cap < 8 {
          assert IsPow2(4) by { assert IsPow2(2); }
          if 4 < p { Pow2Gap(4, p); }
        } else {
          NextPow2Least(1, cap * 8 / 7);
          Pow2By8(p);
        }
      }
    }
  }

  /** NextPow2 finds the only power of two that is at least x and less than twice x. */
  lemma NextPow2Is(x: nat, n: nat)
    requires IsPow2(n) && n < 2 * x && x <= n
    ensures NextPow2(1, x) == n
  {
    NextPow2Least(1, x);
    var p := NextPow2(1, x);
    if p < n {
      Pow2Gap(p, n);
    }
  }

  lemma SevenEighths(q: nat)
    ensures (8 * q) / 8 * 7 == 7 * q && 7 * q * 8 / 7 == 8 * q && (7 * q + 1) * 8 / 7 == 8 * q + 1
  {
  }

  /** A table of eight or more buckets may be filled to seven eighths, a smaller one up to its last bucket. */
  lemma LoadFactor(n: nat)
    requires IsPow2(n)
    ensures 8 <= n && n != 8 ==> 8 * BucketMaskToCapacity(n - 1) == 7 * n
    ensures n <= 8 ==> BucketMaskToCapacity(n - 1) == n - 1
  {
    if n >= 8 {
      Pow2By8(n);
    }
  }

  /** p buckets are a power of two, at least four, more than n, and hold `need` elements. */
  ghost predicate Enough(p: nat, n: nat, need: nat) {
    IsPow2(p) && p >= 4 && p > n && BucketMaskToCapacity(p - 1) >= need
  }

  /** b is the least such bucket count. */
  ghost predicate LeastEnough(b: nat, n: nat, need: nat) {
    Enough(b, n, need) && forall p: nat :: Enough(p, n, need) ==> b <= p
  }

  /** b buckets come of making room for `need` elements in n buckets: a rehash in place if they fill at most half the
      capacity, and otherwise the least larger table that holds them. */
  ghost predicate RoomMade(b: nat, n: nat, need: nat)
    requires n > 0
  {
    if need <= BucketMaskToCapacity(n - 1) / 2 then b == n else LeastEnough(b, n, need)
  }

  /** What a table of n buckets without room asks for to hold `need` elements: at least one more than it holds. */
  function GrowthCapacity(n: nat, need: nat): nat
    requires n > 0
  {
    var full := BucketMaskToCapacity(n - 1);
    if need > full + 1 then need else full + 1
  }

  /** More buckets hold more elements. */
  lemma CapacityGrows(n: nat, p: nat)
    requires IsPow2(n) && IsPow2(p) && n < p
    ensures BucketMaskToCapacity(n - 1) < BucketMaskToCapacity(p - 1)
  {
    Pow2Gap(n, p);
    CapacityBounds(n);
    CapacityMonotone(2 * n, p);
    if n == 1 {
      assert BucketMaskToCapacity(2 * n - 1) == 1;
    } else {
      LoadFactor(n);
    }
  }

  /** The bucket count chosen is the least power of two, from four on, that is larger and holds enough. */
  lemma GrowthLeast(n: nat, need: nat)
    requires IsPow2(n)
    ensures GrowthCapacity(n, need) >= need && GrowthCapacity(n, need) > BucketMaskToCapacity(n - 1)
    ensures CapacityToBuckets(GrowthCapacity(n, need)).Some? ==>
      LeastEnough(CapacityToBuckets(GrowthCapacity(n, need)).value, n, need)
  {
    var capacity := GrowthCapacity(n, need);
    var buckets := CapacityToBuckets(capacity);
    BucketsSuffice(capacity);
    if buckets.Some? {
      MoreBuckets(n, capacity);
      forall p: nat | Enough(p, n, need)
        ensures buckets.value <= p
      {
        CapacityGrows(n, p);
        LeastFromFour(capacity, p);
      }
    }
  }

  lemma LeastFromFour(cap: nat, p: nat)
    requires cap > 0 && CapacityToBuckets(cap).Some? && IsPow2(p) && p >= 4 && BucketMaskToCapacity(p - 1) >= cap
    ensures CapacityToBuckets(cap).value <= p
  {
    if cap != 1 {
      BucketsLeast(cap);
      assert Holds(p, cap);
    }
  }

  /** b is the size of a table of n buckets shrunk to hold `least` elements: the least that does, if that is less. */
  ghost predicate Shrunk(b: nat, n: nat, least: nat) {
    if least == 0 then b == 1
    else
      && b <= n && (b < n ==> LeastEnough(b, 0, least))
      && (b == n ==> least * 8 > USIZE_MAX || forall p: nat :: Enough(p, 0, least) ==> n <= p)
  }

  /** The bucket count computed is the least power of two, from four on, that holds enough. */
  lemma ShrinkLeast(cap: nat)
    requires cap > 0
    ensures CapacityToBuckets(cap).None? <==> cap * 8 > USIZE_MAX
    ensures CapacityToBuckets(cap).Some? ==>
      CapacityToBuckets(cap).value <= ISIZE_MAX && LeastEnough(CapacityToBuckets(cap).value, 0, cap)
  {
    BucketsSuffice(cap);
    if CapacityToBuckets(cap).Some? {
      forall p: nat | Enough(p, 0, cap)
        ensures CapacityToBuckets(cap).value <= p
      {
        LeastFromFour(cap, p);
      }
    }
  }

  /** Growing is possible exactly when the multiplication does not overflow and a large enough table is allowed. */
  lemma GrowthExact(n: nat, need: nat, bucketLimit: nat)
    requires IsPow2(n)
    ensures Allocates(GrowthCapacity(n, need), bucketLimit) <==>
      need * 8 <= USIZE_MAX && (BucketMaskToCapacity(n - 1) + 1) * 8 <= USIZE_MAX &&
      exists p: nat :: Enough(p, n, need) && p <= bucketLimit
  {
    var capacity := GrowthCapacity(n, need);
    BucketsSuffice(capacity);
    if CapacityToBuckets(capacity).Some? {
      GrowthLeast(n, need);
    }
  }

  /** On tables of four or more buckets the two conversions are inverse, and one more element doubles the table. */
  lemma BucketsInverse(n: nat)
    requires IsPow2(n) && 4 <= n
    requires (BucketMaskToCapacity(n - 1) + 1) * 8 <= USIZE_MAX
    ensures CapacityToBuckets(BucketMaskToCapacity(n - 1)) == Some(n)
    ensures CapacityToBuckets(BucketMaskToCapacity(n - 1) + 1) == Some(2 * n)
  {
    if n == 4 || n == 8 {
      SmallInverse();
    } else {
      assert IsPow2(4) by { assert IsPow2(2); }
      Pow2Gap(4, n);
      Pow2By8(n);
      LargeInverse(n, n / 8);
    }
  }

  lemma SmallInverse()
    ensures CapacityToBuckets(3) == Some(4) && CapacityToBuckets(4) == Some(8)
    ensures CapacityToBuckets(7) == Some(8) && CapacityToBuckets(8) == Some(16)
  {
    NextPow2Is(9, 16);
  }

  lemma LargeInverse(n: nat, q: nat)
    requires IsPow2(n) && n == 8 * q && q > 1 && (7 * q + 1) * 8 <= USIZE_MAX
    ensures BucketMaskToCapacity(n - 1) == 7 * q
    ensures CapacityToBuckets(7 * q) == Some(n) && CapacityToBuckets(7 * q + 1) == Some(2 * n)
  {
    SevenEighths(q);
    NextPow2Is(n, n);
    NextPow2Is(n + 1, 2 * n);
  }

  /** Rounds x up to a multiple of the alignment. */
  function RoundUp(x: nat, align: nat): (r: nat)
    requires align > 0
    ensures x <= r < x + align
  {
    var q := (x + align - 1) / align;
    assert q * align == (x + align - 1) - (x + align - 1) % align;
    q * align
  }

  /** The offset of the control bytes and the length of the allocation of a table. */
  function CalculateLayout(size: nat, ctrlAlign: nat, width: nat, buckets: nat): Option<(nat, nat)>
    requires ctrlAlign > 0
  {
    if size * buckets > USIZE_MAX || size * buckets + (ctrlAlign - 1) > USIZE_MAX then None
    else
      var offset := RoundUp(size * buckets, ctrlAlign);
      var len := offset + (buckets + width);
      if len > USIZE_MAX || len > ISIZE_MAX - (ctrlAlign - 1) then None else Some((offset, len))
  }

  /**
   * A layout exists exactly when the buckets and, after them at the first aligned offset, the control bytes with a
   * group to spare fit in half the address space.
   */
  lemma LayoutExact(size: nat, ctrlAlign: nat, width: nat, buckets: nat, offset: nat)
    requires ctrlAlign > 0
    requires offset % ctrlAlign == 0 && size * buckets <= offset < size * buckets + ctrlAlign
    ensures CalculateLayout(size, ctrlAlign, width, buckets) ==
      var len := offset + buckets + width;
      if len <= ISIZE_MAX - (ctrlAlign - 1) then Some((offset, len)) else None
  {
    RoundUpIs(size * buckets, ctrlAlign, offset);
  }

  lemma RoundUpIs(x: nat, align: nat, y: nat)
    requires align > 0 && y % align == 0 && x <= y < x + align
    ensures RoundUp(x, align) == y
  {
    var q := y / align;
    assert y == q * align;
    ModUnique(x + align - 1, align, q, x + align - 1 - y);
  }

  lemma RoundUpMonotone(x: nat, y: nat, align: nat)
    requires align > 0 && x <= y
    ensures RoundUp(x, align) <= RoundUp(y, align)
  {
    var a, b := (x + align - 1) / align, (y + align - 1) / align;
    if a > b {
      // Then RoundUp(x) exceeds RoundUp(y) by an alignment at least, but it is less than x + align.
      MulAtLeast(a - b, align);
      Distribute(a, b, align);
    } else if a < b {
      MulAtLeast(b - a, align);
      Distribute(b, a, align);
    }
  }

  /** A table with fewer buckets than one that could be allocated can be laid out too. */
  lemma LayoutMonotone(size: nat, ctrlAlign: nat, width: nat, small: nat, large: nat)
    requires ctrlAlign > 0 && small <= large
    requires CalculateLayout(size, ctrlAlign, width, large).Some?
    ensures CalculateLayout(size, ctrlAlign, width, small).Some?
  {
    assert size * small <= size * large by {
      assert size * (large - small) >= 0;
      assert size * (large - small) == size * large - size * small;
    }
    RoundUpMonotone(size * small, size * large, ctrlAlign);
  }
}
