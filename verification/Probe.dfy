/** Triangular probing over the buckets of a table, and what each probe position can see. */
module Probe {
  import opened Arith

  /** n buckets scanned w at a time; both are powers of two. */
  predicate Geometry(n: nat, w: nat) {
    IsPow2(n) && IsPow2(w)
  }

  /** The number of distinct probe positions: one when a group spans the whole table. */
  function Groups(n: nat, w: nat): nat
    requires w > 0
  {
    if n < w then 1 else Quot(n, w)
  }

  lemma GroupsMul(n: nat, w: nat)
    requires Geometry(n, w) && w <= n
    ensures n == Groups(n, w) * w && IsPow2(Groups(n, w))
  {
    QuotDiv(n, w);
    Pow2Divides(w, n);
    Pow2Quotient(n, w);
  }

  lemma {:induction false} Pow2Quotient(n: nat, w: nat)
    requires IsPow2(n) && IsPow2(w) && w <= n
    ensures IsPow2(n / w)
  {
    if w > 1 {
      var half, v := n / 2, w / 2;
      Pow2Quotient(half, v);
      Pow2Divides(v, half);
      var q := half / v;
      assert half == q * v;
      assert q * w == q * (v + v) == q * v + q * v;
      ModUnique(n, w, q, 0);
    }
  }

  /** The distance jumped by the k-th step: each step is one group longer than the last. */
  function Stride(w: nat, k: nat): nat {
    if k == 0 then 0 else Stride(w, k - 1) + w
  }

  lemma {:induction false} StrideClosed(w: nat, k: nat)
    ensures Stride(w, k) == k * w
  {
    if k > 0 {
      StrideClosed(w, k - 1);
      Distribute(k, 1, w);
    }
  }

  /** The position after k steps from the hash. */
  function ProbePos(n: nat, w: nat, h: nat, k: nat): (p: nat)
    requires n > 0
    ensures p < n
  {
    if k == 0 then Mask(h, n) else Mask(ProbePos(n, w, h, k - 1) + Stride(w, k), n)
  }

  /** After k steps the search has jumped the k-th triangular number of groups. */
  lemma {:induction false} ProbePosClosed(n: nat, w: nat, h: nat, k: nat) returns (jump: nat)
    requires n > 0
    ensures jump == Tri(k) * w && ProbePos(n, w, h, k) == (h + jump) % n
  {
    if k == 0 {
      MaskMod(h, n);
      jump := 0;
    } else {
      var before := ProbePosClosed(n, w, h, k - 1);
      jump := before + Stride(w, k);
      TriStep(k, w);
      MaskStep(ProbePos(n, w, h, k - 1), h + before, Stride(w, k), n);
    }
  }

  lemma MaskStep(p: int, x: int, y: int, n: nat)
    requires n > 0 && p == x % n
    ensures Mask(p + y, n) == (x + y) % n
  {
    MaskMod(p + y, n);
    ModReduce(x, y, n);
  }

  lemma TriStep(k: nat, w: nat)
    requires k > 0
    ensures Tri(k) * w == Tri(k - 1) * w + Stride(w, k)
  {
    StrideClosed(w, k);
    Distribute(Tri(k), k, w);
  }

  /** The stride never passes the bucket mask before the last window. */
  lemma StrideBound(n: nat, w: nat, k: nat)
    requires Geometry(n, w) && k + 1 < Groups(n, w)
    ensures Stride(w, k) <= n - 1
  {
    var g := Groups(n, w);
    StrideClosed(w, k);
    GroupsMul(n, w);
    Distribute(g, k, w);
    MulAtLeast(g - k, w);
  }

  /** Bucket i lies in the w cyclic positions starting at pos. */
  predicate InWindow(n: nat, w: nat, pos: nat, i: nat)
    requires n > 0
  {
    Mask(i - pos, n) < w
  }

  /** The aligned group, counted from the hash, that bucket i belongs to. */
  function GroupOf(n: nat, w: nat, h: nat, i: nat): nat
    requires n > 0 && w > 0
  {
    Quot(Mask(i - Mask(h, n), n), w)
  }

  lemma GroupSplit(n: nat, w: nat, h: nat, i: nat) returns (r: nat)
    requires n > 0 && w > 0
    ensures r < w && (i - h) % n == GroupOf(n, w, h, i) * w + r < n
  {
    MaskReduce(h, i, n);
    MaskMod(i - h, n);
    r := QuotRest(Mask(i - h, n), w);
  }

  lemma QuotRest(x: nat, w: nat) returns (r: nat)
    requires w > 0
    ensures r < w && x == Quot(x, w) * w + r
  {
    QuotDiv(x, w);
    r := x % w;
  }

  lemma GroupBound(n: nat, w: nat, h: nat, i: nat)
    requires Geometry(n, w) && w <= n
    ensures GroupOf(n, w, h, i) < Groups(n, w)
  {
    var m, g := Groups(n, w), GroupOf(n, w, h, i);
    GroupsMul(n, w);
    var r := GroupSplit(n, w, h, i);
    Distribute(g, m, w);
    if g > m {
      MulAtLeast(g - m, w);
    }
  }

  lemma OffsetChain(n: nat, i: int, h: int, jump: int, offset: int, turns: int, p: int)
    requires n > 0 && jump == offset + turns * n && p == (h + jump) % n
    ensures Mask(i - p, n) == ((i - h) % n - offset) % n
  {
    MaskMod(i - p, n);
    ModReduce(h + jump, i, n);
    ModReduce(i - h, -jump, n);
    ModShift((i - h) % n - jump, n, turns);
  }

  lemma WindowOffset(n: nat, w: nat, h: nat, k: nat, i: nat, m: nat)
    requires Geometry(n, w) && w <= n && m == Groups(n, w)
    ensures m > 0 && Mask(i - ProbePos(n, w, h, k), n) == ((i - h) % n - (Tri(k) % m) * w) % n
  {
    GroupsMul(n, w);
    var jump := ProbePosClosed(n, w, h, k);
    TriSplit(w, m, Tri(k));
    OffsetChain(n, i, h, jump, (Tri(k) % m) * w, Tri(k) / m, ProbePos(n, w, h, k));
  }

  lemma TriSplit(w: nat, m: nat, x: nat)
    requires m > 0
    ensures x * w == (x % m) * w + (x / m) * (m * w)
  {
    var s, t := x / m, x % m;
    SplitProduct(w, m, s, t);
    assert x == s * m + t;
  }

  lemma SplitProduct(w: nat, m: nat, s: nat, t: nat)
    ensures (s * m + t) * w == t * w + s * (m * w)
  {
    assert (s * m) * w == s * (m * w);
  }

  /** Offsets g*w + r and t*w are less than one group apart exactly when the groups agree. */
  lemma OffsetInGroup(n: nat, m: nat, w: nat, x: nat, g: nat, t: nat, r: nat)
    requires n == m * w > 0 && x == g * w + r
    requires r < w && g < m && t < m
    ensures (x - t * w) % n < w <==> g == t
  {
    Distribute(g, t, w);
    Distribute(m, g - t, w);
    Distribute(m, t - g, w);
    ModSmall(x - t * w, n);
    if g >= t {
      MulAtLeast(m - (g - t), w);
      if g > t {
        MulAtLeast(g - t, w);
      }
    } else {
      MulAtLeast(t - g, w);
      MulAtLeast(m - (t - g), w);
      Distribute(t, g, w);
    }
  }

  /** The k-th window of a large table shows exactly the group numbered by the k-th triangular number. */
  lemma WindowIsGroup(n: nat, w: nat, h: nat, k: nat, i: nat)
    requires Geometry(n, w) && w <= n
    ensures InWindow(n, w, ProbePos(n, w, h, k), i) <==> GroupOf(n, w, h, i) == Tri(k) % Groups(n, w)
  {
    var m := Groups(n, w);
    GroupsMul(n, w);
    GroupBound(n, w, h, i);
    WindowOffset(n, w, h, k, i, m);
    var r := GroupSplit(n, w, h, i);
    OffsetInGroup(n, m, w, (i - h) % n, GroupOf(n, w, h, i), Tri(k) % m, r);
  }

  /** Every bucket is shown by one of the first Groups(n, w) windows. */
  lemma ProbeCovers(n: nat, w: nat, h: nat, i: nat) returns (k: nat)
    requires Geometry(n, w) && i < n
    ensures k < Groups(n, w) && InWindow(n, w, ProbePos(n, w, h, k), i)
  {
    if n < w {
      k := 0;
    } else {
      GroupsMul(n, w);
      GroupBound(n, w, h, i);
      k := TriHits(Groups(n, w), GroupOf(n, w, h, i));
      WindowIsGroup(n, w, h, k, i);
    }
  }

  /** ... and by no more than one of them. */
  lemma ProbeOnce(n: nat, w: nat, h: nat, i: nat, j: nat, k: nat)
    requires Geometry(n, w) && j < Groups(n, w) && k < Groups(n, w)
    requires InWindow(n, w, ProbePos(n, w, h, j), i) && InWindow(n, w, ProbePos(n, w, h, k), i)
    ensures j == k
  {
    if w <= n {
      GroupsMul(n, w);
      WindowIsGroup(n, w, h, j, i);
      WindowIsGroup(n, w, h, k, i);
      TriInjective(Groups(n, w), j, k);
    }
  }

  /** A window that shows one bucket shows another exactly when both lie in the same aligned group. */
  lemma SameGroup(n: nat, w: nat, h: nat, k: nat, i: nat, j: nat)
    requires Geometry(n, w) && i < n && j < n && InWindow(n, w, ProbePos(n, w, h, k), i)
    ensures GroupOf(n, w, h, i) == GroupOf(n, w, h, j) <==> InWindow(n, w, ProbePos(n, w, h, k), j)
  {
    if w <= n {
      WindowIsGroup(n, w, h, k, i);
      WindowIsGroup(n, w, h, k, j);
    }
  }
}
