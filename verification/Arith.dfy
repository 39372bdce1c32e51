/** Modular arithmetic, powers of two and triangular numbers. */
module Arith {

  predicate IsPow2(n: nat) {
    n == 1 || (n > 1 && n % 2 == 0 && IsPow2(n / 2))
  }

  /** Of two powers of two the smaller divides the larger. */
  lemma {:induction false} Pow2Divides(a: nat, b: nat)
    requires IsPow2(a) && IsPow2(b) && a <= b
    ensures b % a == 0
  {
    if a > 1 {
      Pow2Divides(a / 2, b / 2);
      var q := (b / 2) / (a / 2);
      assert b / 2 == q * (a / 2);
      assert b == q * a;
      ModUnique(b, a, q, 0);
    }
  }

  lemma ModUnique(x: int, n: int, q: int, r: int)
    requires 0 <= r < n && x == q * n + r
    ensures x / n == q && x % n == r
  {
    var q' := x / n;
    var d := q - q';
    assert d * n == x % n - r by { Distribute(q, q', n); }
    if d > 0 {
      MulAtLeast(d, n);
    } else if d < 0 {
      MulAtLeast(-d, n);
    }
  }

  lemma Distribute(a: int, b: int, n: int)
    ensures (a - b) * n == a * n - b * n
  {
  }

  lemma MulAtLeast(d: int, n: int)
    requires d >= 1 && n > 0
    ensures d * n >= n
  {
  }

  /** Adding a multiple of the modulus changes nothing. */
  lemma ModShift(x: int, n: int, q: int)
    requires n > 0
    ensures (x + q * n) % n == x % n
  {
    ModUnique(x + q * n, n, x / n + q, x % n);
  }

  /** Reducing an operand first changes nothing. */
  lemma ModReduce(x: int, y: int, n: int)
    requires n > 0
    ensures (x % n + y) % n == (x + y) % n
    ensures (y - x % n) % n == (y - x) % n
  {
    ModShift(x % n + y, n, x / n);
    ModShift(y - x, n, x / n);
    assert x == (x / n) * n + x % n;
  }

  /** A shift below the modulus is undone or wraps exactly once. */
  lemma ModSmall(x: int, n: int)
    requires n > 0
    ensures 0 <= x < n ==> x % n == x
    ensures -n <= x < 0 ==> x % n == x + n
    ensures n <= x < 2 * n ==> x % n == x - n
  {
    if 0 <= x < n {
      ModUnique(x, n, 0, x);
    } else if -n <= x < 0 {
      ModUnique(x, n, -1, x + n);
    } else if n <= x < 2 * n {
      ModUnique(x, n, 1, x - n);
    }
  }

  /** The k-th triangular number, 1 + 2 + ... + k. */
  function Tri(k: nat): (t: nat)
    ensures 2 * t == k * (k + 1)
  {
    if k == 0 then 0 else k + Tri(k - 1)
  }

  /** Triangular numbers at mirrored positions differ by an odd multiple of half the range. */
  lemma TriMirror(m: nat, k: nat)
    requires k < 2 * m
    ensures Tri(2 * m - 1 - k) == Tri(k) + m * (2 * m - 1 - 2 * k)
  {
    var j := 2 * m - 1 - k;
    assert 2 * Tri(j) == (2 * m - 1 - k) * (2 * m - k);
    assert (2 * m - 1 - k) * (2 * m - k) == k * (k + 1) + 2 * (m * (2 * m - 1 - 2 * k));
  }

  /** Mirrored positions hit opposite halves modulo 2m. */
  lemma TriMirrorMod(m: nat, k: nat)
    requires k < 2 * m
    ensures Tri(2 * m - 1 - k) % (2 * m) == (Tri(k) + m) % (2 * m)
  {
    TriMirror(m, k);
    MirrorOdd(m, k);
    ModShift(Tri(k) + m, 2 * m, m - 1 - k);
  }

  lemma MirrorOdd(m: int, k: int)
    ensures m * (2 * m - 1 - 2 * k) == m + (m - 1 - k) * (2 * m)
  {
  }

  /** Every residue modulo a power of two m is hit by one of the first m triangular numbers. */
  lemma {:induction false} TriHits(m: nat, r: nat) returns (k: nat)
    requires IsPow2(m) && r < m
    ensures k < m && Tri(k) % m == r
  {
    if m == 1 {
      k := 0;
    } else {
      var half := m / 2;
      var k0 := TriHits(half, r % half);
      HalfResidue(Tri(k0), half, r);
      if Tri(k0) % m == r {
        k := k0;
      } else {
        k := m - 1 - k0;
        TriMirrorMod(half, k0);
      }
    }
  }

  /** Equal residues modulo half a range are equal or opposite modulo the range. */
  lemma HalfResidue(x: int, half: nat, r: nat)
    requires half > 0 && r < 2 * half && x % half == r % half
    ensures x % (2 * half) == r || (x + half) % (2 * half) == r
  {
    var m := 2 * half;
    var y := x % m;
    ModReduce(x, half, m);
    assert x == (x / m) * m + y;
    assert (x / m) * m == (2 * (x / m)) * half;
    ModShift(y, half, 2 * (x / m));
    assert y % half == r % half;
    ModSmall(y, half);
    ModSmall(r, half);
    ModSmall(y + half, m);
  }

  /** No residue modulo a power of two m is hit twice by the first m triangular numbers. */
  lemma {:induction false} TriInjective(m: nat, a: nat, b: nat)
    requires IsPow2(m) && a < m && b < m && Tri(a) % m == Tri(b) % m
    ensures a == b
  {
    if m > 1 {
      var half := m / 2;
      var a' := if a < half then a else m - 1 - a;
      var b' := if b < half then b else m - 1 - b;
      TriFold(half, a);
      TriFold(half, b);
      ModOfMod(Tri(a), half);
      ModOfMod(Tri(b), half);
      TriInjective(half, a', b');
      if a != b {
        TriMirrorMod(half, a);
        HalfDiffers(Tri(a), half);
      }
    }
  }

  lemma TriFold(half: nat, a: nat)
    requires a < 2 * half
    ensures Tri(if a < half then a else 2 * half - 1 - a) % half == Tri(a) % half
  {
    if a >= half {
      TriMirror(half, a);
      assert half * (2 * half - 1 - 2 * a) == (2 * half - 1 - 2 * a) * half;
      ModShift(Tri(a), half, 2 * half - 1 - 2 * a);
    }
  }

  lemma ModOfMod(x: int, half: nat)
    requires half > 0
    ensures (x % (2 * half)) % half == x % half
  {
    var m := 2 * half;
    assert x == (x / m) * m + x % m;
    assert (x / m) * m == (2 * (x / m)) * half;
    ModShift(x % m, half, 2 * (x / m));
  }

  lemma HalfDiffers(x: int, half: nat)
    requires half > 0
    ensures (x + half) % (2 * half) != x % (2 * half)
  {
    var m := 2 * half;
    ModReduce(x, half, m);
    ModSmall(x % m + half, m);
  }

  /** x & (n - 1) for a power of two n: the remainder, computed by wrapping around. */
  function Mask(x: int, n: nat): (m: nat)
    requires n > 0
    ensures m < n
    decreases if x < 0 then n - x else x
  {
    if x < 0 then Mask(x + n, n) else if x < n then x else Mask(x - n, n)
  }

  lemma {:induction false} MaskMod(x: int, n: nat)
    requires n > 0
    ensures Mask(x, n) == x % n
    decreases if x < 0 then n - x else x
  {
    if x < 0 {
      MaskMod(x + n, n);
      ModShift(x, n, 1);
    } else if x < n {
      ModSmall(x, n);
    } else {
      MaskMod(x - n, n);
      ModShift(x, n, -1);
    }
  }

  /** x / w by repeated subtraction. */
  function Quot(x: nat, w: nat): nat
    requires w > 0
  {
    if x < w then 0 else 1 + Quot(x - w, w)
  }

  lemma {:induction false} QuotDiv(x: nat, w: nat)
    requires w > 0
    ensures Quot(x, w) == x / w
  {
    if x >= w {
      QuotDiv(x - w, w);
      var q, r := (x - w) / w, (x - w) % w;
      Distribute(q, -1, w);
      ModUnique(x, w, q + 1, r);
    } else {
      ModUnique(x, w, 0, x);
    }
  }

  lemma MaskSmall(x: int, n: nat)
    requires 0 < n && 0 <= x + n && x < 2 * n
    ensures Mask(x, n) == if x < 0 then x + n else if x < n then x else x - n
  {
  }

  /** Adding a multiple of the modulus changes nothing. */
  lemma MaskShift(x: int, n: nat, q: int)
    requires n > 0
    ensures Mask(x + q * n, n) == Mask(x, n)
  {
    MaskMod(x + q * n, n);
    MaskMod(x, n);
    ModShift(x, n, q);
  }

  /** Masking an operand first changes nothing. */
  lemma MaskReduce(x: int, y: int, n: nat)
    requires n > 0
    ensures Mask(Mask(x, n) + y, n) == Mask(x + y, n)
    ensures Mask(y - Mask(x, n), n) == Mask(y - x, n)
  {
    MaskMod(x, n);
    MaskMod(x % n + y, n);
    MaskMod(x + y, n);
    MaskMod(y - x % n, n);
    MaskMod(y - x, n);
    ModReduce(x, y, n);
  }

  /** A multiple of the mask width vanishes. */
  lemma MaskDivides(x: int, n: nat, w: nat)
    requires IsPow2(n) && IsPow2(w) && n <= w
    ensures Mask(x + w, n) == Mask(x, n) && Mask(x - w, n) == Mask(x, n)
  {
    Pow2Divides(n, w);
    var q := w / n;
    assert w == q * n;
    MaskShift(x, n, q);
    MaskShift(x - w, n, q);
  }
}
