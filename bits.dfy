/**
 * Unsigned machine arithmetic on naturals: powers of two, the bitwise AND
 * the C code uses for masking, and the facts about `/` and `%` that connect
 * masks to remainders.
 */
module Bits {

  /** 2^32: u32 arithmetic wraps modulo this. */
  const U32: nat := 0x1_0000_0000

  function Pow2(k: nat): (r: nat)
    ensures r >= 1
  {
    if k == 0 then 1 else 2 * Pow2(k - 1)
  }

  /** Bitwise AND of two naturals, one bit at a time from the least significant end. */
  function And(x: nat, y: nat): (r: nat)
    ensures r <= x
  {
    if x == 0 || y == 0 then 0
    else 2 * And(x / 2, y / 2) + (if x % 2 == 1 && y % 2 == 1 then 1 else 0)
  }

  /** Quotient and remainder are the only pair that splits x. */
  lemma DivModUnique(x: int, d: int, q: int, r: int)
    requires d >= 1 && 0 <= r < d && x == q * d + r
    ensures x / d == q && x % d == r
  {
    var q0 := x / d;
    var r0 := x % d;
    assert (q - q0) * d == r0 - r;
    if q > q0 {
      MulAtLeast(q - q0, d);
    } else if q < q0 {
      MulAtLeast(q0 - q, d);
    }
  }

  lemma MulRegroup(q: int, m: int, b: int, u: int)
    requires u == m * b
    ensures q * u == (q * b) * m
  {
    assert q * (m * b) == (q * b) * m;
  }

  lemma MulAtLeast(a: int, d: int)
    requires a >= 1 && d >= 1
    ensures a * d >= d
  {
    assert a * d == (a - 1) * d + d;
    assert (a - 1) * d >= 0;
  }

  /** The remainder modulo 2m from the remainder of the halved number. */
  lemma DivModSplit(x: nat, m: nat)
    requires m >= 1
    ensures x % (2 * m) == 2 * ((x / 2) % m) + x % 2
  {
    var q := x / 2;
    var qq := q / m;
    var rr := q % m;
    assert x == qq * (2 * m) + (2 * rr + x % 2) by {
      assert x == 2 * q + x % 2;
      assert q == qq * m + rr;
    }
    DivModUnique(x, 2 * m, qq, 2 * rr + x % 2);
  }

  /** Reducing modulo a multiple of a first does not change the remainder modulo a. */
  lemma ModMod(x: int, a: int, b: int)
    requires a >= 1 && b >= 1
    ensures (x % (a * b)) % a == x % a
  {
    var q := x / (a * b);
    var r := x % (a * b);
    assert x == (q * b + r / a) * a + r % a by {
      assert x == q * (a * b) + r;
      assert r == (r / a) * a + r % a;
      assert q * (a * b) == (q * b) * a;
    }
    DivModUnique(x, a, q * b + r / a, r % a);
  }

  /** Adding to an already reduced number: (x % n + y) % n == (x + y) % n. */
  lemma ModAdd(x: int, y: int, n: int)
    requires n >= 1
    ensures (x % n + y) % n == (x + y) % n
  {
    var a := x % n + y;
    assert x + y == a + (x / n) * n;
    DivModUnique(x + y, n, a / n + x / n, a % n);
  }

  /** The remainder of a sum of two reduced numbers. */
  lemma ModSmallSum(h: int, i: int, n: int)
    requires n >= 1 && 0 <= h < n && 0 <= i < n
    ensures (h + i) % n == if h + i < n then h + i else h + i - n
  {
    if h + i < n {
      DivModUnique(h + i, n, 0, h + i);
    } else {
      DivModUnique(h + i, n, 1, h + i - n);
    }
  }

  lemma Pow2Split(j: nat, k: nat)
    requires j <= k
    ensures Pow2(k) == Pow2(j) * Pow2(k - j)
  {
    if j < k {
      Pow2Split(j, k - 1);
      assert Pow2(k) == 2 * Pow2(k - 1);
      assert Pow2(k - j) == 2 * Pow2(k - 1 - j);
    }
  }

  lemma Pow2Mono(j: nat, k: nat)
    requires j <= k
    ensures Pow2(j) <= Pow2(k)
  {
    Pow2Split(j, k);
    MulAtLeast(Pow2(k - j), Pow2(j));
  }

  /** 2^32 is the u32 modulus. */
  lemma Pow2Of32()
    ensures Pow2(32) == U32
  {
    Pow2Split(16, 32);
    assert Pow2(16) == 0x1_0000 by {
      Pow2Split(8, 16);
      assert Pow2(8) == 0x100;
    }
  }

  /** Masking with 2^k - 1 keeps the k low bits: x & (2^k - 1) == x % 2^k. */
  lemma {:induction false} MaskIsMod(x: nat, k: nat)
    ensures And(x, Pow2(k) - 1) == x % Pow2(k)
  {
    if k == 0 {
      DivModUnique(x, 1, x, 0);
    } else if x == 0 {
      DivModUnique(0, Pow2(k), 0, 0);
    } else {
      MaskIsMod(x / 2, k - 1);
      MaskStep(x, Pow2(k - 1));
    }
  }

  /** One bit of MaskIsMod: the low bit of x survives the mask 2m - 1. */
  lemma MaskStep(x: nat, m: nat)
    requires m >= 1 && x > 0
    requires And(x / 2, m - 1) == (x / 2) % m
    ensures And(x, 2 * m - 1) == x % (2 * m)
  {
    DivModUnique(2 * m - 1, 2, m - 1, 1);
    DivModSplit(x, m);
  }

  /** Masking with 2^n - 2^k keeps bits k to n-1: x & (2^n - 2^k) == x % 2^n - x % 2^k.
      With n = 32 and k = 12 this is `x & ~(PAGE_SIZE - 1)` on a u32. */
  lemma {:induction false} MaskClearsLow(x: nat, k: nat, n: nat)
    requires k <= n
    ensures Pow2(k) <= Pow2(n)
    ensures And(x, Pow2(n) - Pow2(k)) == x % Pow2(n) - x % Pow2(k)
  {
    if k == 0 {
      ClearsNone(x, n);
    } else if k == n || x == 0 {
      ClearsAll(x, k, n);
    } else {
      MaskClearsLow(x / 2, k - 1, n - 1);
      ClearStepPow(x, k, n);
    }
  }

  /** MaskClearsLow for k = 0, which is MaskIsMod. */
  lemma ClearsNone(x: nat, n: nat)
    ensures Pow2(0) <= Pow2(n)
    ensures And(x, Pow2(n) - Pow2(0)) == x % Pow2(n) - x % Pow2(0)
  {
    Pow2Mono(0, n);
    MaskIsMod(x, n);
    DivModUnique(x, 1, x, 0);
  }

  /** MaskClearsLow when the mask or x is 0. */
  lemma ClearsAll(x: nat, k: nat, n: nat)
    requires k <= n && (k == n || x == 0)
    ensures Pow2(k) <= Pow2(n)
    ensures And(x, Pow2(n) - Pow2(k)) == x % Pow2(n) - x % Pow2(k)
  {
    Pow2Mono(k, n);
    if x == 0 {
      DivModUnique(0, Pow2(n), 0, 0);
      DivModUnique(0, Pow2(k), 0, 0);
    }
  }

  /** ClearStep with the halved masks written as powers of two. */
  lemma ClearStepPow(x: nat, k: nat, n: nat)
    requires 1 <= k <= n && x > 0 && Pow2(k - 1) <= Pow2(n - 1)
    requires And(x / 2, Pow2(n - 1) - Pow2(k - 1)) == (x / 2) % Pow2(n - 1) - (x / 2) % Pow2(k - 1)
    ensures Pow2(k) <= Pow2(n)
    ensures And(x, Pow2(n) - Pow2(k)) == x % Pow2(n) - x % Pow2(k)
  {
    Pow2Mono(k, n);
    var hn, hk := Pow2(n - 1), Pow2(k - 1);
    assert Pow2(n) == 2 * hn && Pow2(k) == 2 * hk;
    ClearStep(x, hn, hk);
  }

  /** One bit of MaskClearsLow: the low bit of x is cleared by the even mask 2hn - 2hk. */
  lemma ClearStep(x: nat, hn: nat, hk: nat)
    requires 1 <= hk <= hn && x > 0
    requires And(x / 2, hn - hk) == (x / 2) % hn - (x / 2) % hk
    ensures And(x, 2 * hn - 2 * hk) == x % (2 * hn) - x % (2 * hk)
  {
    if hk < hn {
      var y := 2 * hn - 2 * hk;
      DivModUnique(y, 2, hn - hk, 0);
      assert And(x, y) == 2 * And(x / 2, hn - hk);
      DivModSplit(x, hn);
      DivModSplit(x, hk);
    }
  }
}
