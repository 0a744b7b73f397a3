/** Remainders, bit masks and powers of two. */
module Arith {
  lemma ModUnique(a: int, m: int, q: int, r: int)
    requires 0 <= r < m && a == q * m + r
    ensures a % m == r && a / m == q
  {
    var d := a / m - q;
    assert d * m == r - a % m;
    assert (d >= 1 ==> d * m >= m) && (d <= -1 ==> d * m <= -m);
  }

  /** Dropping a multiple of the modulus first changes nothing. */
  lemma ModOfMod(a: int, m: int, c: int)
    requires m > 0 && c > 0
    ensures c * m > 0 && (a % (c * m)) % m == a % m
  {
    assert c * m > 0;
    var q, r := a / (c * m), a % (c * m);
    assert a == (q * c + r / m) * m + r % m by {
      assert a == q * (c * m) + r && r == r / m * m + r % m;
      assert q * (c * m) == (q * c) * m;
    }
    ModUnique(a, m, q * c + r / m, r % m);
  }

  function Pow2(k: nat): (p: nat)
    ensures p > 0
  {
    if k == 0 then 1 else 2 * Pow2(k - 1)
  }

  ghost predicate PowerOfTwo(n: nat) {
    exists k: nat :: n == Pow2(k)
  }

  lemma {:induction false} Pow2Sum(a: nat, b: nat)
    ensures Pow2(a + b) == Pow2(a) * Pow2(b)
  {
    if a > 0 {
      Pow2Sum(a - 1, b);
    }
  }

  lemma {:induction false} Pow2Monotone(a: nat, b: nat)
    requires a <= b
    ensures Pow2(a) <= Pow2(b)
    decreases b
  {
    if a < b {
      Pow2Monotone(a, b - 1);
    }
  }

  /** Bitwise AND of two unsigned integers, bit by bit. */
  function BitAnd(a: nat, b: nat): (r: nat) {
    if a == 0 || b == 0 then 0 else (if a % 2 == 1 && b % 2 == 1 then 1 else 0) + 2 * BitAnd(a / 2, b / 2)
  }

  lemma HalveMod(a: nat, h: nat)
    requires h > 0
    ensures a % (2 * h) == 2 * (a / 2 % h) + a % 2 && a / (2 * h) == a / 2 / h
  {
    var q, r := a / 2 / h, a / 2 % h;
    assert a / 2 == q * h + r;
    assert a == q * (2 * h) + (2 * r + a % 2) by {
      assert 2 * (q * h + r) == q * (2 * h) + 2 * r;
    }
    ModUnique(a, 2 * h, q, 2 * r + a % 2);
  }

  /** Bit k of the result is set exactly when it is set in both. */
  lemma {:induction false} BitAndBits(a: nat, b: nat, k: nat)
    ensures BitAnd(a, b) / Pow2(k) % 2 == 1 <==> a / Pow2(k) % 2 == 1 && b / Pow2(k) % 2 == 1
  {
    if k > 0 {
      var h := Pow2(k - 1);
      BitAndBits(a / 2, b / 2, k - 1);
      HalveMod(a, h);
      HalveMod(b, h);
      HalveMod(BitAnd(a, b), h);
      assert BitAnd(a, b) / 2 == BitAnd(a / 2, b / 2);
    }
  }

  lemma AndOdd(a: nat, b: nat)
    ensures BitAnd(a, 2 * b + 1) == a % 2 + 2 * BitAnd(a / 2, b)
  {
    assert (2 * b + 1) / 2 == b && (2 * b + 1) % 2 == 1;
  }

  /** Masking with a power of two less one is the remainder: `cur & (size - 1)`. */
  lemma {:induction false} MaskIsMod(a: nat, k: nat)
    ensures BitAnd(a, Pow2(k) - 1) == a % Pow2(k)
  {
    if k > 0 {
      var h := Pow2(k - 1);
      MaskIsMod(a / 2, k - 1);
      HalveMod(a, h);
      AndOdd(a, h - 1);
    }
  }

  /** A buffer of 2^k <= 2^31 bytes divides the 32-bit cursor range. */
  lemma DividesTwo32(size: nat) returns (c: nat)
    requires PowerOfTwo(size) && size <= 0x8000_0000
    ensures c > 0 && c * size == 0x1_0000_0000
  {
    var k: nat :| size == Pow2(k);
    Pow2Of31();
    if k >= 32 {
      Pow2Monotone(32, k);
    }
    Pow2Sum(32 - k, k);
    c := Pow2(32 - k);
  }

  lemma Pow2Of31()
    ensures Pow2(31) == 0x8000_0000 && Pow2(32) == 0x1_0000_0000
  {
    assert Pow2(8) == 256;
    Pow2Sum(8, 8);
    Pow2Sum(16, 8);
    Pow2Sum(24, 7);
    assert Pow2(7) == 128;
  }
}
