/** Integer facts shared by the transform model: powers of two, Euclidean
    division uniqueness, and JavaScript's 32-bit bitwise AND as used by the
    strategy dispatch. */
module Bits {

  /** 2^32. The model assumes buffer lengths below it, so that a length read
      as a signed or an unsigned 32-bit integer has the same bits. */
  const Uint32Modulus: nat := 0x1_0000_0000

  /** 2 to the power k. */
  function Pow2(k: nat): (r: nat)
    ensures r >= 1
  {
    if k == 0 then 1 else 2 * Pow2(k - 1)
  }

  /** n is one of 1, 2, 4, 8, ..., recognised by repeated halving. */
  predicate IsPow2(n: nat)
  {
    if n <= 1 then n == 1 else n % 2 == 0 && IsPow2(n / 2)
  }

  /** The lengths the radix-2 path accepts: zero or a power of two. */
  predicate IsRadix2Length(n: nat)
  {
    n == 0 || IsPow2(n)
  }

  /** The exponent of a power of two. */
  function Log2(n: nat): (k: nat)
    requires IsPow2(n)
    ensures Pow2(k) == n
  {
    if n == 1 then 0 else Log2(n / 2) + 1
  }

  lemma {:induction false} Pow2Strict(a: nat, b: nat)
    ensures a < b ==> 2 * Pow2(a) <= Pow2(b)
  {
    if a + 1 < b {
      Pow2Strict(a, b - 1);
    }
  }

  /** Euclidean quotient and remainder are determined by any decomposition
      k == q * w + r with 0 <= r < w. */
  lemma DivModUnique(k: int, w: int, q: int, r: int)
    requires w > 0 && 0 <= r < w && k == q * w + r
    ensures k / w == q && k % w == r
  {
    var q', r' := k / w, k % w;
    assert q' * w + r' == q * w + r;
    var d := q - q';
    assert d * w == r' - r by {
      assert d * w == q * w - q' * w;
    }
    MulSign(d, w);
  }

  lemma MulSign(x: int, w: int)
    requires w > 0
    ensures x >= 1 ==> x * w >= w
    ensures x <= -1 ==> x * w <= -w
  {
    if x >= 1 {
      assert x * w == (x - 1) * w + w;
      assert (x - 1) * w >= 0;
    } else if x <= -1 {
      assert x * w == (x + 1) * w - w;
      assert (x + 1) * w <= 0;
    }
  }

  /** Dividing by 2 * c in one step or by 2 then by c agrees, and the low
      bit survives reduction modulo an even number. */
  lemma DivModTwice(i: nat, c: nat)
    requires c >= 1
    ensures i / (2 * c) == (i / 2) / c
    ensures (i % (2 * c)) / 2 == (i / 2) % c
    ensures (i % (2 * c)) % 2 == i % 2
  {
    var h, b := i / 2, i % 2;
    var s, t := h / c, h % c;
    assert i == s * (2 * c) + (2 * t + b);
    DivModUnique(i, 2 * c, s, 2 * t + b);
    DivModUnique(2 * t + b, 2, t, b);
  }

  /** JavaScript's ToUint32 on an integer-valued number. */
  function ToUint32(x: int): (r: nat)
    ensures r < Uint32Modulus
    ensures 0 <= x < Uint32Modulus ==> r == x
  {
    x % Uint32Modulus
  }

  /** Bitwise AND of two non-negative integers, bit by bit from the bottom. */
  function BitAnd(a: nat, b: nat): nat
  {
    if a == 0 || b == 0 then 0
    else 2 * BitAnd(a / 2, b / 2) + (if a % 2 == 1 && b % 2 == 1 then 1 else 0)
  }

  lemma {:induction false} BitAndSelf(x: nat)
    ensures BitAnd(x, x) == x
  {
    if x > 0 {
      BitAndSelf(x / 2);
    }
  }

  /** n & (n - 1) clears the lowest set bit, so it is zero exactly for powers
      of two. */
  lemma {:induction false} BitAndPredecessor(n: nat)
    requires n >= 1
    ensures BitAnd(n, n - 1) == 0 <==> IsPow2(n)
  {
    if n == 1 {
    } else if n % 2 == 0 {
      assert (n - 1) / 2 == n / 2 - 1;
      BitAndPredecessor(n / 2);
    } else {
      assert (n - 1) / 2 == n / 2;
      BitAndSelf(n / 2);
    }
  }

  /** The test on 32-bit operands: for n below 2^32, n & (n - 1) is zero
      exactly for 0 and the powers of two. */
  lemma AndPredecessorTest(n: nat)
    requires n < Uint32Modulus
    ensures BitAnd(ToUint32(n), ToUint32(n - 1)) == 0 <==> IsRadix2Length(n)
  {
    if n >= 1 {
      BitAndPredecessor(n);
    }
  }
}
