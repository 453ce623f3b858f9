/** The bit-reversal permutation that precedes the radix-2 passes: the index
    function and its in-place application to both parts of a buffer. */
module BitReverse {
  import opened Bits
  import opened ComplexArrays

  /** The shift loop of `BitReverseIndex`: while n > 1, shift the low bit of
      index into acc and halve both index and n. Over n == 2^k it leaves acc
      shifted left by k, followed by the reversal of the low k bits of index. */
  function BitReverseLoop(index: nat, n: nat, acc: nat): (r: nat)
    ensures forall k: nat :: n == Pow2(k) ==> r == Shift(acc, k) + RevBits(index, k)
    decreases n
  {
    if n > 1 then
      LoopStep(index, n, acc);
      BitReverseLoop(index / 2, n / 2, acc * 2 + index % 2)
    else
      LoopEnd(n);
      acc
  }

  /** Reference definition: the lowest of k bits of i becomes the highest. */
  function RevBits(i: nat, k: nat): nat
  {
    if k == 0 then 0 else LowBitWeight(i, k - 1) + RevBits(i / 2, k - 1)
  }

  /** Pow2(k) when the lowest bit of i is set, else 0. */
  function LowBitWeight(i: nat, k: nat): nat
  {
    if i % 2 == 1 then Pow2(k) else 0
  }

  lemma {:induction false} RevBitsBound(i: nat, k: nat)
    ensures RevBits(i, k) < Pow2(k)
  {
    if k > 0 {
      RevBitsBound(i / 2, k - 1);
    }
  }

  /** acc shifted left by k bits, one doubling per bit. */
  function Shift(acc: nat, k: nat): nat
  {
    if k == 0 then acc else 2 * Shift(acc, k - 1)
  }

  lemma {:induction false} ShiftAdd(a: nat, b: nat, k: nat)
    ensures Shift(a + b, k) == Shift(a, k) + Shift(b, k)
  {
    if k > 0 {
      ShiftAdd(a, b, k - 1);
    }
  }

  lemma {:induction false} ShiftOne(k: nat)
    ensures Shift(1, k) == Pow2(k)
  {
    if k > 0 {
      ShiftOne(k - 1);
    }
  }

  /** One round of the shift loop: moving the low bit of index into acc and
      halving n == 2^k keeps the final value. */
  lemma LoopStep(index: nat, n: nat, acc: nat)
    requires n > 1
    ensures forall k: nat :: n == Pow2(k) ==>
              k >= 1 && n / 2 == Pow2(k - 1)
              && Shift(acc * 2 + index % 2, k - 1) + RevBits(index / 2, k - 1)
                 == Shift(acc, k) + RevBits(index, k)
  {
    forall k: nat | n == Pow2(k)
      ensures k >= 1 && n / 2 == Pow2(k - 1)
      ensures Shift(acc * 2 + index % 2, k - 1) + RevBits(index / 2, k - 1) == Shift(acc, k) + RevBits(index, k)
    {
      LoopStepAt(index, k, acc);
    }
  }

  lemma LoopStepAt(index: nat, k: nat, acc: nat)
    requires Pow2(k) > 1
    ensures k >= 1 && Pow2(k) / 2 == Pow2(k - 1)
    ensures Shift(acc * 2 + index % 2, k - 1) + RevBits(index / 2, k - 1) == Shift(acc, k) + RevBits(index, k)
  {
    var b := index % 2;
    ShiftAdd(acc, acc, k - 1);
    ShiftAdd(acc * 2, b, k - 1);
    ShiftOne(k - 1);
    assert Shift(b, k - 1) == LowBitWeight(index, k - 1) by {
      if b == 0 {
        ShiftAdd(0, 0, k - 1);
      }
    }
  }

  /** The loop stops at n <= 1, which is 2^0 or no power of two. */
  lemma LoopEnd(n: nat)
    requires n <= 1
    ensures forall k: nat :: n == Pow2(k) ==> k == 0
  {
  }

  /** Starting from an empty accumulator the loop yields RevBits exactly. */
  lemma LoopFromZero(index: nat, k: nat)
    ensures BitReverseLoop(index, Pow2(k), 0) == RevBits(index, k)
  {
    ShiftAdd(0, 0, k);
  }

  /** The low log2(n) bits of index, in reverse order; below n when n is a
      power of two. */
  function BitReverseIndex(index: nat, n: nat): (r: nat)
    ensures forall k: nat :: n == Pow2(k) ==> r == RevBits(index, k)
    ensures IsPow2(n) ==> r < n
  {
    LoopBound(index, n);
    ShiftZero();
    BitReverseLoop(index, n, 0)
  }

  /** Shifting zero gives zero. */
  lemma ShiftZero()
    ensures forall k: nat :: Shift(0, k) == 0
  {
    forall k: nat ensures Shift(0, k) == 0 {
      ShiftAdd(0, 0, k);
    }
  }

  lemma LoopBound(index: nat, n: nat)
    ensures IsPow2(n) ==> BitReverseLoop(index, n, 0) < n
  {
    if IsPow2(n) {
      LoopFromZero(index, Log2(n));
      RevBitsBound(index, Log2(n));
    }
  }

  /** Reversal seen from the other end: the highest of the k bits becomes
      the lowest. */
  lemma {:induction false} RevBitsTop(i: nat, k: nat)
    requires k >= 1 && i < Pow2(k)
    ensures RevBits(i, k) == 2 * RevBits(i % Pow2(k - 1), k - 1) + i / Pow2(k - 1)
  {
    if k >= 2 {
      var q := Pow2(k - 2);
      var p := 2 * q;
      assert Pow2(k - 1) == p && Pow2(k) == 2 * p;
      var h := i / 2;
      assert h < p;
      RevBitsTop(h, k - 1);
      var inner := RevBits(h % q, k - 2);
      DivModTwice(i, q);
      var lo := i % p;
      assert RevBits(lo, k - 1) == LowBitWeight(i, k - 2) + inner;
      assert RevBits(i, k) == LowBitWeight(i, k - 1) + 2 * inner + h / q;
    }
  }

  lemma {:induction false} RevBitsInvolution(i: nat, k: nat)
    requires i < Pow2(k)
    ensures RevBits(RevBits(i, k), k) == i
  {
    if k > 0 {
      var p := Pow2(k - 1);
      var lo, top := i % p, i / p;
      assert Pow2(k) == 2 * p;
      if i < p {
        DivModUnique(i, p, 0, i);
      } else {
        DivModUnique(i, p, 1, i - p);
      }
      assert top < 2 && i == (if top == 1 then p else 0) + lo;
      var inner := RevBits(lo, k - 1);
      RevBitsTop(i, k);
      var r := RevBits(i, k);
      assert r == 2 * inner + top;
      DivModUnique(r, 2, inner, top);
      RevBitsInvolution(lo, k - 1);
      assert RevBits(r, k) == LowBitWeight(r, k - 1) + RevBits(r / 2, k - 1);
    }
  }

  /** For n a power of two, the index reversal stays below n and undoes
      itself. */
  lemma BitReverseIndexInvolution(i: nat, n: nat)
    requires IsPow2(n) && i < n
    ensures BitReverseIndex(i, n) < n
    ensures BitReverseIndex(BitReverseIndex(i, n), n) == i
  {
    var k := Log2(n);
    LoopFromZero(i, k);
    RevBitsBound(i, k);
    LoopFromZero(RevBits(i, k), k);
    RevBitsInvolution(i, k);
  }

  lemma BitReverseIndexInRange(n: nat)
    requires IsRadix2Length(n)
    ensures forall i :: 0 <= i < n ==> BitReverseIndex(i, n) < n
  {
    forall i | 0 <= i < n ensures BitReverseIndex(i, n) < n {
      BitReverseIndexInvolution(i, n);
    }
  }

  /** The reversal over all of [0, n) is its own inverse. */
  lemma BitReverseIndexSelfInverse(n: nat)
    requires IsRadix2Length(n)
    ensures forall i :: 0 <= i < n ==> BitReverseIndex(BitReverseIndex(i, n), n) == i
  {
    forall i | 0 <= i < n ensures BitReverseIndex(BitReverseIndex(i, n), n) == i {
      BitReverseIndexInvolution(i, n);
    }
  }

  /** For n = 8 the permutation reads [0, 4, 2, 6, 1, 5, 3, 7]. */
  lemma BitReverseEight()
    ensures BitReverseIndex(0, 8) == 0 && BitReverseIndex(1, 8) == 4
    ensures BitReverseIndex(2, 8) == 2 && BitReverseIndex(3, 8) == 6
    ensures BitReverseIndex(4, 8) == 1 && BitReverseIndex(5, 8) == 5
    ensures BitReverseIndex(6, 8) == 3 && BitReverseIndex(7, 8) == 7
  {
  }

  lemma BitReverseTwo(n: nat)
    requires n == 2
    ensures BitReverseIndex(0, n) == 0 && BitReverseIndex(1, n) == 1
  {
  }

  /** The buffer permuted so that element k comes from index reverse(k). */
  function BitReversed(a: Buffer): (r: Buffer)
    requires IsRadix2Length(a.Length())
    ensures r.Length() == a.Length()
  {
    var n := a.Length();
    BitReverseIndexInRange(n);
    Pack(seq(n, k requires 0 <= k < n => a.At(BitReverseIndex(k, n))))
  }

  /** Applying the permutation twice restores the buffer. */
  lemma BitReversedInvolution(a: Buffer)
    requires IsRadix2Length(a.Length())
    ensures BitReversed(BitReversed(a)) == a
  {
    var n := a.Length();
    var b := BitReversed(BitReversed(a));
    BitReverseIndexInRange(n);
    forall k | 0 <= k < n ensures b.At(k) == a.At(k) {
      BitReverseIndexInvolution(k, n);
      assert b.At(k) == BitReversed(a).At(BitReverseIndex(k, n));
    }
    Extensionality(b, a);
  }

  /** For n = 2 the permutation moves nothing. */
  lemma BitReversedTwo(a: Buffer)
    requires a.Length() == 2
    ensures IsRadix2Length(2) && BitReversed(a) == a
  {
    assert IsPow2(2);
    var br := BitReversed(a);
    BitReverseTwo(a.Length());
    PairExtensionality(br, a);
  }

  /** `BitReverseComplexArray`: walks i upwards, swapping element i with
      element reverse(i) in both parts unless i is already recorded in
      `flips` as the partner of an earlier swap; each partner is recorded
      after its swap, so no pair is exchanged twice. The result is the
      argument itself, permuted. */
  method BitReverseComplexArray(a: Buffer) returns (b: Buffer)
    requires IsRadix2Length(a.Length())
    ensures b.Length() == a.Length()
    ensures forall k :: 0 <= k < a.Length() ==> b.At(k) == a.At(BitReverseIndex(k, a.Length()))
    ensures b == BitReversed(a)
  {
    var n := a.Length();
    var re, im := a.realPart, a.imagPart;
    var flips: set<nat> := {};
    BitReverseIndexInRange(n);
    BitReverseIndexSelfInverse(n);
    for i := 0 to n
      invariant |re| == n && |im| == n
      invariant forall k :: k in flips <==> 0 <= k < n && BitReverseIndex(k, n) < i && BitReverseIndex(k, n) <= k
      invariant forall k :: 0 <= k < n && (k < i || BitReverseIndex(k, n) < i) ==>
                  re[k] == a.realPart[BitReverseIndex(k, n)] && im[k] == a.imagPart[BitReverseIndex(k, n)]
      invariant forall k :: 0 <= k < n && !(k < i || BitReverseIndex(k, n) < i) ==>
                  re[k] == a.realPart[k] && im[k] == a.imagPart[k]
    {
      var r := BitReverseIndex(i, n);
      if i in flips {
        continue;
      }
      re := re[i := re[r]][r := re[i]];
      im := im[i := im[r]][r := im[i]];
      flips := flips + {r};
    }
    b := ComplexArray(re, im);
    Extensionality(b, BitReversed(a));
  }
}
