/** The FFT engine's control structure: the `fft` dispatch, the iterative
    radix-2 transform and the recursive mixed-radix transform, with the
    floating-point arithmetic left abstract.

    Both paths work on the caller's buffer and return it: here each returns
    the buffer's new contents, which the caller's buffer holds afterwards. */
module Transform {
  import opened Bits
  import opened ComplexArrays
  import opened BitReverse
  import opened Factor
  import opened Schedule
  import opened Sweeps

  /** The floating-point arithmetic of the transforms, supplied by the caller
      of the model. Each function receives everything the corresponding
      source expression depends on, including the twiddle factor's position
      (the running rotation is a deterministic function of it), and returns
      the values as stored, so rounding is part of it.
      - butterfly(left, right, j, width, inverse): the new left and right
        elements of one radix-2 butterfly at offset j of a pass of `width`;
      - accumulate(acc, v, i, j, n, inverse): output element i after adding
        the twiddled sub-result value v of phase j, for length n;
      - normalise(v, p): the final scaling of an output element by 1/sqrt(p). */
  datatype Arith = Arith(
    butterfly: ButterflyFn,
    accumulate: (Complex, Complex, nat, nat, nat, bool) -> Complex,
    normalise: (Complex, nat) -> Complex)

  /** The dispatch test of `fft`: `n & (n - 1)` on 32-bit integers; zero
      selects the radix-2 path, which for every length below 2^32 happens
      exactly for 0 and the powers of two. */
  function TakesRadix2Path(n: nat): (b: bool)
    ensures n < Uint32Modulus ==> (b <==> IsRadix2Length(n))
  {
    if n < Uint32Modulus then
      AndPredecessorTest(n);
      BitAnd(ToUint32(n), ToUint32(n - 1)) == 0
    else BitAnd(ToUint32(n), ToUint32(n - 1)) == 0
  }

  /** A radix-2 pass of `width` over n entries: both powers of two. */
  predicate Radix2Pass(n: nat, width: nat)
  {
    IsPow2(n) && IsPow2(width) && width < n
  }

  /** Butterfly t < n / 2 of a pass stays inside the buffer and is the
      butterfly of both of its ends. */
  lemma PairInPass(n: nat, width: nat, t: nat)
    requires Radix2Pass(n, width) && t < n / 2
    ensures width > 0
    ensures ButterflyLeft(t, width) + width < n
    ensures ButterflyOf(ButterflyLeft(t, width), width) == t
    ensures ButterflyOf(ButterflyLeft(t, width) + width, width) == t
  {
    Radix2PassShape(n, width);
    PassShapeHalf(n, width, Row(n, 2 * width));
    ButterflyOfLeft(t, width, Row(n, 2 * width));
  }

  /** Index x < n of a pass is one end of butterfly ButterflyOf(x, width). */
  lemma IndexInPass(n: nat, width: nat, x: nat)
    requires Radix2Pass(n, width) && x < n
    ensures width > 0
    ensures ButterflyOf(x, width) < n / 2
    ensures ButterflyLeft(ButterflyOf(x, width), width) + width < n
    ensures x == ButterflyLeft(ButterflyOf(x, width), width)
         || x == ButterflyLeft(ButterflyOf(x, width), width) + width
  {
    Radix2PassShape(n, width);
    PassShapeHalf(n, width, Row(n, 2 * width));
    ButterflyOfIndex(x, width, Row(n, 2 * width));
    PairInPass(n, width, ButterflyOf(x, width));
  }

  /** The butterflies of a pass in the order the block and offset loops
      visit them: butterfly t joins ButterflyLeft(t, width) and that plus
      width, with twiddle step t % width. */
  function RadixPairs(n: nat, width: nat): (ps: seq<Pair>)
    requires width > 0
    ensures |ps| == n / 2
  {
    seq(n / 2, t requires 0 <= t < n / 2 => Pair(ButterflyLeft(t, width), ButterflyLeft(t, width) + width, Col(t, width)))
  }

  /** The butterfly of the pass that touches each index. */
  function RadixOwner(n: nat, width: nat): (os: seq<nat>)
    requires width > 0
    ensures |os| == n
  {
    seq(n, x requires 0 <= x < n => ButterflyOf(x, width))
  }

  /** The pairs of a radix-2 pass partition the buffer's indices. */
  lemma RadixSchedule(n: nat, width: nat)
    requires Radix2Pass(n, width)
    ensures width > 0 && IsSchedule(RadixPairs(n, width), RadixOwner(n, width), n)
  {
    var pairs, owner := RadixPairs(n, width), RadixOwner(n, width);
    forall t | 0 <= t < |pairs|
      ensures pairs[t].left < pairs[t].right < n
      ensures owner[pairs[t].left] == t && owner[pairs[t].right] == t
    {
      PairInPass(n, width, t);
    }
    forall x | 0 <= x < n
      ensures owner[x] < |pairs| && (x == pairs[owner[x]].left || x == pairs[owner[x]].right)
    {
      IndexInPass(n, width, x);
    }
  }

  /** One pass of the `width` loop of `FFT_2_Iterative`: all n / 2
      butterflies, block by block, in place. */
  function Pass(b: Buffer, width: nat, inverse: bool, ar: Arith): (r: Buffer)
    requires Radix2Pass(b.Length(), width)
    ensures r.Length() == b.Length()
  {
    RadixSchedule(b.Length(), width);
    Sweep(b, RadixPairs(b.Length(), width), ar.butterfly, width, inverse)
  }

  /** Reference value of element x after a pass: the half of its own
      butterfly's result that lands on x, computed from the pass's input. */
  function PassValue(b: Buffer, width: nat, x: nat, inverse: bool, ar: Arith): Complex
    requires Radix2Pass(b.Length(), width) && x < b.Length()
  {
    RadixSchedule(b.Length(), width);
    SweepValue(b, RadixPairs(b.Length(), width), RadixOwner(b.Length(), width), x, ar.butterfly, width, inverse)
  }

  /** Butterfly t of a pass: after the pass its two ends hold its two
      outputs, computed from the pass's input with its own twiddle step. */
  lemma PassPairValues(b: Buffer, width: nat, t: nat, inverse: bool, ar: Arith)
    requires Radix2Pass(b.Length(), width) && t < b.Length() / 2
    ensures width > 0
    ensures var p := RadixPairs(b.Length(), width)[t];
            && p.left < p.right < b.Length()
            && var out := ar.butterfly(b.At(p.left), b.At(p.right), p.step, width, inverse);
               && PassValue(b, width, p.left, inverse, ar) == out.0
               && PassValue(b, width, p.right, inverse, ar) == out.1
  {
    var n := b.Length();
    RadixSchedule(n, width);
    var pairs, owner := RadixPairs(n, width), RadixOwner(n, width);
    var p := pairs[t];
    SweepValueAt(b, pairs, owner, p.left, ar.butterfly, width, inverse, p);
    SweepValueAt(b, pairs, owner, p.right, ar.butterfly, width, inverse, p);
  }

  /** Because the butterflies of a pass partition the indices, the in-place
      sequential loop computes every element from the pass's input: no
      butterfly reads a value another butterfly of the same pass wrote. */
  lemma PassPointwise(b: Buffer, width: nat, inverse: bool, ar: Arith)
    requires Radix2Pass(b.Length(), width)
    ensures forall x :: 0 <= x < b.Length() ==>
              Pass(b, width, inverse, ar).At(x) == PassValue(b, width, x, inverse, ar)
  {
    var n := b.Length();
    RadixSchedule(n, width);
    SweepPointwise(b, RadixPairs(n, width), RadixOwner(n, width), ar.butterfly, width, inverse);
  }

  /** The passes of the given widths, in order. */
  function ApplyPasses(b: Buffer, widths: seq<nat>, inverse: bool, ar: Arith): (r: Buffer)
    requires forall w :: w in widths ==> Radix2Pass(b.Length(), w)
    ensures r.Length() == b.Length()
    decreases |widths|
  {
    if widths == [] then b
    else ApplyPasses(Pass(b, widths[0], inverse, ar), widths[1..], inverse, ar)
  }

  /** `FFT_2_Iterative`: the bit-reversal permutation, then one pass per
      width 1, 2, 4, ... below n. */
  function Iterative(a: Buffer, inverse: bool, ar: Arith): (r: Buffer)
    requires IsRadix2Length(a.Length())
    ensures r.Length() == a.Length()
  {
    assert IsPow2(1);
    ApplyPasses(BitReversed(a), PassWidths(a.Length(), 1), inverse, ar)
  }

  /** For n = 2 the bit reversal moves nothing and the single pass of width
      1 is one butterfly with twiddle step 0 over elements 0 and 1. */
  lemma IterativeTwo(a: Buffer, inverse: bool, ar: Arith)
    requires a.Length() == 2
    ensures var out := ar.butterfly(a.At(0), a.At(1), 0, 1, inverse);
            Iterative(a, inverse, ar).At(0) == out.0 && Iterative(a, inverse, ar).At(1) == out.1
  {
    IterativeTwoSinglePass(a, inverse, ar);
    PassPairValues(a, 1, 0, inverse, ar);
    PassPointwise(a, 1, inverse, ar);
    FirstPairOfTwo();
  }

  lemma IterativeTwoSinglePass(a: Buffer, inverse: bool, ar: Arith)
    requires a.Length() == 2
    ensures Radix2Pass(2, 1) && Iterative(a, inverse, ar) == Pass(a, 1, inverse, ar)
  {
    assert IsPow2(1) && IsPow2(2);
    assert PassWidths(2, 1) == [1] by {
      assert PassWidths(2, 2) == [];
    }
    BitReversedTwo(a);
    assert Iterative(a, inverse, ar) == ApplyPasses(a, [1], inverse, ar);
    assert [1][1..] == [];
  }

  lemma FirstPairOfTwo()
    ensures RadixPairs(2, 1)[0] == Pair(0, 1, 0)
  {
    assert Row(0, 1) == 0 && Col(0, 1) == 0;
    assert FlatIndex(0, 0, 1) == 0;
  }

  /** Sub-sequence j of the mixed-radix step: entries i * p + j, i < m. */
  function Gather(a: Buffer, j: nat, p: nat, m: nat): (r: Buffer)
    requires j < p && p * m == a.Length()
    ensures r.Length() == m
    ensures forall i :: 0 <= i < m ==> r.At(i) == GatherAt(a, i, j, p, m)
  {
    Pack(seq(m, i requires 0 <= i < m => GatherAt(a, i, j, p, m)))
  }

  /** Entry i of sub-sequence j: input[i * p + j]. */
  function GatherAt(a: Buffer, i: nat, j: nat, p: nat, m: nat): Complex
    requires i < m && j < p && p * m == a.Length()
  {
    FlatIndexInverse(i, j, m, p);
    a.At(FlatIndex(i, j, p))
  }

  /** The p strided sub-sequences of length m together hold every input
      entry once: entry k sits in sub-sequence k % p at position k / p. */
  lemma GatherCovers(a: Buffer, p: nat, m: nat)
    requires p > 0 && p * m == a.Length()
    ensures forall k :: 0 <= k < a.Length() ==>
              Col(k, p) < p && Row(k, p) < m && Gather(a, Col(k, p), p, m).At(Row(k, p)) == a.At(k)
  {
    forall k | 0 <= k < a.Length()
      ensures Col(k, p) < p && Row(k, p) < m && Gather(a, Col(k, p), p, m).At(Row(k, p)) == a.At(k)
    {
      assert k < m * p;
      RowColInverse(k, m, p);
    }
  }

  /** The recombination loop of phase j: output element i absorbs the
      twiddled sub-result entry i % m, written Col(i, m), and nothing else
      changes. */
  function Accumulate(out: Buffer, sub: Buffer, j: nat, inverse: bool, ar: Arith): (r: Buffer)
    requires sub.Length() > 0
    ensures r.Length() == out.Length()
    ensures forall i :: 0 <= i < out.Length() ==>
              Col(i, sub.Length()) < sub.Length()
              && r.At(i) == ar.accumulate(out.At(i), sub.At(Col(i, sub.Length())), i, j, out.Length(), inverse)
  {
    var n, m := out.Length(), sub.Length();
    ColBelow(m);
    Pack(seq(n, i requires 0 <= i < n => ar.accumulate(out.At(i), sub.At(Col(i, m)), i, j, n, inverse)))
  }

  /** The phases j, j + 1, ..., p - 1 of the mixed-radix step: gather,
      transform the sub-sequence when it is longer than 1, recombine. */
  function Phases(a: Buffer, p: nat, m: nat, j: nat, out: Buffer, inverse: bool, ar: Arith): (r: Buffer)
    requires a.Length() < Uint32Modulus
    requires p * m == a.Length() && 1 <= m < a.Length() && j <= p
    requires out.Length() == a.Length()
    ensures r.Length() == a.Length()
    decreases a.Length(), 0, p - j
  {
    if j == p then out
    else Phases(a, p, m, j + 1, Accumulate(out, SubResult(a, p, m, j, inverse, ar), j, inverse, ar), inverse, ar)
  }

  /** Phase j's sub-result: sub-sequence j, transformed when it is longer
      than 1. */
  function SubResult(a: Buffer, p: nat, m: nat, j: nat, inverse: bool, ar: Arith): (r: Buffer)
    requires a.Length() < Uint32Modulus
    requires p * m == a.Length() && 1 <= m < a.Length() && j < p
    ensures r.Length() == m
    ensures m == 1 ==> r.At(0) == a.At(j)
    decreases a.Length(), 0, 0
  {
    var sub := Gather(a, j, p, m);
    if m > 1 then Fft(sub, inverse, ar) else sub
  }

  /** `FFT_Recursive`: length 1 is returned as is; otherwise split by
      p = LowestOddFactor(n) into p strided sub-sequences of length n / p,
      recombine into a zeroed output, and write the normalised output back. */
  function Recursive(a: Buffer, inverse: bool, ar: Arith): (r: Buffer)
    requires 1 <= a.Length() < Uint32Modulus
    ensures r.Length() == a.Length()
    ensures a.Length() == 1 ==> r == a
    decreases a.Length(), 1, 0
  {
    var n := a.Length();
    if n == 1 then a
    else
      var p := LowestOddFactor(n);
      LowestOddFactorSplits(n);
      var out := Phases(a, p, n / p, 0, FromLength(n).buffer, inverse, ar);
      Pack(seq(n, i requires 0 <= i < n => ar.normalise(out.At(i), p)))
  }

  /** Output element i after phases j, ..., p - 1, starting from acc: each
      phase adds its sub-result's entry at i % m. */
  function PhaseFold(a: Buffer, p: nat, m: nat, i: nat, j: nat, acc: Complex, inverse: bool, ar: Arith): Complex
    requires a.Length() < Uint32Modulus
    requires p * m == a.Length() && 1 <= m < a.Length() && j <= p && i < a.Length()
    decreases p - j
  {
    if j == p then acc
    else
      var sub := SubResult(a, p, m, j, inverse, ar);
      RowColFlat(i, m);
      PhaseFold(a, p, m, i, j + 1, ar.accumulate(acc, sub.At(Col(i, m)), i, j, a.Length(), inverse), inverse, ar)
  }

  /** The phases act on every output element separately: element i of the
      result is the fold of the phases over element i of the start. */
  lemma {:induction false} PhasesPointwise(a: Buffer, p: nat, m: nat, j: nat, out: Buffer, inverse: bool, ar: Arith)
    requires a.Length() < Uint32Modulus
    requires p * m == a.Length() && 1 <= m < a.Length() && j <= p
    requires out.Length() == a.Length()
    ensures forall i :: 0 <= i < a.Length() ==>
              Phases(a, p, m, j, out, inverse, ar).At(i) == PhaseFold(a, p, m, i, j, out.At(i), inverse, ar)
    decreases p - j
  {
    if j < p {
      var sub := SubResult(a, p, m, j, inverse, ar);
      PhasesPointwise(a, p, m, j + 1, Accumulate(out, sub, j, inverse, ar), inverse, ar);
    }
  }

  /** For n >= 2, output element i of the mixed-radix transform is the
      normalised sum, over the p phases, of each phase's twiddled
      sub-result entry i % m, accumulated from zero. */
  lemma RecursivePointwise(a: Buffer, inverse: bool, ar: Arith)
    requires 2 <= a.Length() < Uint32Modulus
    ensures var n := a.Length();
            var p := LowestOddFactor(n);
            && p * (n / p) == n && 1 <= n / p < n
            && forall i :: 0 <= i < n ==>
                 Recursive(a, inverse, ar).At(i)
                 == ar.normalise(PhaseFold(a, p, n / p, i, 0, Complex(0.0, 0.0), inverse, ar), p)
  {
    var n := a.Length();
    var p := LowestOddFactor(n);
    LowestOddFactorSplits(n);
    PhasesPointwise(a, p, n / p, 0, FromLength(n).buffer, inverse, ar);
  }

  /** `fft`: the radix-2 path when `n & (n - 1)` is zero, else the mixed-radix
      path; the result has the input's length. */
  function Fft(a: Buffer, inverse: bool, ar: Arith): (r: Buffer)
    requires a.Length() < Uint32Modulus
    ensures r.Length() == a.Length()
    decreases a.Length(), 2, 0
  {
    if TakesRadix2Path(a.Length()) then Iterative(a, inverse, ar)
    else Recursive(a, inverse, ar)
  }

  /** Lengths 0 and powers of two take the radix-2 path; every other length
      takes the mixed-radix path. */
  lemma FftRouting(a: Buffer, inverse: bool, ar: Arith)
    requires a.Length() < Uint32Modulus
    ensures IsRadix2Length(a.Length()) ==> Fft(a, inverse, ar) == Iterative(a, inverse, ar)
    ensures !IsRadix2Length(a.Length()) ==> a.Length() >= 3 && Fft(a, inverse, ar) == Recursive(a, inverse, ar)
  {
  }

  /** Transforms of length 0 and 1 leave the buffer as it is; so skipping
      the sub-transform when m == 1 does not change the mixed-radix result. */
  lemma FftShort(a: Buffer, inverse: bool, ar: Arith)
    requires a.Length() <= 1
    ensures Fft(a, inverse, ar) == a
  {
    assert PassWidths(a.Length(), 1) == [];
    if a.Length() == 1 {
      assert BitReverseIndex(0, 1) == 0;
      Extensionality(BitReversed(a), a);
    } else {
      Extensionality(BitReversed(a), a);
    }
  }

  /** `frequencyMap`: forward transform, the caller's filter applied to each
      bin by `map`, inverse transform; the length is preserved. */
  function FrequencyMap(a: Buffer, filterer: (Complex, nat, nat) -> Complex, ar: Arith): (r: Buffer)
    requires a.Length() < Uint32Modulus
    ensures r.Length() == a.Length()
  {
    Fft(Mapped(Fft(a, false, ar), filterer), true, ar)
  }
}
