# js-fft: a Dafny model of the FFT engine's index logic

This project models the core of `js-fft.js`. That core is a complex-valued
FFT engine with three parts:

- a `ComplexArray` buffer: parallel real and imaginary arrays, with
  element-wise traversal, an in-place `map`, `conjugate` and a pairwise view;
- an iterative radix-2 transform, used for lengths 0 and powers of two;
- a recursive mixed-radix transform, used for every other length.

The `fft` dispatcher chooses between the two transforms with the test
`n & (n - 1)`.

The model keeps the integer and index structure exact:

- the 32-bit AND of the dispatch test;
- the bit-reversal loop and the in-place permutation with its `flips` set;
- trial division for the lowest odd factor;
- the strided gather `i * p + j`;
- the wrap-around read `i % m`;
- the radix-2 butterfly pairs `2 * i * width + j` and `+ width`, for widths
  1, 2, 4, ... below n.

The floating-point arithmetic is abstract. An `Arith` value supplies three
functions, and the model passes each one everything the source expression
depends on:

- the butterfly of one pair;
- the twiddled accumulation of one phase into one output element;
- the final `1/sqrt(p)` scaling.

Buffers are values. In the source, `BitReverseComplexArray`, `map`, the
iterative transform and the recursive transform all mutate the caller's
object and return it. Here each operation returns the new contents, and the
caller's buffer is understood to hold exactly that value afterwards. The
model follows the code on aliasing: both transform paths act in place on the
caller's buffer. The iterative path is not a transform into a fresh buffer,
because `BitReverseComplexArray` permutes its argument and returns it, and the
passes then write into that same object.

Modules:

| module | file | contents |
|---|---|---|
| `Bits` | `bits.dfy` | powers of two, ToUint32, bitwise AND |
| `ComplexArrays` | `complex_array.dfy` | the buffer and its operations |
| `BitReverse` | `bit_reverse.dfy` | the index reversal and the permutation |
| `Factor` | `factor.dfy` | `LowestOddFactor` |
| `Schedule` | `schedule.dfy` | row-major indices and the radix-2 pair schedule |
| `Sweeps` | `sweep.dfy` | in-place butterflies over a schedule of disjoint pairs |
| `Transform` | `transform.dfy` | `fft`, both transforms, `frequencyMap` |

## Model

| member | source | states |
|---|---|---|
| ComplexArrays.FromLength | js-fft.js:36-43 | a length n >= 0 builds a buffer of length n whose elements are all zero; a negative length is a RangeError |
| ComplexArrays.FromValues | js-fft.js:36-43 | built from values, the buffer has their length, real parts equal to the values and zero imaginary parts |
| ComplexArrays.Copy | js-fft.js:31-35 | the copy constructor yields a buffer holding exactly the original's elements |
| ComplexArrays.ForEach | js-fft.js:58-70 | the traversal's final state is the visitor applied to element 0, index 0 first and element n-1, index n-1 last, each with length n, as an independent prefix-by-prefix reference defines it |
| ComplexArrays.ForEachVisitsAscending | js-fft.js:58-70 | `forEach` hands the visitor the indices i, i+1, ..., n-1, each once, in ascending order |
| ComplexArrays.ForEachCollects | js-fft.js:58-70 | the visitor receives the buffer's elements in index order |
| ComplexArrays.ToRealAndImag | js-fft.js:101-111 | the pairwise view has the buffer's length, and entry i is element i |
| ComplexArrays.PackToRealAndImag | js-fft.js:101-111 | the pairwise view loses nothing: rebuilding a buffer from it gives back the buffer |
| ComplexArrays.ToRealAndImagPack | js-fft.js:101-111 | viewing a buffer built from a pair list gives back that list |
| ComplexArrays.Map | js-fft.js:73-81 | after `map` the receiver keeps its length, and element i is the mapper applied to the old element i, with index i and length n; the loop invariant also states that step i changes only index i |
| ComplexArrays.Conjugate | js-fft.js:83-87 | the conjugate has the same length and real part, and each imaginary part is negated |
| ComplexArrays.ConjugateInvolution | js-fft.js:83-87 | conjugating twice gives back the original values |
| Bits.BitAndPredecessor | js-fft.js:133 | for n >= 1, `n & (n - 1)` is zero exactly when n is a power of two |
| Transform.TakesRadix2Path | js-fft.js:133 | for every length below 2^32, the 32-bit test `n & (n - 1)` is zero, selecting the radix-2 path, exactly for 0 and the powers of two |
| Transform.FftRouting | js-fft.js:130-138 | `fft` runs the iterative transform on lengths 0 and powers of two; every other length is at least 3 and runs the recursive transform |
| Transform.Fft | js-fft.js:130-138 | `fft` returns a buffer of the input's length |
| Transform.FftShort | js-fft.js:130-138 | lengths 0 and 1 come back unchanged |
| BitReverse.BitReverseLoop | js-fft.js:241-246 | the shift loop, started from acc over n = 2^k, returns acc shifted left by k plus the reversal of the index's low k bits, an independent bit-by-bit reference |
| BitReverse.BitReverseIndex | js-fft.js:238-248 | for n = 2^k the result is the reversal of the index's low k bits, and it is below n |
| BitReverse.RevBitsInvolution | js-fft.js:238-248 | reversing the low k bits twice restores an index below 2^k |
| BitReverse.BitReverseIndexInvolution | js-fft.js:238-248 | for n a power of two and i < n, the reversed index is below n and reversing it again gives i |
| BitReverse.BitReverseEight | js-fft.js:238-248 | for n = 8 the index map is [0, 4, 2, 6, 1, 5, 3, 7] |
| BitReverse.BitReverseComplexArray | js-fft.js:250-266 | the in-place swap loop with its `flips` set leaves every element k holding the old element reverse(k), in both parts, at the same length; no pair is swapped back |
| BitReverse.BitReversedInvolution | js-fft.js:250-266 | applying the permutation twice restores the buffer |
| BitReverse.BitReversedTwo | js-fft.js:250-266 | for n = 2 the permutation moves nothing |
| Factor.TrialDivision | js-fft.js:270-276 | the loop from an odd candidate returns either n, when no odd candidate up to sqrt(n) divides it, or the least odd divisor from the candidate up whose square is at most n |
| Factor.LowestOddFactor | js-fft.js:268-277 | the result divides n and is at most n; if it is below n it is odd, at least 3, its square is at most n, and no smaller odd d >= 3 divides n; it equals n exactly when no odd d >= 3 with d * d <= n divides n |
| Factor.LowestOddFactorExamples | js-fft.js:268-277 | 15 gives 3, 9 gives 3, 17 gives 17 and 6 gives 6 |
| Factor.LowestOddFactorOfTwicePrime | js-fft.js:268-277 | for n = 2q with q an odd prime, the factor is n itself, so the sub-sequences have length 1 |
| Factor.LowestOddFactorSplits | js-fft.js:151-166 | every length n >= 2 reaching the mixed-radix step splits as p > 1 and p * m = n with 1 <= m < n, so the recursion on length m terminates |
| Schedule.FlatIndexIsProduct | js-fft.js:158-162 | the row-major index of (i, j) is i * cols + j |
| Schedule.RowColIsDivMod | js-fft.js:173-175 | row and column of k are k / cols and k % cols |
| Schedule.FlatIndexBijection | js-fft.js:158-162 | (i, j) to i * cols + j maps [0, rows) x [0, cols) onto [0, rows * cols) one-to-one, with row and column as inverse |
| Schedule.RowColInverse | js-fft.js:173-175 | for k below rows * cols, k % cols is below cols, k / cols is below rows, and together they rebuild k |
| Transform.Gather | js-fft.js:159-162 | sub-sequence j has length m, and its entry i is the input entry at row-major index (i, j) with rows of p entries, which is i * p + j by Schedule.FlatIndexIsProduct |
| Transform.GatherCovers | js-fft.js:158-162 | the p gathered sub-sequences of length m hold every input entry: entry k is at position k / p of sub-sequence k % p |
| Schedule.ButterflyPartition | js-fft.js:209-214 | in a pass of `width`, every pair (2 i width + j, that + width) is in bounds, every index of [0, n) is an end of exactly one pair, and the (i, j) loop enumerates the pairs in order |
| Schedule.Radix2PassShape | js-fft.js:205-209 | for n and width powers of two with width < n, a pass has n / (2 * width) blocks of 2 * width entries |
| Schedule.PassWidths | js-fft.js:205-232 | every width the `while` loop visits is between the start width and n, and a power of two when the start is |
| Schedule.PassWidthsCount | js-fft.js:205-232 | for n a power of two there are exactly log2 n passes, and pass s has width 2^s |
| Transform.RadixSchedule | js-fft.js:209-214 | the pairs of a pass and the map from each index to its pair form a partition schedule of [0, n) |
| Sweeps.SweepPrefixPointwise | js-fft.js:209-230 | after the first k butterflies of a sweep over disjoint pairs, an entry holds its own butterfly's output if that butterfly has run, and its input value otherwise |
| Sweeps.SweepPointwise | js-fft.js:209-230 | the sequential in-place sweep computes every entry from the sweep's input: no butterfly reads a value written earlier in the same sweep |
| Transform.Pass | js-fft.js:209-231 | one `width` pass keeps the buffer's length |
| Transform.PassPairValues | js-fft.js:212-224 | after a pass, the two ends of butterfly t hold the two outputs of that butterfly on the pass's input, with twiddle step t % width |
| Transform.PassPointwise | js-fft.js:209-230 | one whole pass of the iterative loop equals the reference result in which every element is computed from the pass's input |
| Transform.ApplyPasses | js-fft.js:205-233 | the passes of the `while (width < n)` loop, applied in order, keep the buffer's length |
| Transform.IterativeTwo | js-fft.js:197-236 | for n = 2 the iterative transform is one butterfly of width 1 and step 0 on elements 0 and 1 |
| Transform.Iterative | js-fft.js:197-236 | the iterative transform returns a buffer of the input's length |
| Transform.Recursive | js-fft.js:140-195 | the recursive transform keeps the length, and length 1 returns the input unchanged |
| Transform.SubResult | js-fft.js:159-166 | phase j's sub-result has length m, and when m = 1 it is the single input entry j, untransformed |
| Transform.Accumulate | js-fft.js:173-184 | the recombination of phase j keeps the length, reads the sub-result at i % m, which is below m, and sets output element i to the accumulation of its old value with that entry, at position i and phase j |
| Transform.Phases | js-fft.js:158-185 | the phase loop keeps the output's length |
| Transform.PhasesPointwise | js-fft.js:158-185 | the phase loop acts on each output element separately: element i is the fold, over the remaining phases, of each phase's accumulation of its sub-result entry i % m |
| Transform.RecursivePointwise | js-fft.js:147-194 | for n >= 2, output element i is the normalised fold, over phases j = 0..p-1 starting from zero, of the twiddled entry i % m of the transformed sub-sequence j, with p the lowest odd factor |
| Transform.FrequencyMap | js-fft.js:126-128 | forward transform, filter, inverse transform returns a buffer of the input's length |

## Left out

- Floating-point arithmetic. This covers twiddle factors from `cos` and `sin`,
  the incremental twiddle rotation, `SQRT1_2` scaling, `1/sqrt(p)`
  normalisation and Float32 rounding. It is abstract: the `Arith` functions
  receive the twiddle position and return stored values. Properties such as
  "the inverse undoes the forward transform" or Parseval need real
  trigonometry and IEEE rounding.
- Transform.Iterative: its own contract states only the length. Element
  values are given pass by pass by PassPointwise and PassPairValues, in terms
  of the abstract butterfly, and not as a closed-form DFT.
- Transform.Recursive: its own contract states only the length and the
  length-1 case. Element values are given by RecursivePointwise in terms of
  the abstract accumulation and normalisation, and not as a closed-form DFT.
- Transform.Pass: its own contract states only the length. Element values
  after a pass are given by PassPointwise and PassPairValues.
- Transform.Phases: its own contract states only the length. Element values
  are given by PhasesPointwise.
- Transform.SubResult: its own contract states the length and the m = 1
  case only. Its entries are given by GatherCovers for the gather and by
  RecursivePointwise for how the phases use them.
- Transform.ApplyPasses: its own contract states only the length. Each pass's
  values are given by PassPointwise, and the widths used by PassWidthsCount.
- Transform.Fft: states the length and the routing, not DFT values, for the
  same reason.
- Transform.FrequencyMap: states only that the length is preserved. The
  filter is an arbitrary caller function, given here as a pure function of
  (element, index, length).
- `FFT()` and `InvFFT()` are `Fft` with `inverse` false and true; they have no
  separate members.
- `toMagnitudeAndPhase` and `toString`: float formatting, `sqrt` and `atan`
  only. Note that `Math.atan` takes one argument and JavaScript drops the
  second, so the phase is atan(imag) in degrees. It depends on the imaginary
  part alone: (10, 1) gives 45 degrees instead of about 5.7.
- The Node-RED adapter at the end of the file: message I/O and runtime
  registration.
- ComplexArrays.ForEach: the visitor's side effects are threaded through as
  an explicit state value. JavaScript's shared mutable `value` object is not
  modelled.
- ComplexArrays.Map: the mapper is a pure function of (element, index,
  length). A mapper that mutates other state, or the buffer, is not modelled.
- The typed-array element type is not modelled. Elements are reals, and
  Float32 storage rounding is left to the abstract arithmetic.
- Other constructor inputs are left out: a non-integer length and other
  iterables.
- Lengths below 2^32 are an assumption of the model, not a limit of the
  typed arrays. Below 2^32 a length read as a signed or an unsigned 32-bit
  integer has the same bits, so the dispatch test can be stated on ToUint32.
- The 32-bit shifts `<<=` and `>>=` are modelled on unbounded integers. They
  agree with the source for every power-of-two length up to 2^30. At
  n = 2^31 the model and the source part ways:
  - `n & (n - 1)` is 0, so the source takes the radix-2 path, as the model
    does;
  - `BitReverseIndex(i, 2^31)` returns `i & 1` in the source, because
    `n >>= 1` turns 2^31 into -2^30 and the loop stops after one round; the
    model reverses all 31 bits;
  - `width <<= 1` goes from 2^30 to -2^31 and then to 0; with width 0,
    `n / (2 * width)` is Infinity and the source's `i` loop never ends;
  - the model's Iterative terminates for that length, since Fft admits every
    length below 2^32.
- `Math.sqrt(n)` in `LowestOddFactor` is modelled by the integer test
  `factor * factor <= n`. This assumes the float square root is exact on
  perfect squares.
- Object identity and aliasing are not modelled. Every operation returns the
  new contents of the buffer it acts on.
- `FFT_Recursive` reuses one sub-buffer across phases and lets `fft` transform
  it in place. Here each phase gathers a fresh sub-sequence. The two agree
  because the gather overwrites all m entries.
