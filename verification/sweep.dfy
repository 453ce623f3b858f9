/** A pass of butterflies applied in place, one after another, over a
    schedule of disjoint index pairs. Nothing here depends on how the pairs
    are numbered: the radix-2 pass supplies the pairs and their owner map. */
module Sweeps {
  import opened ComplexArrays

  /** One butterfly: the two entries it reads and overwrites, and the twiddle
      step it uses. */
  datatype Pair = Pair(left: nat, right: nat, step: nat)

  /** The butterfly arithmetic: (left, right, step, width, inverse) to the
      new (left, right). */
  type ButterflyFn = (Complex, Complex, nat, nat, bool) -> (Complex, Complex)

  /** Every pair lies inside [0, n), with left < right. */
  predicate InBounds(pairs: seq<Pair>, n: nat)
  {
    forall t :: 0 <= t < |pairs| ==> pairs[t].left < pairs[t].right < n
  }

  /** The pairs lie in bounds and `owner` maps each index to the one pair
      that has it as an end: the pairs partition the indices. */
  predicate IsSchedule(pairs: seq<Pair>, owner: seq<nat>, n: nat)
  {
    |owner| == n
    && InBounds(pairs, n)
    && (forall t :: 0 <= t < |pairs| ==> owner[pairs[t].left] == t && owner[pairs[t].right] == t)
    && (forall x :: 0 <= x < n ==>
          owner[x] < |pairs| && (x == pairs[owner[x]].left || x == pairs[owner[x]].right))
  }

  /** One butterfly in place: read both ends, write both results back. */
  function Apply(b: Buffer, p: Pair, bf: ButterflyFn, width: nat, inverse: bool): (r: Buffer)
    requires p.left < p.right < b.Length()
    ensures r.Length() == b.Length()
  {
    var out := bf(b.At(p.left), b.At(p.right), p.step, width, inverse);
    b.Set(p.left, out.0).Set(p.right, out.1)
  }

  /** A butterfly writes its two ends and nothing else. */
  lemma ApplyAt(b: Buffer, p: Pair, bf: ButterflyFn, width: nat, inverse: bool, x: nat)
    requires p.left < p.right < b.Length() && x < b.Length()
    ensures var out := bf(b.At(p.left), b.At(p.right), p.step, width, inverse);
            Apply(b, p, bf, width, inverse).At(x)
            == if x == p.left then out.0 else if x == p.right then out.1 else b.At(x)
  {
  }

  /** The first k butterflies of the schedule, in order. */
  function SweepPrefix(b: Buffer, pairs: seq<Pair>, k: nat, bf: ButterflyFn, width: nat, inverse: bool): (r: Buffer)
    requires k <= |pairs| && InBounds(pairs, b.Length())
    ensures r.Length() == b.Length()
  {
    if k == 0 then b
    else Apply(SweepPrefix(b, pairs, k - 1, bf, width, inverse), pairs[k - 1], bf, width, inverse)
  }

  /** All butterflies of the schedule, in order. */
  function Sweep(b: Buffer, pairs: seq<Pair>, bf: ButterflyFn, width: nat, inverse: bool): (r: Buffer)
    requires InBounds(pairs, b.Length())
    ensures r.Length() == b.Length()
  {
    SweepPrefix(b, pairs, |pairs|, bf, width, inverse)
  }

  /** Reference value of entry x: its own butterfly applied to the sweep's
      input, the half that lands on x. */
  function SweepValue(b: Buffer, pairs: seq<Pair>, owner: seq<nat>, x: nat,
                      bf: ButterflyFn, width: nat, inverse: bool): Complex
    requires IsSchedule(pairs, owner, b.Length()) && x < b.Length()
  {
    var p := pairs[owner[x]];
    var out := bf(b.At(p.left), b.At(p.right), p.step, width, inverse);
    if x == p.left then out.0 else out.1
  }

  /** The reference value of x read off its owning pair. */
  lemma SweepValueAt(b: Buffer, pairs: seq<Pair>, owner: seq<nat>, x: nat,
                     bf: ButterflyFn, width: nat, inverse: bool, p: Pair)
    requires IsSchedule(pairs, owner, b.Length()) && x < b.Length()
    requires pairs[owner[x]] == p
    ensures p.left < p.right < b.Length() && (x == p.left || x == p.right)
    ensures var out := bf(b.At(p.left), b.At(p.right), p.step, width, inverse);
            SweepValue(b, pairs, owner, x, bf, width, inverse) == if x == p.left then out.0 else out.1
  {
  }

  /** Entry x after the first k butterflies: its reference value when its
      pair is among them, its input value otherwise. */
  predicate Settled(b: Buffer, pairs: seq<Pair>, owner: seq<nat>, k: nat, x: nat,
                    bf: ButterflyFn, width: nat, inverse: bool)
    requires IsSchedule(pairs, owner, b.Length()) && k <= |pairs| && x < b.Length()
  {
    SweepPrefix(b, pairs, k, bf, width, inverse).At(x)
    == if owner[x] < k then SweepValue(b, pairs, owner, x, bf, width, inverse) else b.At(x)
  }

  /** Butterfly k - 1 reads its two ends, which no earlier butterfly wrote,
      and writes only those. */
  lemma SettledStep(b: Buffer, pairs: seq<Pair>, owner: seq<nat>, k: nat, x: nat,
                    bf: ButterflyFn, width: nat, inverse: bool)
    requires IsSchedule(pairs, owner, b.Length()) && 0 < k <= |pairs| && x < b.Length()
    requires Settled(b, pairs, owner, k - 1, x, bf, width, inverse)
    requires Settled(b, pairs, owner, k - 1, pairs[k - 1].left, bf, width, inverse)
    requires Settled(b, pairs, owner, k - 1, pairs[k - 1].right, bf, width, inverse)
    ensures Settled(b, pairs, owner, k, x, bf, width, inverse)
  {
    var prev := SweepPrefix(b, pairs, k - 1, bf, width, inverse);
    var p := pairs[k - 1];
    ApplyAt(prev, p, bf, width, inverse, x);
    assert x == p.left || x == p.right ==> owner[x] == k - 1;
    assert owner[x] == k - 1 ==> pairs[owner[x]] == p;
  }

  /** After the first k butterflies every entry is settled: no butterfly
      reads an entry that an earlier one of the same sweep wrote. */
  lemma {:induction false} SweepPrefixPointwise(b: Buffer, pairs: seq<Pair>, owner: seq<nat>, k: nat,
                                                bf: ButterflyFn, width: nat, inverse: bool)
    requires IsSchedule(pairs, owner, b.Length()) && k <= |pairs|
    ensures forall x :: 0 <= x < b.Length() ==> Settled(b, pairs, owner, k, x, bf, width, inverse)
  {
    if k > 0 {
      SweepPrefixPointwise(b, pairs, owner, k - 1, bf, width, inverse);
      forall x | 0 <= x < b.Length() ensures Settled(b, pairs, owner, k, x, bf, width, inverse) {
        SettledStep(b, pairs, owner, k, x, bf, width, inverse);
      }
    }
  }

  /** A whole sweep computes every entry from the sweep's input. */
  lemma SweepPointwise(b: Buffer, pairs: seq<Pair>, owner: seq<nat>, bf: ButterflyFn, width: nat, inverse: bool)
    requires IsSchedule(pairs, owner, b.Length())
    ensures forall x :: 0 <= x < b.Length() ==>
              Sweep(b, pairs, bf, width, inverse).At(x) == SweepValue(b, pairs, owner, x, bf, width, inverse)
  {
    SweepPrefixPointwise(b, pairs, owner, |pairs|, bf, width, inverse);
    forall x | 0 <= x < b.Length()
      ensures Sweep(b, pairs, bf, width, inverse).At(x) == SweepValue(b, pairs, owner, x, bf, width, inverse)
    {
      assert Settled(b, pairs, owner, |pairs|, x, bf, width, inverse);
    }
  }
}
