/** The index schedules of the two transforms, as pure integer functions:
    the strided gather and wrap-around read of the mixed-radix step, and the
    butterfly pairs and pass widths of the radix-2 transform. */
module Schedule {
  import opened Bits

  /** Entry (i, j) of a table stored row after row, rows of `cols` entries:
      i * cols + j, counted out one row at a time. The mixed-radix gather
      reads input[FlatIndex(i, j, p)] = input[i * p + j] for sub-sequence j;
      the radix-2 inner loops visit (i, j) in the order of
      FlatIndex(i, j, width). */
  function FlatIndex(i: nat, j: nat, cols: nat): nat
  {
    if i == 0 then j else cols + FlatIndex(i - 1, j, cols)
  }

  /** The row of entry k: k / cols, by repeated subtraction. */
  function Row(k: nat, cols: nat): nat
    requires cols > 0
    decreases k
  {
    if k < cols then 0 else Row(k - cols, cols) + 1
  }

  /** The column of entry k: k % cols, by repeated subtraction. */
  function Col(k: nat, cols: nat): nat
    requires cols > 0
    decreases k
  {
    if k < cols then k else Col(k - cols, cols)
  }

  lemma {:induction false} FlatIndexIsProduct(i: nat, j: nat, cols: nat)
    ensures FlatIndex(i, j, cols) == i * cols + j
  {
    if i > 0 {
      FlatIndexIsProduct(i - 1, j, cols);
      assert (i - 1) * cols + cols == i * cols;
    }
  }

  lemma {:induction false} RowColIsDivMod(k: nat, cols: nat)
    requires cols > 0
    ensures Row(k, cols) == k / cols && Col(k, cols) == k % cols
  {
    if k < cols {
      DivModUnique(k, cols, 0, k);
    } else {
      RowColIsDivMod(k - cols, cols);
      var q, r := (k - cols) / cols, (k - cols) % cols;
      assert k - cols == q * cols + r;
      assert k == (q + 1) * cols + r;
      DivModUnique(k, cols, q + 1, r);
    }
  }

  /** Reading back the row and column of entry (i, j). */
  lemma {:induction false} FlatRowCol(i: nat, j: nat, cols: nat)
    requires j < cols
    ensures Row(FlatIndex(i, j, cols), cols) == i && Col(FlatIndex(i, j, cols), cols) == j
  {
    if i > 0 {
      FlatRowCol(i - 1, j, cols);
    }
  }

  /** Every entry is found again at its own row and column. */
  lemma {:induction false} RowColFlat(k: nat, cols: nat)
    requires cols > 0
    ensures Col(k, cols) < cols && FlatIndex(Row(k, cols), Col(k, cols), cols) == k
    decreases k
  {
    if k >= cols {
      RowColFlat(k - cols, cols);
    }
  }

  /** Every column is below the row width. */
  lemma ColBelow(cols: nat)
    requires cols > 0
    ensures forall k :: Col(k, cols) < cols
  {
    forall k ensures Col(k, cols) < cols {
      RowColFlat(k, cols);
    }
  }

  /** A table of `rows` rows ends at FlatIndex(rows, 0, cols). */
  lemma {:induction false} FlatBound(i: nat, j: nat, rows: nat, cols: nat)
    requires i < rows && j < cols
    ensures FlatIndex(i, j, cols) < FlatIndex(rows, 0, cols)
  {
    if i > 0 {
      FlatBound(i - 1, j, rows - 1, cols);
    }
  }

  lemma {:induction false} RowBound(k: nat, rows: nat, cols: nat)
    requires cols > 0 && k < FlatIndex(rows, 0, cols)
    ensures Row(k, cols) < rows
    decreases k
  {
    if k >= cols {
      RowBound(k - cols, rows - 1, cols);
    }
  }

  /** Rows of 2 * w entries are pairs of rows of w entries. */
  lemma {:induction false} FlatDouble(i: nat, j: nat, w: nat)
    ensures FlatIndex(2 * i, j, w) == FlatIndex(i, j, 2 * w)
    ensures FlatIndex(2 * i + 1, j, w) == FlatIndex(i, j + w, 2 * w)
  {
    if i > 0 {
      FlatDouble(i - 1, j, w);
      assert FlatIndex(2 * i, j, w) == w + FlatIndex(2 * i - 1, j, w);
    }
  }

  lemma {:induction false} FlatDoubleCols(rows: nat, w: nat)
    ensures FlatIndex(rows, 0, 2 * w) == 2 * FlatIndex(rows, 0, w)
  {
    if rows > 0 {
      FlatDoubleCols(rows - 1, w);
    }
  }

  lemma FlatIndexInverse(i: nat, j: nat, rows: nat, cols: nat)
    requires i < rows && j < cols
    ensures FlatIndex(i, j, cols) < rows * cols
    ensures Row(FlatIndex(i, j, cols), cols) == i && Col(FlatIndex(i, j, cols), cols) == j
  {
    FlatRowCol(i, j, cols);
    FlatBound(i, j, rows, cols);
    FlatIndexIsProduct(rows, 0, cols);
  }

  lemma RowColInverse(k: nat, rows: nat, cols: nat)
    requires cols > 0 && k < rows * cols
    ensures Row(k, cols) < rows && Col(k, cols) < cols
    ensures FlatIndex(Row(k, cols), Col(k, cols), cols) == k
  {
    RowColFlat(k, cols);
    FlatIndexIsProduct(rows, 0, cols);
    RowBound(k, rows, cols);
  }

  /** (i, j) <-> i * cols + j is a bijection between [0, rows) x [0, cols)
      and [0, rows * cols): the p strided sub-sequences of length m read
      every input index exactly once, and the wrap-around read k % m of the
      recombination reads every sub-result entry exactly p times. */
  lemma FlatIndexBijection(rows: nat, cols: nat)
    requires cols > 0
    ensures forall i, j :: 0 <= i < rows && 0 <= j < cols ==>
              FlatIndex(i, j, cols) < rows * cols
              && Row(FlatIndex(i, j, cols), cols) == i && Col(FlatIndex(i, j, cols), cols) == j
    ensures forall k :: 0 <= k < rows * cols ==>
              Row(k, cols) < rows && Col(k, cols) < cols
              && FlatIndex(Row(k, cols), Col(k, cols), cols) == k
  {
    forall i, j | 0 <= i < rows && 0 <= j < cols
      ensures FlatIndex(i, j, cols) < rows * cols
      ensures Row(FlatIndex(i, j, cols), cols) == i && Col(FlatIndex(i, j, cols), cols) == j
    {
      FlatIndexInverse(i, j, rows, cols);
    }
    forall k | 0 <= k < rows * cols
      ensures Row(k, cols) < rows && Col(k, cols) < cols
      ensures FlatIndex(Row(k, cols), Col(k, cols), cols) == k
    {
      RowColInverse(k, rows, cols);
    }
  }

  /** Left index of butterfly t = FlatIndex(i, j, width) of a radix-2 pass:
      2 * i * width + j; its right index is that plus width. */
  function ButterflyLeft(t: nat, width: nat): nat
    requires width > 0
  {
    FlatIndex(2 * Row(t, width), Col(t, width), width)
  }

  /** The butterfly of a pass that touches index x: block x / (2 * width),
      offset x % width. */
  function ButterflyOf(x: nat, width: nat): nat
    requires width > 0
  {
    FlatIndex(Row(x, 2 * width), Col(x, width), width)
  }

  /** A radix-2 pass over n = blocks * 2 * width entries. */
  predicate PassShape(n: nat, width: nat, blocks: nat)
  {
    width > 0 && blocks > 0 && n == FlatIndex(blocks, 0, 2 * width)
  }

  lemma PassShapeHalf(n: nat, width: nat, blocks: nat)
    requires PassShape(n, width, blocks)
    ensures n / 2 == FlatIndex(blocks, 0, width)
  {
    FlatDoubleCols(blocks, width);
  }

  /** Both ends of the butterfly at 2 * i * width + j lead back to pair
      FlatIndex(i, j, width). */
  lemma ButterflyEnds(i: nat, j: nat, width: nat)
    requires j < width
    ensures FlatIndex(2 * i + 1, j, width) == FlatIndex(2 * i, j, width) + width
    ensures ButterflyOf(FlatIndex(2 * i, j, width), width) == FlatIndex(i, j, width)
    ensures ButterflyOf(FlatIndex(2 * i + 1, j, width), width) == FlatIndex(i, j, width)
  {
    FlatDouble(i, j, width);
    FlatRowCol(i, j, 2 * width);
    FlatRowCol(i, j + width, 2 * width);
    FlatRowCol(2 * i, j, width);
    FlatRowCol(2 * i + 1, j, width);
  }

  lemma ButterflyOfLeft(t: nat, width: nat, blocks: nat)
    requires width > 0 && t < FlatIndex(blocks, 0, width)
    ensures ButterflyLeft(t, width) + width < FlatIndex(blocks, 0, 2 * width)
    ensures ButterflyOf(ButterflyLeft(t, width), width) == t
    ensures ButterflyOf(ButterflyLeft(t, width) + width, width) == t
  {
    RowColFlat(t, width);
    RowBound(t, blocks, width);
    var i, j := Row(t, width), Col(t, width);
    ButterflyEnds(i, j, width);
    FlatDouble(i, j, width);
    FlatBound(i, j + width, blocks, 2 * width);
  }

  lemma ButterflyOfIndex(x: nat, width: nat, blocks: nat)
    requires width > 0 && x < FlatIndex(blocks, 0, 2 * width)
    ensures ButterflyOf(x, width) < FlatIndex(blocks, 0, width)
    ensures x == ButterflyLeft(ButterflyOf(x, width), width)
         || x == ButterflyLeft(ButterflyOf(x, width), width) + width
  {
    RowColFlat(x, 2 * width);
    RowBound(x, blocks, 2 * width);
    var i, r := Row(x, 2 * width), Col(x, 2 * width);
    var j := if r < width then r else r - width;
    FlatDouble(i, j, width);
    ButterflyEnds(i, j, width);
    FlatRowCol(i, j, width);
    FlatBound(i, j, blocks, width);
  }

  /** The butterflies of one pass partition [0, n): every pair is in bounds,
      every index belongs to exactly one pair, as its left or its right
      element, and the loop's (i, j) enumerate the pairs in order, pair
      FlatIndex(i, j, width) joining 2 * i * width + j and that plus width. */
  lemma ButterflyPartition(n: nat, width: nat, blocks: nat)
    requires PassShape(n, width, blocks)
    ensures n / 2 == blocks * width
    ensures forall t :: 0 <= t < n / 2 ==>
              ButterflyLeft(t, width) + width < n
              && ButterflyOf(ButterflyLeft(t, width), width) == t
              && ButterflyOf(ButterflyLeft(t, width) + width, width) == t
    ensures forall x :: 0 <= x < n ==>
              ButterflyOf(x, width) < n / 2
              && (x == ButterflyLeft(ButterflyOf(x, width), width)
                  || x == ButterflyLeft(ButterflyOf(x, width), width) + width)
    ensures forall i, j :: 0 <= i < blocks && 0 <= j < width ==>
              FlatIndex(i, j, width) < n / 2
              && ButterflyLeft(FlatIndex(i, j, width), width) == FlatIndex(2 * i, j, width)
  {
    PassShapeHalf(n, width, blocks);
    FlatIndexIsProduct(blocks, 0, width);
    forall t | 0 <= t < n / 2
      ensures ButterflyLeft(t, width) + width < n
      ensures ButterflyOf(ButterflyLeft(t, width), width) == t
      ensures ButterflyOf(ButterflyLeft(t, width) + width, width) == t
    {
      ButterflyOfLeft(t, width, blocks);
    }
    forall x | 0 <= x < n
      ensures ButterflyOf(x, width) < n / 2
      ensures x == ButterflyLeft(ButterflyOf(x, width), width)
           || x == ButterflyLeft(ButterflyOf(x, width), width) + width
    {
      ButterflyOfIndex(x, width, blocks);
    }
    forall i, j | 0 <= i < blocks && 0 <= j < width
      ensures FlatIndex(i, j, width) < n / 2
      ensures ButterflyLeft(FlatIndex(i, j, width), width) == FlatIndex(2 * i, j, width)
    {
      FlatRowCol(i, j, width);
      FlatBound(i, j, blocks, width);
    }
  }

  /** 2^d rows of 2^e entries make 2^(d + e) entries. */
  lemma {:induction false} FlatPow2(d: nat, e: nat)
    ensures FlatIndex(Pow2(d), 0, Pow2(e)) == Pow2(d + e)
  {
    if d > 0 {
      FlatPow2(d - 1, e);
      var m := Pow2(d - 1);
      FlatDouble(m, 0, Pow2(e));
      FlatDoubleCols(m, Pow2(e));
    }
  }

  /** For n and width powers of two with width < n, the pass has
      n / (2 * width) blocks. */
  lemma Radix2PassShape(n: nat, width: nat)
    requires IsPow2(n) && IsPow2(width) && width < n
    ensures PassShape(n, width, Row(n, 2 * width))
  {
    var k, s := Log2(n), Log2(width);
    Pow2Strict(k, s);
    assert s < k;
    var blocks := Pow2(k - s - 1);
    FlatPow2(k - s - 1, s + 1);
    assert n == FlatIndex(blocks, 0, 2 * width);
    FlatRowCol(blocks, 0, 2 * width);
  }

  /** The widths of the radix-2 passes: width, 2 * width, ... while below n. */
  function PassWidths(n: nat, width: nat): (ws: seq<nat>)
    requires width >= 1
    ensures forall w :: w in ws ==> width <= w < n
    ensures IsPow2(width) ==> forall w :: w in ws ==> IsPow2(w)
    decreases n - width
  {
    if width < n then [width] + PassWidths(n, 2 * width) else []
  }

  /** For n = 2^k the passes use widths 2^0, ..., 2^(k-1): exactly log2 n
      passes. */
  lemma {:induction false} PassWidthsFrom(k: nat, s: nat)
    requires s <= k
    ensures PassWidths(Pow2(k), Pow2(s)) == seq(k - s, t requires 0 <= t < k - s => Pow2(s + t))
    decreases k - s
  {
    if s < k {
      Pow2Strict(s, k);
      PassWidthsFrom(k, s + 1);
      assert Pow2(s + 1) == 2 * Pow2(s);
    } else {
      assert PassWidths(Pow2(k), Pow2(s)) == [];
    }
  }

  lemma PassWidthsCount(n: nat)
    requires IsPow2(n)
    ensures |PassWidths(n, 1)| == Log2(n)
    ensures forall s :: 0 <= s < Log2(n) ==> PassWidths(n, 1)[s] == Pow2(s)
  {
    PassWidthsFrom(Log2(n), 0);
  }
}
