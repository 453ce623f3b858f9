/** The ComplexArray buffer: two parallel arrays of real and imaginary parts
    of one common length, with element-wise traversal, the in-place mapper,
    conjugation and the pairwise view.

    Buffers are values: an operation that the program performs in place on
    the caller's object returns the new contents here, and the caller's
    buffer is understood to hold exactly that value afterwards. */
module ComplexArrays {

  /** One element, read from the two arrays at a common index. */
  datatype Complex = Complex(re: real, im: real)

  datatype ComplexArray = ComplexArray(realPart: seq<real>, imagPart: seq<real>)
  {
    /** The `length` attribute, fixed at construction from the real part. */
    function Length(): nat
    {
      |realPart|
    }

    function At(i: nat): Complex
      requires i < |realPart| && i < |imagPart|
    {
      Complex(realPart[i], imagPart[i])
    }

    /** Writes both parts of element i. */
    function Set(i: nat, c: Complex): (r: ComplexArray)
      requires i < |realPart| && i < |imagPart|
      ensures |r.realPart| == |realPart| && |r.imagPart| == |imagPart|
      ensures r.At(i) == c
      ensures forall k :: 0 <= k < |realPart| && k < |imagPart| && k != i ==> r.At(k) == At(k)
    {
      ComplexArray(realPart[i := c.re], imagPart[i := c.im])
    }
  }

  /** A ComplexArray whose two parts have the same length; every buffer the
      program builds has this shape. */
  type Buffer = a: ComplexArray | |a.realPart| == |a.imagPart| witness ComplexArray([], [])

  /** Outcome of constructing from a length: a negative length makes the
      typed-array constructor throw a RangeError. */
  datatype Construction = Built(buffer: Buffer) | RangeError

  function Zeros(n: nat): seq<real>
  {
    seq(n, _ => 0.0)
  }

  /** Builds a buffer from a sequence of elements, splitting the parts. */
  function Pack(cs: seq<Complex>): (r: Buffer)
    ensures r.Length() == |cs|
    ensures forall i :: 0 <= i < |cs| ==> r.At(i) == cs[i]
  {
    ComplexArray(seq(|cs|, i requires 0 <= i < |cs| => cs[i].re),
                 seq(|cs|, i requires 0 <= i < |cs| => cs[i].im))
  }

  /** Two buffers with the same length and the same elements are equal. */
  lemma Extensionality(a: Buffer, b: Buffer)
    requires a.Length() == b.Length()
    requires forall i :: 0 <= i < a.Length() ==> a.At(i) == b.At(i)
    ensures a == b
  {
    assert a.realPart == b.realPart by {
      forall i | 0 <= i < a.Length() ensures a.realPart[i] == b.realPart[i] {
        assert a.At(i) == b.At(i);
      }
    }
    assert a.imagPart == b.imagPart by {
      forall i | 0 <= i < a.Length() ensures a.imagPart[i] == b.imagPart[i] {
        assert a.At(i) == b.At(i);
      }
    }
  }

  /** Extensionality for two-element buffers. */
  lemma PairExtensionality(a: Buffer, b: Buffer)
    requires a.Length() == b.Length() == 2
    requires a.At(0) == b.At(0) && a.At(1) == b.At(1)
    ensures a == b
  {
    forall i | 0 <= i < 2 ensures a.At(i) == b.At(i) {
      assert i == 0 || i == 1;
    }
    Extensionality(a, b);
  }

  /** `new ComplexArray(n)`: both parts zero-filled to length n. */
  function FromLength(n: int): (r: Construction)
    ensures r.Built? <==> n >= 0
    ensures r.Built? ==> r.buffer.Length() == n
    ensures r.Built? ==> forall i :: 0 <= i < n ==> r.buffer.At(i) == Complex(0.0, 0.0)
  {
    if n < 0 then RangeError else Built(ComplexArray(Zeros(n), Zeros(n)))
  }

  /** `new ComplexArray(values)`: real part copied from the values, imaginary
      part zero-filled to the same length. */
  function FromValues(values: seq<real>): (r: Buffer)
    ensures r.Length() == |values|
    ensures forall i :: 0 <= i < |values| ==> r.At(i) == Complex(values[i], 0.0)
  {
    ComplexArray(values, Zeros(|values|))
  }

  /** The copy constructor: element-wise copies of both parts, so the copy
      holds the same elements and shares nothing with the original. */
  function Copy(other: Buffer): (r: Buffer)
    ensures r == other
  {
    var n := other.Length();
    var r := ComplexArray(seq(n, i requires 0 <= i < n => other.realPart[i]),
                          seq(n, i requires 0 <= i < n => other.imagPart[i]));
    Extensionality(r, other);
    r
  }

  /** `forEach`: visits indices 0, 1, ..., n-1 in ascending order, handing the
      visitor the element, its index and the length. The visitor's own
      effects are threaded through as a state value; the buffer is only read.
      The final state is the visitor applied to element 0 first and element
      n - 1 last. */
  function ForEach<S>(a: Buffer, visitor: (S, Complex, nat, nat) -> S, s: S): (r: S)
    ensures r == VisitPrefix(a, visitor, a.Length(), s)
  {
    ForEachFromPrefix(a, visitor, 0, s);
    ForEachFrom(a, visitor, 0, s)
  }

  /** Reference: the state after the visitor has seen elements 0..k-1, in
      order, defined from the last step back. */
  function VisitPrefix<S>(a: Buffer, visitor: (S, Complex, nat, nat) -> S, k: nat, s: S): S
    requires k <= a.Length()
  {
    if k == 0 then s else visitor(VisitPrefix(a, visitor, k - 1, s), a.At(k - 1), k - 1, a.Length())
  }

  /** Resuming the traversal at i from the state after i visits finishes
      with the state after all n visits. */
  lemma {:induction false} ForEachFromPrefix<S>(a: Buffer, visitor: (S, Complex, nat, nat) -> S, i: nat, s: S)
    requires i <= a.Length()
    ensures ForEachFrom(a, visitor, i, VisitPrefix(a, visitor, i, s)) == VisitPrefix(a, visitor, a.Length(), s)
    decreases a.Length() - i
  {
    if i < a.Length() {
      ForEachFromPrefix(a, visitor, i + 1, s);
    }
  }

  function ForEachFrom<S>(a: Buffer, visitor: (S, Complex, nat, nat) -> S, i: nat, s: S): S
    requires i <= a.Length()
    decreases a.Length() - i
  {
    if i == a.Length() then s
    else ForEachFrom(a, visitor, i + 1, visitor(s, a.At(i), i, a.Length()))
  }

  /** A visitor that records the index it is given. */
  function RecordIndex(trace: seq<nat>, v: Complex, i: nat, n: nat): seq<nat>
  {
    trace + [i]
  }

  /** A visitor that records the element it is given. */
  function RecordElement(acc: seq<Complex>, v: Complex, i: nat, n: nat): seq<Complex>
  {
    acc + [v]
  }

  /** The traversal visits every index exactly once, in ascending order. */
  lemma {:induction false} ForEachVisitsAscending(a: Buffer, i: nat, trace: seq<nat>)
    requires i <= a.Length()
    ensures ForEachFrom(a, RecordIndex, i, trace)
         == trace + seq(a.Length() - i, k requires 0 <= k < a.Length() - i => i + k)
    decreases a.Length() - i
  {
    if i < a.Length() {
      ForEachVisitsAscending(a, i + 1, trace + [i]);
    }
  }

  lemma {:induction false} ForEachCollects(a: Buffer, i: nat, acc: seq<Complex>)
    requires i <= a.Length()
    ensures ForEachFrom(a, RecordElement, i, acc)
         == acc + seq(a.Length() - i, k requires 0 <= k < a.Length() - i => a.At(i + k))
    decreases a.Length() - i
  {
    if i < a.Length() {
      ForEachCollects(a, i + 1, acc + [a.At(i)]);
    }
  }

  /** `toRealAndImag`: the list of {real, imag} pairs, built by pushing each
      visited element. */
  function ToRealAndImag(a: Buffer): (r: seq<Complex>)
    ensures |r| == a.Length()
    ensures forall i :: 0 <= i < a.Length() ==> r[i] == a.At(i)
  {
    ForEachCollects(a, 0, []);
    ForEach(a, RecordElement, [])
  }

  /** The pairwise view and Pack are mutually inverse. */
  lemma PackToRealAndImag(a: Buffer)
    ensures Pack(ToRealAndImag(a)) == a
  {
    Extensionality(Pack(ToRealAndImag(a)), a);
  }

  lemma ToRealAndImagPack(cs: seq<Complex>)
    ensures ToRealAndImag(Pack(cs)) == cs
  {
  }

  /** The buffer `map` leaves behind: each element replaced by what the
      mapper made of it, given its index and the length. */
  function Mapped(a: Buffer, mapper: (Complex, nat, nat) -> Complex): Buffer
  {
    var n := a.Length();
    Pack(seq(n, i requires 0 <= i < n => mapper(a.At(i), i, n)))
  }

  /** `map`: the ascending traversal writing each mapped element back at its
      own index. Step i changes index i and nothing else; the result is the
      receiver itself, holding the mapped contents. */
  method Map(a: Buffer, mapper: (Complex, nat, nat) -> Complex) returns (b: Buffer)
    ensures b.Length() == a.Length()
    ensures forall i :: 0 <= i < a.Length() ==> b.At(i) == mapper(a.At(i), i, a.Length())
    ensures b == Mapped(a, mapper)
  {
    var n := a.Length();
    b := a;
    for i := 0 to n
      invariant b.Length() == n
      invariant forall k :: 0 <= k < i ==> b.At(k) == mapper(a.At(k), k, n)
      invariant forall k :: i <= k < n ==> b.At(k) == a.At(k)
    {
      var v := mapper(b.At(i), i, n);
      b := b.Set(i, v);
    }
    Extensionality(b, Mapped(a, mapper));
  }

  function NegateImag(v: Complex, i: nat, n: nat): Complex
  {
    Complex(v.re, -v.im)
  }

  /** `conjugate`: a fresh copy mapped by imaginary negation; the receiver is
      a value and so is untouched. */
  function Conjugate(a: Buffer): (r: Buffer)
    ensures r.Length() == a.Length()
    ensures r.realPart == a.realPart
    ensures forall i :: 0 <= i < a.Length() ==> r.imagPart[i] == -a.imagPart[i]
  {
    var r := Mapped(Copy(a), NegateImag);
    forall i | 0 <= i < a.Length()
      ensures r.realPart[i] == a.realPart[i] && r.imagPart[i] == -a.imagPart[i]
    {
      assert r.At(i) == NegateImag(a.At(i), i, a.Length());
    }
    r
  }

  /** Conjugating twice gives back the original values. */
  lemma ConjugateInvolution(a: Buffer)
    ensures Conjugate(Conjugate(a)) == a
  {
    var c := Conjugate(Conjugate(a));
    assert c.imagPart == a.imagPart;
  }
}
