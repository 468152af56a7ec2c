/**
 ComplexPolynomial: an array of complex coefficients, the form a polynomial
 takes on its way into a Fourier transform. A slot the code has not yet
 written holds Java's null, written `None` here.
 */
module ComplexPolynomials {
  import opened Results
  import opened Decimals
  import opened ComplexNumbers
  import opened Polynomials
  import opened Utils

  datatype ComplexPolynomial = ComplexPolynomial(coefficients: seq<Option<Complex>>)

  /** BigDecimal.ZERO + BigDecimal.ZERO i, the padding of growToNearestPowerOfTwo. */
  const ComplexZero := Complex(Zero, Zero)

  /** ComplexPolynomial(length): `length` unwritten slots; a negative length is rejected. */
  function New(n: int): (r: Result<ComplexPolynomial>)
    ensures r.Err? <==> n < 0
    ensures r.Err? ==> r.error == NegativeArraySize
    ensures r.Ok? ==> |r.value.coefficients| == n
    ensures r.Ok? ==> forall i :: 0 <= i < n ==> r.value.coefficients[i].None?
  {
    if n < 0 then Err(NegativeArraySize) else Ok(ComplexPolynomial(seq(n, _ => None)))
  }

  /** Every slot holds a complex number. */
  predicate Complete(c: ComplexPolynomial) {
    forall i :: 0 <= i < |c.coefficients| ==> c.coefficients[i].Some?
  }

  /**
   ComplexPolynomial(polynomial): the first length() coefficients, each as a
   complex number with imaginary part zero.
   */
  function Lift(p: Polynomial): (c: ComplexPolynomial)
    ensures |c.coefficients| == Length(p) && Complete(c)
    ensures forall i :: 0 <= i < Length(p) ==>
      c.coefficients[i].value.re == p.coefficients[i] && c.coefficients[i].value.im == Zero
  {
    var n := Length(p);
    ComplexPolynomial(seq(n, i requires 0 <= i < n => Some(FromReal(GetCoefficient(p, i).value))))
  }

  /** The real parts of a complete complex polynomial. */
  function RealParts(c: ComplexPolynomial): (rs: seq<Decimal>)
    requires Complete(c)
    ensures |rs| == |c.coefficients|
    ensures forall i :: 0 <= i < |rs| ==> rs[i] == c.coefficients[i].value.re
  {
    seq(|c.coefficients|, i requires 0 <= i < |c.coefficients| => c.coefficients[i].value.re)
  }

  /** Lifting loses nothing: the real parts are the polynomial again. */
  lemma LiftRealParts(p: Polynomial)
    ensures Make(RealParts(Lift(p))) == Polynomial(Significant(p))
    ensures Equals(Make(RealParts(Lift(p))), p)
  {
    var rs := RealParts(Lift(p));
    assert rs == Significant(p);
    DegreeOfPrefix(p);
  }

  /**
   growToNearestPowerOfTwo: the same polynomial when its length is already a
   power of two; otherwise a copy padded with zeros up to the least power of
   two above its length.
   */
  function Grow(c: ComplexPolynomial): (r: ComplexPolynomial)
    requires |c.coefficients| <= MaxPowerOfTwo
    ensures IsPowerOfTwo(|r.coefficients|) && |r.coefficients| >= |c.coefficients|
    ensures forall p :: IsPowerOfTwo(p) && p >= |c.coefficients| ==> p >= |r.coefficients|
    ensures r.coefficients[..|c.coefficients|] == c.coefficients
    ensures forall i :: |c.coefficients| <= i < |r.coefficients| ==> r.coefficients[i] == Some(ComplexZero)
    ensures IsPowerOfTwo(|c.coefficients|) ==> r == c
  {
    var n := ClosestUpwardPowerOfTwo(|c.coefficients|);
    if n == |c.coefficients| then c
    else ComplexPolynomial(c.coefficients + seq(n - |c.coefficients|, _ => Some(ComplexZero)))
  }

  /** Growing twice is growing once. */
  lemma GrowIdempotent(c: ComplexPolynomial)
    requires |c.coefficients| <= MaxPowerOfTwo
    ensures Grow(Grow(c)) == Grow(c)
  {
  }

  /** set(index, coefficient): one slot replaced; an index outside the array is rejected. */
  function Set(c: ComplexPolynomial, i: int, v: Complex): (r: Result<ComplexPolynomial>)
    ensures r.Ok? <==> 0 <= i < |c.coefficients|
    ensures r.Err? ==> r.error == IndexOutOfBounds
    ensures r.Ok? ==> |r.value.coefficients| == |c.coefficients| && r.value.coefficients[i] == Some(v)
    ensures r.Ok? ==> forall j :: 0 <= j < |c.coefficients| && j != i ==>
      r.value.coefficients[j] == c.coefficients[j]
  {
    if 0 <= i < |c.coefficients| then Ok(ComplexPolynomial(c.coefficients[i := Some(v)]))
    else Err(IndexOutOfBounds)
  }

  /** A second set at the same index overwrites the first. */
  lemma SetOverwrites(c: ComplexPolynomial, i: int, v: Complex, w: Complex)
    requires 0 <= i < |c.coefficients|
    ensures Set(Set(c, i, v).value, i, w) == Set(c, i, w)
  {
    assert c.coefficients[i := Some(v)][i := Some(w)] == c.coefficients[i := Some(w)];
  }

  // ---------------------------------------------------------------------------
  // Splitting into even and odd coefficients

  /**
   split, as a specification: the even-indexed coefficients and the
   odd-indexed ones, each half as many. With an odd length the last even
   coefficient has no slot in the first half and the write fails.
   */
  function Split(c: ComplexPolynomial): (r: Result<(ComplexPolynomial, ComplexPolynomial)>)
    ensures r.Err? <==> |c.coefficients| % 2 == 1
    ensures r.Err? ==> r.error == IndexOutOfBounds
    ensures r.Ok? ==>
      |r.value.0.coefficients| == |c.coefficients| / 2 == |r.value.1.coefficients| &&
      forall j :: 0 <= j < |c.coefficients| / 2 ==>
        r.value.0.coefficients[j] == c.coefficients[2 * j] &&
        r.value.1.coefficients[j] == c.coefficients[2 * j + 1]
  {
    var cs := c.coefficients;
    var h := |cs| / 2;
    if |cs| % 2 == 1 then Err(IndexOutOfBounds)
    else
      Ok((ComplexPolynomial(seq(h, j requires 0 <= j < h => cs[2 * j])),
          ComplexPolynomial(seq(h, j requires 0 <= j < h => cs[2 * j + 1]))))
  }

  /**
   split as the code does it: two arrays of length / 2 slots, filled by
   walking the coefficients and alternating between the two.
   */
  method SplitByWalking(c: ComplexPolynomial) returns (r: Result<(ComplexPolynomial, ComplexPolynomial)>)
    ensures r == Split(c)
  {
    var cs := c.coefficients;
    var h := |cs| / 2;
    var first: seq<Option<Complex>> := seq(h, _ => None);
    var second: seq<Option<Complex>> := seq(h, _ => None);
    var readToFirst := true;
    var index1, index2 := 0, 0;
    var i := 0;
    while i < |cs|
      invariant 0 <= i <= |cs|
      invariant readToFirst <==> i % 2 == 0
      invariant index1 == (i + 1) / 2 && index2 == i / 2
      invariant |first| == h && |second| == h
      invariant forall j :: 0 <= j < index1 && j < h ==> first[j] == cs[2 * j]
      invariant forall j :: 0 <= j < index2 ==> second[j] == cs[2 * j + 1]
      invariant index1 <= h && index2 <= h
    {
      if readToFirst {
        if index1 >= h {
          return Err(IndexOutOfBounds);
        }
        readToFirst := false;
        first := first[index1 := cs[i]];
        index1 := index1 + 1;
      } else {
        readToFirst := true;
        second := second[index2 := cs[i]];
        index2 := index2 + 1;
      }
      i := i + 1;
    }
    assert first == Split(c).value.0.coefficients;
    assert second == Split(c).value.1.coefficients;
    r := Ok((ComplexPolynomial(first), ComplexPolynomial(second)));
  }

  /** The inverse of split: the two halves' coefficients taken alternately. */
  function Interleave(e: seq<Option<Complex>>, o: seq<Option<Complex>>): (r: seq<Option<Complex>>)
    requires |e| == |o|
    ensures |r| == 2 * |e|
  {
    seq(2 * |e|, i requires 0 <= i < 2 * |e| => if i % 2 == 0 then e[i / 2] else o[i / 2])
  }

  /** Interleaving the halves of a split gives back the polynomial. */
  lemma InterleaveSplit(c: ComplexPolynomial)
    requires |c.coefficients| % 2 == 0
    ensures var halves := Split(c).value;
      Interleave(halves.0.coefficients, halves.1.coefficients) == c.coefficients
  {
    var halves := Split(c).value;
    var w := Interleave(halves.0.coefficients, halves.1.coefficients);
    forall i | 0 <= i < |w|
      ensures w[i] == c.coefficients[i]
    {
      if i % 2 == 0 {
        assert 2 * (i / 2) == i;
      } else {
        assert 2 * (i / 2) + 1 == i;
      }
    }
  }

  /** Splitting an interleaving gives back its two halves. */
  lemma SplitInterleave(e: seq<Option<Complex>>, o: seq<Option<Complex>>)
    requires |e| == |o|
    ensures Split(ComplexPolynomial(Interleave(e, o))) == Ok((ComplexPolynomial(e), ComplexPolynomial(o)))
  {
    var c := ComplexPolynomial(Interleave(e, o));
    var halves := Split(c).value;
    forall j | 0 <= j < |e|
      ensures halves.0.coefficients[j] == e[j] && halves.1.coefficients[j] == o[j]
    {
      assert (2 * j) % 2 == 0 && (2 * j) / 2 == j;
      assert (2 * j + 1) % 2 == 1 && (2 * j + 1) / 2 == j;
    }
    assert halves.0.coefficients == e;
    assert halves.1.coefficients == o;
  }
}
