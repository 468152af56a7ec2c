/**
 ComplexNumber: a pair of BigDecimals, the real and the imaginary part,
 with the schoolbook product.
 */
module ComplexNumbers {
  import opened Decimals

  datatype Complex = Complex(re: Decimal, im: Decimal)

  /** ComplexNumber(): one, as BigDecimal.ONE + BigDecimal.ZERO i. */
  const Unit := Complex(One, Zero)

  /** ComplexNumber(re): the real number re, with imaginary part BigDecimal.ZERO. */
  function FromReal(re: Decimal): (c: Complex)
    ensures c.re == re && c.im == Zero && Value(c.im) == 0.0
  {
    Complex(re, Zero)
  }

  /** Two complex numbers denote the same point of the plane. */
  ghost predicate SameValue(a: Complex, b: Complex) {
    Value(a.re) == Value(b.re) && Value(a.im) == Value(b.im)
  }

  /**
   multiply: (a + bi)(c + di) = (ac - bd) + (ad + bc)i, every product and
   sum exact, so each part carries the scale BigDecimal arithmetic gives it.
   */
  function Multiply(x: Complex, y: Complex): (r: Complex)
    ensures r.re.scale == Max(x.re.scale + y.re.scale, x.im.scale + y.im.scale)
    ensures r.im.scale == Max(x.re.scale + y.im.scale, x.im.scale + y.re.scale)
  {
    Complex(
      Subtract(Decimals.Multiply(x.re, y.re), Decimals.Multiply(x.im, y.im)),
      Add(Decimals.Multiply(x.re, y.im), Decimals.Multiply(x.im, y.re)))
  }

  /** The product has the value of the product of complex numbers. */
  lemma MultiplyValue(x: Complex, y: Complex)
    ensures Value(Multiply(x, y).re) == Value(x.re) * Value(y.re) - Value(x.im) * Value(y.im)
    ensures Value(Multiply(x, y).im) == Value(x.re) * Value(y.im) + Value(x.im) * Value(y.re)
  {
  }

  lemma MultiplyDecimalsCommute(a: Decimal, b: Decimal)
    ensures Decimals.Multiply(a, b) == Decimals.Multiply(b, a)
  {
  }

  /** The product is commutative exactly, scales included. */
  lemma MultiplyCommutes(x: Complex, y: Complex)
    ensures Multiply(x, y) == Multiply(y, x)
  {
    MultiplyDecimalsCommute(x.re, y.re);
    MultiplyDecimalsCommute(x.im, y.im);
    MultiplyDecimalsCommute(x.re, y.im);
    MultiplyDecimalsCommute(x.im, y.re);
    AddCommutes(Decimals.Multiply(y.re, x.im), Decimals.Multiply(y.im, x.re));
  }

  /** One is a unit for the product, in value (the scales may grow). */
  lemma UnitIsIdentity(x: Complex)
    ensures SameValue(Multiply(Unit, x), x)
    ensures SameValue(Multiply(x, Unit), x)
  {
    MultiplyValue(Unit, x);
    MultiplyValue(x, Unit);
  }

  /**
   The unit test's case (3 + 2i)(4 - i) = 14 + 5i. BigDecimal.valueOf(double)
   gives 3.0, 2.0, 4.0 and -1.0 scale 1, so both parts come out at scale 2.
   */
  lemma MultiplyExample(x: Complex, y: Complex)
    requires x == Complex(Decimal(30, 1), Decimal(20, 1))
    requires y == Complex(Decimal(40, 1), Decimal(-10, 1))
    ensures Multiply(x, y) == Complex(Decimal(1400, 2), Decimal(500, 2))
  {
  }
}
