/**
 A model of java.math.BigDecimal as far as the polynomial library uses it: an
 arbitrary-precision unscaled integer together with a scale, so that the
 number denotes unscaled × 10^-scale. Equality of two decimals (Java's
 BigDecimal.equals) compares both the unscaled value and the scale, which
 is exactly the structural equality of the datatype; numerical comparison
 (Java's compareTo) goes through the exact rational `Value`.
 */
module Decimals {
  import opened Results

  datatype Decimal = Decimal(unscaled: int, scale: nat)

  /** BigDecimal.ZERO and BigDecimal.ONE: both have scale 0. */
  const Zero := Decimal(0, 0)
  const One := Decimal(1, 0)

  function Max(a: nat, b: nat): nat {
    if a < b then b else a
  }

  function Pow10(n: nat): (r: nat)
    ensures r >= 1
  {
    if n == 0 then 1 else 10 * Pow10(n - 1)
  }

  lemma {:induction false} Pow10Add(a: nat, b: nat)
    ensures Pow10(a + b) == Pow10(a) * Pow10(b)
  {
    if a > 0 {
      Pow10Add(a - 1, b);
      assert Pow10(a + b) == 10 * Pow10(a - 1 + b);
    }
  }

  /** The exact number a decimal denotes. */
  ghost function Value(d: Decimal): real {
    d.unscaled as real / Pow10(d.scale) as real
  }

  /** The unscaled value of `d` once re-expressed at the larger scale `s`. */
  function Upscaled(d: Decimal, s: nat): int
    requires d.scale <= s
  {
    d.unscaled * Pow10(s - d.scale)
  }

  lemma CancelFactor(u: int, k: nat, p: nat)
    requires k > 0 && p > 0
    ensures (u * k) as real / (k * p) as real == u as real / p as real
  {
    assert (u * k) as real == u as real * k as real;
    assert (k * p) as real == k as real * p as real;
  }

  /** Re-expressing a decimal at a larger scale does not change its value. */
  lemma UpscaledValue(d: Decimal, s: nat)
    requires d.scale <= s
    ensures Value(Decimal(Upscaled(d, s), s)) == Value(d)
  {
    Pow10Add(s - d.scale, d.scale);
    CancelFactor(d.unscaled, Pow10(s - d.scale), Pow10(d.scale));
  }

  /** BigDecimal.valueOf(long): an integer at scale 0. */
  function ValueOf(n: int): (r: Decimal)
    ensures r.scale == 0 && Value(r) == n as real
  {
    Decimal(n, 0)
  }

  /**
   The test `d.equals(BigDecimal.ZERO.setScale(d.scale()))`: numerically zero,
   whatever the scale.
   */
  predicate IsZero(d: Decimal)
    ensures IsZero(d) <==> Value(d) == 0.0
  {
    d.unscaled == 0
  }

  /** BigDecimal.add: exact, at the larger of the two scales. */
  function Add(a: Decimal, b: Decimal): (r: Decimal)
    ensures r.scale == Max(a.scale, b.scale)
    ensures Value(r) == Value(a) + Value(b)
  {
    var s := Max(a.scale, b.scale);
    UpscaledValue(a, s);
    UpscaledValue(b, s);
    QuotientsCombine(Upscaled(a, s), Upscaled(b, s), Pow10(s));
    Decimal(Upscaled(a, s) + Upscaled(b, s), s)
  }

  /** BigDecimal.subtract: exact, at the larger of the two scales. */
  function Subtract(a: Decimal, b: Decimal): (r: Decimal)
    ensures r.scale == Max(a.scale, b.scale)
    ensures Value(r) == Value(a) - Value(b)
  {
    var s := Max(a.scale, b.scale);
    UpscaledValue(a, s);
    UpscaledValue(b, s);
    QuotientsCombine(Upscaled(a, s), Upscaled(b, s), Pow10(s));
    Decimal(Upscaled(a, s) - Upscaled(b, s), s)
  }

  /** Fractions over one denominator add and subtract by their numerators. */
  lemma QuotientsCombine(x: int, y: int, p: nat)
    requires p > 0
    ensures (x + y) as real / p as real == x as real / p as real + y as real / p as real
    ensures (x - y) as real / p as real == x as real / p as real - y as real / p as real
  {
    var a, b := x as real / p as real, y as real / p as real;
    assert x as real == a * p as real;
    assert y as real == b * p as real;
    assert (x + y) as real == (a + b) * p as real;
    assert (x - y) as real == (a - b) * p as real;
  }

  /** Dividing by a positive denominator keeps the order of the numerators. */
  lemma QuotientsCompare(x: int, y: int, p: nat)
    requires p > 0
    ensures x < y <==> x as real / p as real < y as real / p as real
    ensures x == y <==> x as real / p as real == y as real / p as real
  {
    var a, b := x as real / p as real, y as real / p as real;
    assert x as real == a * p as real;
    assert y as real == b * p as real;
    assert (y - x) as real == (b - a) * p as real;
  }

  /** BigDecimal.negate: same scale, opposite value. */
  function Negate(a: Decimal): (r: Decimal)
    ensures r.scale == a.scale
    ensures Value(r) == -Value(a)
  {
    Decimal(-a.unscaled, a.scale)
  }

  /** BigDecimal.abs: same scale, absolute value. */
  function Abs(a: Decimal): (r: Decimal)
    ensures r.scale == a.scale
    ensures Value(r) == if Value(a) < 0.0 then -Value(a) else Value(a)
  {
    if a.unscaled < 0 then Decimal(-a.unscaled, a.scale) else a
  }

  /** BigDecimal.multiply: exact, at the sum of the two scales. */
  function Multiply(a: Decimal, b: Decimal): (r: Decimal)
    ensures r.scale == a.scale + b.scale
    ensures Value(r) == Value(a) * Value(b)
  {
    Pow10Add(a.scale, b.scale);
    ProductOfQuotients(a.unscaled, b.unscaled, Pow10(a.scale), Pow10(b.scale));
    Decimal(a.unscaled * b.unscaled, a.scale + b.scale)
  }

  lemma ProductOfQuotients(u: int, v: int, p: nat, q: nat)
    requires p > 0 && q > 0
    ensures (u * v) as real / (p * q) as real == (u as real / p as real) * (v as real / q as real)
  {
    var x, y := u as real / p as real, v as real / q as real;
    assert u as real == x * p as real;
    assert v as real == y * q as real;
    assert (u * v) as real == u as real * v as real == (x * y) * (p as real * q as real);
    assert (p * q) as real == p as real * q as real;
  }

  /** BigDecimal.compareTo: the sign of a - b, by value only. */
  function CompareTo(a: Decimal, b: Decimal): (r: int)
    ensures r == -1 <==> Value(a) < Value(b)
    ensures r == 0 <==> Value(a) == Value(b)
    ensures r == 1 <==> Value(a) > Value(b)
  {
    var s := Max(a.scale, b.scale);
    UpscaledValue(a, s);
    UpscaledValue(b, s);
    var x, y := Upscaled(a, s), Upscaled(b, s);
    QuotientsCompare(x, y, Pow10(s));
    if x < y then -1 else if x == y then 0 else 1
  }

  /**
   BigDecimal.setScale(s) without a rounding mode: the same value at scale s,
   or ArithmeticException when no decimal of scale s has that value.
   */
  function SetScale(d: Decimal, s: nat): (r: Result<Decimal>)
    ensures r.Ok? ==> r.value.scale == s && Value(r.value) == Value(d)
    ensures r.Err? ==> r.error == Arithmetic
    ensures r.Err? <==> forall v: int :: Value(Decimal(v, s)) != Value(d)
  {
    if d.scale <= s then
      UpscaledValue(d, s);
      Ok(Decimal(Upscaled(d, s), s))
    else
      var k := Pow10(d.scale - s);
      if d.unscaled % k == 0 then
        ExactDownscale(d, s);
        Ok(Decimal(d.unscaled / k, s))
      else
        NotRepresentable(d, s);
        Err(Arithmetic)
  }

  /** Re-scaling to the scale a number already has gives it back unchanged. */
  lemma SetScaleOwnScale(d: Decimal)
    ensures SetScale(d, d.scale) == Ok(d)
  {
    assert Pow10(0) == 1;
  }

  lemma ExactDownscale(d: Decimal, s: nat)
    requires s < d.scale && d.unscaled % Pow10(d.scale - s) == 0
    ensures Value(Decimal(d.unscaled / Pow10(d.scale - s), s)) == Value(d)
  {
    var k := Pow10(d.scale - s);
    var q := d.unscaled / k;
    assert q * k == d.unscaled;
    UpscaledValue(Decimal(q, s), d.scale);
  }

  lemma NotRepresentable(d: Decimal, s: nat)
    requires s < d.scale && d.unscaled % Pow10(d.scale - s) != 0
    ensures forall v: int :: Value(Decimal(v, s)) != Value(d)
  {
    forall v: int
      ensures Value(Decimal(v, s)) != Value(d)
    {
      var k := Pow10(d.scale - s);
      var w := Upscaled(Decimal(v, s), d.scale);
      UpscaledValue(Decimal(v, s), d.scale);
      if Value(Decimal(v, s)) == Value(d) {
        SameScaleSameValue(Decimal(w, d.scale), d);
        ModOfMultiple(v, k);
        assert false;
      }
    }
  }

  lemma ModOfMultiple(v: int, k: nat)
    requires k > 0
    ensures (v * k) % k == 0
  {
    var m := v * k;
    var q, r := m / k, m % k;
    assert m == q * k + r && 0 <= r < k;
    var e := v - q;
    assert e * k == v * k - q * k;
    assert e * k == r;
  }

  /** At a fixed scale, the value determines the unscaled integer. */
  lemma SameScaleSameValue(a: Decimal, b: Decimal)
    requires a.scale == b.scale && Value(a) == Value(b)
    ensures a == b
  {
    var p := Pow10(a.scale) as real;
    assert a.unscaled as real == Value(a) * p;
    assert b.unscaled as real == Value(b) * p;
  }

  /** Addition is commutative, scale included. */
  lemma AddCommutes(a: Decimal, b: Decimal)
    ensures Add(a, b) == Add(b, a)
  {
  }

  /** Adding BigDecimal.ZERO changes nothing, scale included (scales are never negative). */
  lemma AddZero(a: Decimal)
    ensures Add(Zero, a) == a && Add(a, Zero) == a
  {
  }

  /**
   `d.divide(BigDecimal.valueOf(n), d.scale(), RoundingMode.CEILING)` for a
   positive integer n: the least decimal of d's scale that is no smaller than
   d / n.
   */
  function DivideCeiling(d: Decimal, n: nat): (r: Decimal)
    requires n > 0
    ensures r.scale == d.scale
    ensures r.unscaled * n >= d.unscaled
    ensures (r.unscaled - 1) * n < d.unscaled
  {
    var q := (-d.unscaled) / n;
    assert -d.unscaled == q * n + (-d.unscaled) % n;
    Decimal(-q, d.scale)
  }

  /** When n divides the unscaled value, the ceiling quotient is exact. */
  lemma DivideCeilingExact(d: Decimal, n: nat)
    requires n > 0 && d.unscaled % n == 0
    ensures DivideCeiling(d, n).unscaled * n == d.unscaled
  {
    var q := DivideCeiling(d, n).unscaled;
    var m := d.unscaled / n;
    assert m * n == d.unscaled;
    assert q * n >= m * n && (q - 1) * n < m * n;
    MultiplyCancel(q, m, n);
  }

  /** An exact ceiling quotient of a non-zero number is non-zero. */
  lemma DivideCeilingExactNonZero(d: Decimal, n: nat)
    requires n > 0 && d.unscaled % n == 0 && !IsZero(d)
    ensures !IsZero(DivideCeiling(d, n))
  {
    DivideCeilingExact(d, n);
  }

  /** When n does not divide the unscaled value, the ceiling quotient rounds. */
  lemma DivideCeilingInexact(d: Decimal, n: nat)
    requires n > 0 && d.unscaled % n != 0
    ensures DivideCeiling(d, n).unscaled * n != d.unscaled
  {
    ModOfMultiple(DivideCeiling(d, n).unscaled, n);
  }

  lemma MultiplyCancel(q: int, m: int, n: nat)
    requires n > 0 && q * n >= m * n && (q - 1) * n < m * n
    ensures q == m
  {
    var e := q - m;
    assert e * n == q * n - m * n;
    assert (e - 1) * n == e * n - n;
    assert e * n >= 0 && (e - 1) * n < 0;
  }
}
