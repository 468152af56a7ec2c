/**
 The polynomial value type of Polynomial.java: a stored array of decimal
 coefficients, coefficient i belonging to x^i, and a degree computed from that
 array when the polynomial is made. The stored array may end in zero entries:
 the degree ignores them, `Length` (degree + 1) ignores them, and so do `Sum`,
 `Negate`, `Derivate`, `Integrate`, `Shift`, `SetLength`, `SetScale` and the
 two equality tests, while `Evaluate` and `GetCoefficient` use the whole array.
 */
module Polynomials {
  import opened Results
  import opened Decimals
  import opened Series

  /** A coefficient array; a polynomial is never made from an empty one. */
  type Coefficients = s: seq<Decimal> | |s| > 0 witness [Decimal(0, 0)]

  datatype Polynomial = Polynomial(coefficients: Coefficients)

  /** The polynomial y = 0: the stored array [BigDecimal.ZERO]. */
  const ZeroPolynomial := Polynomial([Zero])

  /**
   The constructor Polynomial(BigDecimal...): an empty argument list gives
   the zero polynomial, any other array is kept exactly as given.
   */
  function Make(cs: seq<Decimal>): (p: Polynomial)
    ensures |cs| == 0 ==> p == ZeroPolynomial && Degree(p) == 0 && Length(p) == 1
    ensures |cs| > 0 ==> p.coefficients == cs
  {
    if |cs| == 0 then ZeroPolynomial else Polynomial(cs)
  }

  /**
   computeDegree: the highest index whose coefficient is numerically non-zero
   (whatever its scale), or 0 when there is none.
   */
  function DegreeOf(cs: Coefficients): (d: nat)
    ensures d < |cs|
    ensures forall j :: d < j < |cs| ==> Value(cs[j]) == 0.0
    ensures d == 0 || Value(cs[d]) != 0.0
  {
    var last := |cs| - 1;
    if last == 0 then 0
    else if !IsZero(cs[last]) then last
    else DegreeOf(cs[..last])
  }

  function Degree(p: Polynomial): nat {
    DegreeOf(p.coefficients)
  }

  /** length(): degree + 1, which may be less than the stored array's length. */
  function Length(p: Polynomial): (n: nat)
    ensures 1 <= n <= |p.coefficients|
  {
    Degree(p) + 1
  }

  /** The coefficients up to the degree, which every operation but two works on. */
  function Significant(p: Polynomial): (cs: Coefficients)
    ensures |cs| == Length(p)
  {
    p.coefficients[..Length(p)]
  }

  /** A polynomial all of whose coefficients are numerically zero. */
  predicate IsZeroValued(p: Polynomial) {
    Degree(p) == 0 && IsZero(p.coefficients[0])
  }

  /** Outside the zero polynomial, the coefficient at the degree is non-zero. */
  lemma LeadingCoefficient(p: Polynomial)
    requires !IsZeroValued(p)
    ensures !IsZero(p.coefficients[Degree(p)])
  {
  }

  function Zeros(n: nat): (zs: seq<Decimal>)
    ensures |zs| == n && forall i :: 0 <= i < n ==> zs[i] == Zero
  {
    seq(n, _ => Zero)
  }

  // ---------------------------------------------------------------------------
  // Meaning

  ghost function Values(cs: seq<Decimal>): seq<real> {
    seq(|cs|, i requires 0 <= i < |cs| => Value(cs[i]))
  }

  /** The number the polynomial takes at x, read off the whole stored array. */
  ghost function ValueAt(p: Polynomial, x: real): real {
    Eval(Values(p.coefficients), x)
  }

  lemma GetValues(cs: seq<Decimal>, i: nat)
    ensures Get(Values(cs), i) == if i < |cs| then Value(cs[i]) else 0.0
  {
  }

  /** The entries past the degree contribute nothing to the value. */
  lemma ValueOfSignificant(p: Polynomial, x: real)
    ensures Eval(Values(Significant(p)), x) == ValueAt(p, x)
  {
    forall i: nat
      ensures Get(Values(p.coefficients), i) == Get(Values(Significant(p)), i)
    {
      GetValues(p.coefficients, i);
      GetValues(Significant(p), i);
    }
    EvalPadded(Values(Significant(p)), Values(p.coefficients), x);
  }

  // ---------------------------------------------------------------------------
  // Evaluation and coefficient access

  /**
   The value Horner's loop holds once it has folded in the coefficients from
   index i up: ((c_{n-1}·x + c_{n-2})·x + …)·x + c_i.
   */
  function HornerFrom(cs: Coefficients, x: Decimal, i: nat): (r: Decimal)
    requires i < |cs|
    ensures Value(r) == EvalFrom(Values(cs), Value(x), i)
    decreases |cs| - i
  {
    if i == |cs| - 1 then
      cs[i]
    else
      var h := HornerFrom(cs, x, i + 1);
      HornerStep(Value(h), Value(x), Value(cs[i]), EvalFrom(Values(cs), Value(x), i + 1));
      Add(Multiply(h, x), cs[i])
  }

  lemma HornerStep(h: real, x: real, c: real, e: real)
    requires h == e
    ensures h * x + c == c + x * e
  {
  }

  /**
   evaluate(x): Horner's rule over the whole stored array, computed exactly;
   a null x is rejected. The result is the sum of the terms c_i·x^i.
   */
  function Evaluate(p: Polynomial, x: Option<Decimal>): (r: Result<Decimal>)
    ensures x.None? ==> r == Err(NullPointer)
    ensures x.Some? ==> r.Ok? && Value(r.value) == PowerSum(Values(p.coefficients), Value(x.value))
  {
    match x
    case None => Err(NullPointer)
    case Some(v) =>
      EvalIsPowerSum(Values(p.coefficients), Value(v));
      Ok(HornerFrom(p.coefficients, v, 0))
  }

  /** The zero polynomial evaluates to exactly BigDecimal.ZERO everywhere. */
  lemma EvaluateZeroPolynomial(x: Decimal)
    ensures Evaluate(Make([]), Some(x)) == Ok(Zero)
    ensures Degree(Make([])) == 0 && Length(Make([])) == 1
  {
  }

  /**
   getCoefficient(i): the stored entry when i is an index of the stored
   array, otherwise IllegalArgumentException.
   */
  function GetCoefficient(p: Polynomial, i: int): (r: Result<Decimal>)
    ensures r.Ok? <==> 0 <= i < |p.coefficients|
    ensures r.Ok? ==> r.value == p.coefficients[i]
    ensures r.Err? ==> r.error == IllegalArgument
  {
    if 0 <= i < |p.coefficients| then Ok(p.coefficients[i]) else Err(IllegalArgument)
  }

  /** Indices between the degree and the end of the stored array succeed and read zero. */
  lemma CoefficientsPastDegree(p: Polynomial, i: int)
    requires Length(p) <= i < |p.coefficients|
    ensures GetCoefficient(p, i).Ok? && Value(GetCoefficient(p, i).value) == 0.0
  {
  }

  // ---------------------------------------------------------------------------
  // Sum and negation

  /** One entry of `Sum` as the code writes it: ZERO + (short_i + long_i). */
  function SumEntry(s: Decimal, l: Decimal): (r: Decimal)
    ensures r == Add(s, l) && r == Add(l, s)
  {
    AddCommutes(s, l);
    AddZero(Add(s, l));
    Add(Zero, Add(s, l))
  }

  /**
   sum(other): as many entries as the longer operand's length(); the sum of
   the two entries below the shorter length and the longer operand's entry
   from there on. Which operand is the receiver does not matter.
   */
  function Sum(p: Polynomial, q: Polynomial): (r: Polynomial)
    ensures |r.coefficients| == Max(Length(p), Length(q))
    ensures forall i :: 0 <= i < Length(p) && i < Length(q) ==>
      r.coefficients[i] == Add(p.coefficients[i], q.coefficients[i])
    ensures forall i :: Length(q) <= i < Length(p) ==> r.coefficients[i] == p.coefficients[i]
    ensures forall i :: Length(p) <= i < Length(q) ==> r.coefficients[i] == q.coefficients[i]
  {
    var (short, long) := if Length(p) <= Length(q) then (p, q) else (q, p);
    var n := Length(long);
    var cs := seq(n, i requires 0 <= i < n =>
      if i < Length(short) then SumEntry(short.coefficients[i], long.coefficients[i])
      else long.coefficients[i]);
    Polynomial(cs)
  }

  lemma SumCommutes(p: Polynomial, q: Polynomial)
    ensures Sum(p, q) == Sum(q, p)
  {
    var a, b := Sum(p, q).coefficients, Sum(q, p).coefficients;
    forall i | 0 <= i < |a|
      ensures a[i] == b[i]
    {
      if i < Length(p) && i < Length(q) {
        AddCommutes(p.coefficients[i], q.coefficients[i]);
      }
    }
  }

  /** The sum evaluates to the sum of the values. */
  lemma SumValue(p: Polynomial, q: Polynomial, x: real)
    ensures ValueAt(Sum(p, q), x) == ValueAt(p, x) + ValueAt(q, x)
  {
    SumEntries(p, q);
    EvalSum(Values(Significant(p)), Values(Significant(q)), Values(Sum(p, q).coefficients), x);
    ValueOfSignificant(p, x);
    ValueOfSignificant(q, x);
  }

  /** Entry by entry, the sum is worth one operand's entry plus the other's. */
  lemma SumEntries(p: Polynomial, q: Polynomial)
    ensures forall i: nat ::
              Get(Values(Sum(p, q).coefficients), i) == Get(Values(Significant(p)), i) + Get(Values(Significant(q)), i)
  {
    forall i: nat
      ensures Get(Values(Sum(p, q).coefficients), i) ==
        Get(Values(Significant(p)), i) + Get(Values(Significant(q)), i)
    {
      GetValues(Sum(p, q).coefficients, i);
      GetValues(Significant(p), i);
      GetValues(Significant(q), i);
    }
  }

  /** Adding the zero polynomial gives back an equal polynomial. */
  lemma SumZero(p: Polynomial)
    ensures Equals(Sum(p, ZeroPolynomial), p)
  {
    var r := Sum(p, ZeroPolynomial);
    AddZero(p.coefficients[0]);
    assert r.coefficients == Significant(p);
    DegreeOfPrefix(p);
  }

  /** Cutting the stored array at length() keeps the degree. */
  lemma DegreeOfPrefix(p: Polynomial)
    ensures Degree(Polynomial(Significant(p))) == Degree(p)
  {
    SameDegree(Significant(p), Degree(p));
  }

  /** A coefficient array whose highest numerically non-zero index is d has degree d. */
  lemma SameDegree(cs: Coefficients, d: nat)
    requires d < |cs|
    requires forall j :: d < j < |cs| ==> Value(cs[j]) == 0.0
    requires d == 0 || Value(cs[d]) != 0.0
    ensures DegreeOf(cs) == d
  {
  }

  /** negate(): every entry up to length() negated, at the same scale. */
  function Negate(p: Polynomial): (r: Polynomial)
    ensures |r.coefficients| == Length(p) && Degree(r) == Degree(p)
    ensures forall i :: 0 <= i < Length(p) ==>
      r.coefficients[i].scale == p.coefficients[i].scale &&
      Value(r.coefficients[i]) == -Value(p.coefficients[i])
  {
    var n := Length(p);
    var r := Polynomial(seq(n, i requires 0 <= i < n => Decimals.Negate(p.coefficients[i])));
    SameDegree(r.coefficients, Degree(p));
    r
  }

  lemma NegateValue(p: Polynomial, x: real)
    ensures ValueAt(Negate(p), x) == -ValueAt(p, x)
  {
    var r := Negate(p);
    var w, u := Values(r.coefficients), Values(p.coefficients);
    forall i: nat
      ensures Get(w, i) == -1.0 * Get(u, i) + 0.0 * Get([], i)
    {
      GetValues(r.coefficients, i);
      GetValues(p.coefficients, i);
    }
    EvalLinear(u, [], w, -1.0, 0.0, x);
  }

  /** Negating twice gives back an equal polynomial. */
  lemma NegateTwice(p: Polynomial)
    ensures Equals(Negate(Negate(p)), p)
  {
    var r := Negate(Negate(p));
    forall i | 0 <= i < Length(p)
      ensures r.coefficients[i] == p.coefficients[i]
    {
      SameScaleSameValue(r.coefficients[i], p.coefficients[i]);
    }
    assert r.coefficients == Significant(p);
    DegreeOfPrefix(p);
  }

  // ---------------------------------------------------------------------------
  // Calculus

  /** getDerivateCoefficient(c, n): c·n, at c's scale. */
  function DerivateTerm(c: Decimal, n: nat): (r: Decimal)
    requires n > 0
    ensures r.scale == c.scale
  {
    Multiply(c, ValueOf(n))
  }

  /** The term is worth n times the coefficient, and so is zero exactly when it is. */
  lemma DerivateTermValue(c: Decimal, n: nat)
    requires n > 0
    ensures Value(DerivateTerm(c, n)) == n as real * Value(c)
    ensures IsZero(DerivateTerm(c, n)) <==> IsZero(c)
  {
  }

  function DerivateTerms(p: Polynomial): (cs: seq<Decimal>)
    ensures |cs| == Length(p) - 1
    ensures forall i :: 0 <= i < |cs| ==> cs[i] == DerivateTerm(p.coefficients[i + 1], i + 1)
  {
    seq(Length(p) - 1, i requires 0 <= i < Length(p) - 1 => DerivateTerm(p.coefficients[i + 1], i + 1))
  }

  /**
   derivate(): length() - 1 entries, entry p-1 being p·c_p at c_p's scale; a
   constant polynomial has the zero polynomial as derivative.
   */
  function Derivate(p: Polynomial): (r: Polynomial)
    ensures Length(p) == 1 ==> r == ZeroPolynomial
    ensures Length(p) > 1 ==> |r.coefficients| == Length(p) - 1
    ensures Length(p) > 1 ==> forall i :: 0 <= i < Length(p) - 1 ==>
      r.coefficients[i].scale == p.coefficients[i + 1].scale &&
      Value(r.coefficients[i]) == (i + 1) as real * Value(p.coefficients[i + 1])
    ensures Degree(p) > 0 ==> Degree(r) == Degree(p) - 1
  {
    var n := Length(p) - 1;
    var r := Make(DerivateTerms(p));
    forall i | 0 <= i < n
      ensures Value(r.coefficients[i]) == (i + 1) as real * Value(p.coefficients[i + 1])
      ensures IsZero(r.coefficients[i]) <==> IsZero(p.coefficients[i + 1])
    {
      DerivateTermValue(p.coefficients[i + 1], i + 1);
    }
    if n > 0 then
      SameDegree(r.coefficients, n - 1);
      r
    else
      r
  }

  /**
   integrate(k): length() + 1 entries, k first, then c_p / (p + 1) rounded
   towards positive infinity at c_p's scale (integrateTerm); a null k is
   rejected.
   */
  function Integrate(p: Polynomial, k: Option<Decimal>): (r: Result<Polynomial>)
    ensures k.None? <==> r.Err?
    ensures r.Err? ==> r.error == NullPointer
    ensures r.Ok? ==> |r.value.coefficients| == Length(p) + 1 && r.value.coefficients[0] == k.value
    ensures r.Ok? ==> forall i :: 0 <= i < Length(p) ==>
      r.value.coefficients[i + 1] == DivideCeiling(p.coefficients[i], i + 1)
  {
    match k
    case None => Err(NullPointer)
    case Some(c) =>
      var n := Length(p);
      Ok(Polynomial([c] + seq(n, i requires 0 <= i < n => DivideCeiling(p.coefficients[i], i + 1))))
  }

  /** integrate(): the integral with integration constant BigDecimal.ZERO. */
  function IntegrateWithZero(p: Polynomial): (r: Polynomial)
    ensures Integrate(p, Some(Zero)) == Ok(r)
    ensures r.coefficients[0] == Zero
  {
    Integrate(p, Some(Zero)).value
  }

  /**
   When every division of `integrate` is exact, differentiating the integral
   gives back the polynomial, unless that is numerically zero.
   */
  lemma DerivateIntegrate(p: Polynomial, k: Decimal)
    requires forall i :: 0 <= i < Length(p) ==> p.coefficients[i].unscaled % (i + 1) == 0
    requires !IsZeroValued(p)
    ensures Equals(Derivate(Integrate(p, Some(k)).value), p)
  {
    DerivateOfExactIntegral(p, k);
    var r := Derivate(Integrate(p, Some(k)).value);
    assert Significant(r) == r.coefficients by {
      DegreeOfPrefix(p);
    }
  }

  lemma DerivateOfExactIntegral(p: Polynomial, k: Decimal)
    requires forall i :: 0 <= i < Length(p) ==> p.coefficients[i].unscaled % (i + 1) == 0
    requires !IsZeroValued(p)
    ensures Derivate(Integrate(p, Some(k)).value).coefficients == Significant(p)
  {
    var r := Derivate(Integrate(p, Some(k)).value);
    DerivateOfIntegralLength(p, k);
    forall i | 0 <= i < Length(p)
      ensures r.coefficients[i] == Significant(p)[i]
    {
      DerivateOfExactIntegralAt(p, k, i);
    }
  }

  /** With exact divisions, the derivative of the integral has length() entries. */
  lemma DerivateOfIntegralLength(p: Polynomial, k: Decimal)
    requires forall i :: 0 <= i < Length(p) ==> p.coefficients[i].unscaled % (i + 1) == 0
    requires !IsZeroValued(p)
    ensures |Derivate(Integrate(p, Some(k)).value).coefficients| == Length(p)
  {
    IntegralDegree(p, k);
  }

  /** With exact divisions, entry i of the derivative of the integral is c_i again. */
  lemma DerivateOfExactIntegralAt(p: Polynomial, k: Decimal, i: nat)
    requires forall i :: 0 <= i < Length(p) ==> p.coefficients[i].unscaled % (i + 1) == 0
    requires !IsZeroValued(p) && i < Length(p)
    ensures |Derivate(Integrate(p, Some(k)).value).coefficients| > i
    ensures Derivate(Integrate(p, Some(k)).value).coefficients[i] == p.coefficients[i]
  {
    var q := Integrate(p, Some(k)).value;
    IntegralDegree(p, k);
    DerivateEntry(q, i);
    DivideCeilingExact(p.coefficients[i], i + 1);
    DerivateTermOfQuotient(q.coefficients[i + 1], p.coefficients[i], i + 1);
  }

  /**
   The case DerivateIntegrate leaves out fails in the code: the integral of a
   numerically zero polynomial has degree 0, so its derivative is
   [BigDecimal.ZERO], which is `equals` to the polynomial only when that holds
   exactly BigDecimal.ZERO (the polynomial [0.00], for one, does not come back).
   */
  lemma DerivateIntegrateZero(p: Polynomial, k: Decimal)
    requires IsZeroValued(p)
    ensures Derivate(Integrate(p, Some(k)).value) == ZeroPolynomial
    ensures Equals(Derivate(Integrate(p, Some(k)).value), p) <==> p.coefficients[0] == Zero
  {
    IntegralOfZero(p, k);
    var z := Make([]);
    EqualsConstant(z, p);
  }

  /** The integral of a numerically zero polynomial has degree 0. */
  lemma IntegralOfZero(p: Polynomial, k: Decimal)
    requires IsZeroValued(p)
    ensures Degree(Integrate(p, Some(k)).value) == 0
  {
    var c := p.coefficients[0];
    var q := Integrate(p, Some(k)).value;
    assert Length(p) == 1 && |q.coefficients| == 2;
    DivideCeilingExact(c, 1);
    assert q.coefficients[1] == DivideCeiling(c, 1);
    ConstantOfTwo(q.coefficients);
  }

  /** Two entries, the second zero: degree 0. */
  lemma ConstantOfTwo(cs: Coefficients)
    requires |cs| == 2 && IsZero(cs[1])
    ensures DegreeOf(cs) == 0
  {
    SameDegree(cs, 0);
  }

  /** Two polynomials of degree 0 are `equals` exactly when their constants are. */
  lemma EqualsConstant(p: Polynomial, q: Polynomial)
    requires Degree(p) == 0 && Degree(q) == 0
    ensures Equals(p, q) <==> p.coefficients[0] == q.coefficients[0]
  {
  }

  lemma IntegralIsExact(p: Polynomial, k: Decimal)
    requires forall i :: 0 <= i < Length(p) ==> p.coefficients[i].unscaled % (i + 1) == 0
    ensures var q := Integrate(p, Some(k)).value;
      forall i :: 0 <= i < Length(p) ==>
        q.coefficients[i + 1].unscaled * (i + 1) == p.coefficients[i].unscaled &&
        q.coefficients[i + 1].scale == p.coefficients[i].scale
  {
    forall i | 0 <= i < Length(p)
      ensures Integrate(p, Some(k)).value.coefficients[i + 1] == DivideCeiling(p.coefficients[i], i + 1)
      ensures DivideCeiling(p.coefficients[i], i + 1).unscaled * (i + 1) == p.coefficients[i].unscaled
    {
      DivideCeilingExact(p.coefficients[i], i + 1);
    }
  }

  lemma IntegralDegree(p: Polynomial, k: Decimal)
    requires forall i :: 0 <= i < Length(p) ==> p.coefficients[i].unscaled % (i + 1) == 0
    requires !IsZeroValued(p)
    ensures Degree(Integrate(p, Some(k)).value) == Degree(p) + 1
  {
    var d := Degree(p);
    LeadingCoefficient(p);
    DivideCeilingExactNonZero(p.coefficients[d], d + 1);
    SameDegree(Integrate(p, Some(k)).value.coefficients, d + 1);
  }

  lemma DerivateTermOfQuotient(q: Decimal, c: Decimal, n: nat)
    requires n > 0 && q.scale == c.scale && q.unscaled * n == c.unscaled
    ensures DerivateTerm(q, n) == c
  {
  }

  /**
   The divisibility condition of DerivateIntegrate cannot be dropped: once a
   single division of integrate rounds, differentiating the integral no
   longer gives the polynomial back (the integral of x, for one, becomes x^2
   and differentiates to 2x).
   */
  lemma DerivateIntegrateInexact(p: Polynomial, k: Decimal, i: nat)
    requires i < Length(p) && p.coefficients[i].unscaled % (i + 1) != 0
    ensures !Equals(Derivate(Integrate(p, Some(k)).value), p)
  {
    RoundedTerm(p.coefficients[i], i + 1);
    var q := Integrate(p, Some(k)).value;
    var r := Derivate(q);
    if Length(r) == Length(p) {
      DerivateEntry(q, i);
    }
  }

  lemma DerivateEntry(p: Polynomial, i: nat)
    requires i + 1 < Length(p)
    ensures Derivate(p).coefficients[i] == DerivateTerm(p.coefficients[i + 1], i + 1)
  {
  }

  lemma RoundedTerm(c: Decimal, n: nat)
    requires n > 0 && c.unscaled % n != 0
    ensures DerivateTerm(DivideCeiling(c, n), n) != c
  {
    DivideCeilingInexact(c, n);
  }

  // ---------------------------------------------------------------------------
  // Shifting, padding and scale

  /**
   shift(m): multiplication by x^m, that is m zero entries followed by the
   first length() entries. A negative m makes the array allocation or the
   array copy fail.
   */
  function Shift(p: Polynomial, m: int): (r: Result<Polynomial>)
    ensures r.Ok? <==> m >= 0
    ensures r.Err? ==> r.error == if Length(p) + m < 0 then NegativeArraySize else IndexOutOfBounds
    ensures r.Ok? ==> |r.value.coefficients| == Length(p) + m
    ensures r.Ok? ==> forall i :: 0 <= i < m ==> r.value.coefficients[i] == Zero
    ensures r.Ok? ==> forall i :: 0 <= i < Length(p) ==> r.value.coefficients[i + m] == p.coefficients[i]
  {
    if Length(p) + m < 0 then Err(NegativeArraySize)
    else if m < 0 then Err(IndexOutOfBounds)
    else Ok(Polynomial(Zeros(m) + Significant(p)))
  }

  /** Shifting by m multiplies the value by x^m. */
  lemma ShiftValue(p: Polynomial, m: nat, x: real)
    ensures ValueAt(Shift(p, m).value, x) == Pow(x, m) * ValueAt(p, x)
  {
    var r := Shift(p, m).value;
    ShiftEntries(p, m);
    EvalShifted(Values(Significant(p)), Values(r.coefficients), m, x);
    ValueOfSignificant(p, x);
    Rescaled(ValueAt(r, x), Eval(Values(Significant(p)), x), ValueAt(p, x), Pow(x, m));
  }

  lemma Rescaled(s: real, e: real, v: real, c: real)
    requires s == c * e && e == v
    ensures s == c * v
  {
  }

  /** Entry by entry, the shifted polynomial is m zeros followed by the coefficients. */
  lemma ShiftEntries(p: Polynomial, m: nat)
    ensures ShiftedBy(Values(Shift(p, m).value.coefficients), Values(Significant(p)), m)
  {
    var w, u := Values(Shift(p, m).value.coefficients), Values(Significant(p));
    forall i: nat
      ensures Get(w, i) == if i < m then 0.0 else Get(u, i - m)
    {
      GetValues(Shift(p, m).value.coefficients, i);
      if i >= m {
        GetValues(Significant(p), i - m);
      }
    }
  }

  /** Shifting a polynomial that is not numerically zero raises its degree by m. */
  lemma ShiftDegree(p: Polynomial, m: nat)
    requires !IsZeroValued(p)
    ensures Degree(Shift(p, m).value) == Degree(p) + m
  {
    var r := Shift(p, m).value;
    assert r.coefficients[Degree(p) + m] == p.coefficients[Degree(p)];
    SameDegree(r.coefficients, Degree(p) + m);
  }

  /**
   setLength(n): the receiver itself when n <= length(), otherwise its first
   length() entries padded with zeros to n entries.
   */
  function SetLength(p: Polynomial, n: int): (r: Polynomial)
    ensures n <= Length(p) ==> r == p
    ensures n > Length(p) ==> |r.coefficients| == n && r.coefficients[..Length(p)] == Significant(p)
    ensures n > Length(p) ==> forall i :: Length(p) <= i < n ==> r.coefficients[i] == Zero
  {
    if n <= Length(p) then p else Polynomial(Significant(p) + Zeros(n - Length(p)))
  }

  /** Padding changes neither the degree, nor equality, nor the value. */
  lemma SetLengthKeepsPolynomial(p: Polynomial, n: int, x: real)
    ensures Degree(SetLength(p, n)) == Degree(p)
    ensures Equals(SetLength(p, n), p)
    ensures ValueAt(SetLength(p, n), x) == ValueAt(p, x)
  {
    var r := SetLength(p, n);
    if n > Length(p) {
      SameDegree(r.coefficients, Degree(p));
      forall i: nat
        ensures Get(Values(r.coefficients), i) == Get(Values(p.coefficients), i)
      {
        GetValues(r.coefficients, i);
        GetValues(p.coefficients, i);
      }
      EvalPadded(Values(p.coefficients), Values(r.coefficients), x);
    }
  }

  /** Every coefficient of `cs` re-expressed at scale s, failing at the first that cannot be. */
  function SetScaleAll(cs: seq<Decimal>, s: nat): (r: Result<seq<Decimal>>)
    ensures r.Err? <==> exists i :: 0 <= i < |cs| && Decimals.SetScale(cs[i], s).Err?
    ensures r.Err? ==> r.error == Arithmetic
    ensures r.Ok? ==> |r.value| == |cs|
    ensures r.Ok? ==> forall i :: 0 <= i < |cs| ==>
      r.value[i].scale == s && Value(r.value[i]) == Value(cs[i])
  {
    if |cs| == 0 then Ok([])
    else
      var head :- Decimals.SetScale(cs[0], s);
      var tail :- SetScaleAll(cs[1..], s);
      assert forall i :: 1 <= i < |cs| ==> cs[i] == cs[1..][i - 1];
      Ok([head] + tail)
  }

  /**
   setScale(s): the first length() entries at scale s with their values
   kept; ArithmeticException when one of them would need rounding.
   */
  function SetScale(p: Polynomial, s: nat): (r: Result<Polynomial>)
    ensures r.Err? <==> exists i :: 0 <= i < Length(p) && Decimals.SetScale(p.coefficients[i], s).Err?
    ensures r.Err? ==> r.error == Arithmetic
    ensures r.Ok? ==> |r.value.coefficients| == Length(p) && Degree(r.value) == Degree(p)
    ensures r.Ok? ==> forall i :: 0 <= i < Length(p) ==>
      r.value.coefficients[i].scale == s && Value(r.value.coefficients[i]) == Value(p.coefficients[i])
  {
    var cs :- SetScaleAll(Significant(p), s);
    var r := Polynomial(cs);
    SameDegree(r.coefficients, Degree(p));
    Ok(r)
  }

  /** Re-scaling keeps the value of the polynomial. */
  lemma SetScaleValue(p: Polynomial, s: nat, x: real)
    requires SetScale(p, s).Ok?
    ensures ValueAt(SetScale(p, s).value, x) == ValueAt(p, x)
  {
    var r := SetScale(p, s).value;
    forall i: nat
      ensures Get(Values(r.coefficients), i) == Get(Values(Significant(p)), i)
    {
      GetValues(r.coefficients, i);
      GetValues(Significant(p), i);
    }
    EvalPadded(Values(Significant(p)), Values(r.coefficients), x);
    ValueOfSignificant(p, x);
  }

  /** Re-scaling to the scale a polynomial already has changes nothing. */
  lemma SetScaleIdempotent(p: Polynomial, s: nat)
    requires SetScale(p, s).Ok?
    ensures SetScale(SetScale(p, s).value, s) == SetScale(p, s)
  {
    var r := SetScale(p, s).value;
    assert Significant(r) == r.coefficients;
    SetScaleAllAtScale(r.coefficients, s);
  }

  lemma {:induction false} SetScaleAllAtScale(cs: seq<Decimal>, s: nat)
    requires forall i :: 0 <= i < |cs| ==> cs[i].scale == s
    ensures SetScaleAll(cs, s) == Ok(cs)
  {
    if |cs| > 0 {
      SetScaleOwnScale(cs[0]);
      SetScaleAllAtScale(cs[1..], s);
      assert [cs[0]] + cs[1..] == cs;
    }
  }

  /** Raising the scale never needs rounding, so it always succeeds. */
  lemma SetScaleUpSucceeds(p: Polynomial, s: nat)
    requires forall i :: 0 <= i < Length(p) ==> p.coefficients[i].scale <= s
    ensures SetScale(p, s).Ok?
  {
  }

  // ---------------------------------------------------------------------------
  // Equality

  /**
   equals: the same degree and, up to length(), coefficients equal in value
   and in scale.
   */
  predicate Equals(p: Polynomial, q: Polynomial)
    ensures Equals(p, q) <==> Significant(p) == Significant(q)
  {
    Degree(p) == Degree(q) &&
    forall i :: 0 <= i < Length(p) ==> p.coefficients[i] == q.coefficients[i]
  }

  lemma EqualsIsEquivalence(p: Polynomial, q: Polynomial, r: Polynomial)
    ensures Equals(p, p)
    ensures Equals(p, q) ==> Equals(q, p)
    ensures Equals(p, q) && Equals(q, r) ==> Equals(p, r)
  {
  }

  /** Equal polynomials take equal values everywhere. */
  lemma EqualsSameValue(p: Polynomial, q: Polynomial, x: real)
    requires Equals(p, q)
    ensures ValueAt(p, x) == ValueAt(q, x)
  {
    ValueOfSignificant(p, x);
    ValueOfSignificant(q, x);
  }

  function RealAbs(x: real): real {
    if x < 0.0 then -x else x
  }

  /** approximatelyEquals: |a - b| < epsilon. */
  predicate ApproximatelyEquals(a: Decimal, b: Decimal, epsilon: Decimal)
    ensures ApproximatelyEquals(a, b, epsilon) <==> RealAbs(Value(a) - Value(b)) < Value(epsilon)
  {
    CompareTo(Abs(Subtract(a, b)), epsilon) < 0
  }

  /**
   approximateEquals: false on different degrees; otherwise whether every
   pair of coefficients up to length() differs by less than epsilon.
   */
  predicate ApproximateEquals(p: Polynomial, q: Polynomial, epsilon: Decimal)
    ensures Degree(p) != Degree(q) ==> !ApproximateEquals(p, q, epsilon)
    ensures Degree(p) == Degree(q) ==> (ApproximateEquals(p, q, epsilon) <==>
      forall i :: 0 <= i < Length(p) ==>
        RealAbs(Value(p.coefficients[i]) - Value(q.coefficients[i])) < Value(epsilon))
  {
    Degree(p) == Degree(q) &&
    forall i :: 0 <= i < Length(p) ==> ApproximatelyEquals(p.coefficients[i], q.coefficients[i], epsilon)
  }

  /** With a positive tolerance, equal polynomials are approximately equal. */
  lemma EqualsImpliesApproximateEquals(p: Polynomial, q: Polynomial, epsilon: Decimal)
    requires Value(epsilon) > 0.0 && Equals(p, q)
    ensures ApproximateEquals(p, q, epsilon)
  {
  }

  /**
   A polynomial compared with itself: approximately equal exactly when the
   tolerance is positive.
   */
  lemma ApproximateEqualsSelf(p: Polynomial, epsilon: Decimal)
    ensures ApproximateEquals(p, p, epsilon) <==> Value(epsilon) > 0.0
  {
    if Value(epsilon) <= 0.0 {
      assert !ApproximatelyEquals(p.coefficients[0], p.coefficients[0], epsilon);
    }
  }

  lemma ApproximateEqualsSymmetric(p: Polynomial, q: Polynomial, epsilon: Decimal)
    ensures ApproximateEquals(p, q, epsilon) <==> ApproximateEquals(q, p, epsilon)
  {
  }
}
