/**
 PolynomialMultiplier.multiplyViaNaive: the schoolbook product, every
 coefficient of one polynomial times every coefficient of the other, each
 product added into the entry of the sum of the two indices.

 The code as written does not do this (see MultiplyAsWritten); the product
 it is meant to compute is `Product`, and `MultiplyNaive` is the loop
 corrected to compute it.
 */
module PolynomialMultiplier {
  import opened Results
  import opened Decimals
  import opened Series
  import opened Polynomials

  /** The term a_i·b_{k-i} when both indices are in range, else zero. */
  function Term(a: seq<Decimal>, b: seq<Decimal>, i: nat, k: nat): (t: Decimal)
    ensures Value(t) == Get(Values(a), i) * (if i <= k then Get(Values(b), k - i) else 0.0)
  {
    GetValues(a, i);
    if i <= k then
      GetValues(b, k - i);
      if i < |a| && k - i < |b| then Decimals.Multiply(a[i], b[k - i]) else Zero
    else Zero
  }

  /** The k-th coefficient of the product, summed over the first n entries of a. */
  function Conv(a: seq<Decimal>, b: seq<Decimal>, k: nat, n: nat): (r: Decimal)
    requires n <= |a|
    ensures Value(r) == Convolution(Values(a), Values(b), k, n)
  {
    if n == 0 then Zero else Add(Conv(a, b, k, n - 1), Term(a, b, n - 1, k))
  }

  /** Adding an out-of-range term leaves a partial sum exactly as it was. */
  lemma ConvSkip(a: seq<Decimal>, b: seq<Decimal>, k: nat, n: nat)
    requires n < |a| && (k < n || k - n >= |b|)
    ensures Conv(a, b, k, n + 1) == Conv(a, b, k, n)
  {
    AddZero(Conv(a, b, k, n));
  }

  /** Row i contributes a_i·b_{k-i} to coefficient k, one corrected update. */
  lemma ConvStep(a: seq<Decimal>, b: seq<Decimal>, k: nat, i: nat)
    requires i < |a| && i <= k && k - i < |b|
    ensures Conv(a, b, k, i + 1) == CorrectedUpdate(Conv(a, b, k, i), a[i], b[k - i])
  {
  }

  /** The product of two coefficient arrays, |a| + |b| - 1 entries long. */
  function ProductCoefficients(a: seq<Decimal>, b: seq<Decimal>): (cs: seq<Decimal>)
    requires |a| > 0 && |b| > 0
    ensures |cs| == |a| + |b| - 1
    ensures Values(cs) == PartialProduct(Values(a), Values(b), |a|, |a| + |b| - 1)
  {
    var n := |a| + |b| - 1;
    seq(n, k requires 0 <= k < n => Conv(a, b, k, |a|))
  }

  /** The product of p1 and p2, over their first length() coefficients. */
  function Product(p1: Polynomial, p2: Polynomial): (r: Polynomial)
    ensures |r.coefficients| == Length(p1) + Length(p2) - 1
  {
    Polynomial(ProductCoefficients(Significant(p1), Significant(p2)))
  }

  /** The product's value at every point is the product of the two values. */
  lemma ProductValue(p1: Polynomial, p2: Polynomial, x: real)
    ensures ValueAt(Product(p1, p2), x) == ValueAt(p1, x) * ValueAt(p2, x)
  {
    var a, b := Significant(p1), Significant(p2);
    var u, v := Values(a), Values(b);
    var w := PartialProduct(u, v, |a|, |a| + |b| - 1);
    assert Values(Product(p1, p2).coefficients) == w;
    ProductEval(u, v, x);
    assert ValueAt(Product(p1, p2), x) == Eval(u, x) * Eval(v, x);
    ValueOfSignificant(p1, x);
    ValueOfSignificant(p2, x);
  }

  /**
   Unless one factor is numerically zero, the degree of the product is the
   sum of the degrees: the top coefficient is the product of the two
   leading ones.
   */
  lemma ProductDegree(p1: Polynomial, p2: Polynomial)
    requires !IsZeroValued(p1) && !IsZeroValued(p2)
    ensures Degree(Product(p1, p2)) == Degree(p1) + Degree(p2)
  {
    var a, b := Significant(p1), Significant(p2);
    var cs := Product(p1, p2).coefficients;
    var top := |a| + |b| - 2;
    LeadingCoefficient(p1);
    LeadingCoefficient(p2);
    assert a[|a| - 1] == p1.coefficients[Degree(p1)];
    assert b[|b| - 1] == p2.coefficients[Degree(p2)];
    TopCoefficient(a, b);
    SameDegree(cs, top);
  }

  /** The top entry of the product is the product of the two top entries. */
  lemma TopCoefficient(a: seq<Decimal>, b: seq<Decimal>)
    requires |a| > 0 && |b| > 0
    requires !IsZero(a[|a| - 1]) && !IsZero(b[|b| - 1])
    ensures Value(ProductCoefficients(a, b)[|a| + |b| - 2]) != 0.0
  {
    var top := |a| + |b| - 2;
    var u, v := Values(a), Values(b);
    assert ProductCoefficients(a, b)[top] == Conv(a, b, top, |a|);
    TopConvolution(u, v, |a|);
    assert u[|a| - 1] == Value(a[|a| - 1]) && v[|b| - 1] == Value(b[|b| - 1]);
    NonZeroProduct(u[|a| - 1], v[|b| - 1]);
  }

  lemma NonZeroProduct(x: real, y: real)
    requires x != 0.0 && y != 0.0
    ensures x * y != 0.0
  {
  }

  /**
   multiplyViaNaive with the two evident slips mended: the entries start at
   zero instead of null, and each step adds coefficient1 · coefficient2 to
   the entry instead of multiplying (entry + coefficient1) by coefficient2.
   The inner loop is AddRow.
   */
  method MultiplyNaive(p1: Polynomial, p2: Polynomial) returns (r: Polynomial)
    ensures r == Product(p1, p2)
  {
    ghost var a, b := Significant(p1), Significant(p2);
    var n := Length(p1) + Length(p2) - 1;
    var cs: seq<Decimal> := seq(n, _ => Zero);
    var index1 := 0;
    while index1 < Length(p1)
      invariant 0 <= index1 <= Length(p1) && |cs| == n
      invariant forall k :: 0 <= k < n ==> cs[k] == Conv(a, b, k, index1)
    {
      cs := AddRow(p1, p2, cs, index1);
      index1 := index1 + 1;
    }
    assert cs == ProductCoefficients(a, b);
    r := Make(cs);
  }

  /**
   One pass of the inner loop of multiplyViaNaive, corrected: coefficient
   index1 of p1 times each coefficient of p2, added into the entries from
   index1 on. Afterwards every entry holds one more row of its sum.
   */
  method AddRow(p1: Polynomial, p2: Polynomial, cs: seq<Decimal>, index1: nat) returns (next: seq<Decimal>)
    requires index1 < Length(p1) && |cs| == Length(p1) + Length(p2) - 1
    requires forall k :: 0 <= k < |cs| ==> cs[k] == Conv(Significant(p1), Significant(p2), k, index1)
    ensures |next| == |cs|
    ensures forall k :: 0 <= k < |cs| ==> next[k] == Conv(Significant(p1), Significant(p2), k, index1 + 1)
  {
    ghost var a, b := Significant(p1), Significant(p2);
    next := cs;
    var index2 := 0;
    while index2 < Length(p2)
      invariant 0 <= index2 <= Length(p2) && |next| == |cs|
      invariant forall k :: 0 <= k < |cs| ==>
        next[k] == if index1 <= k < index1 + index2 then Conv(a, b, k, index1 + 1) else Conv(a, b, k, index1)
    {
      var coefficient1 := GetCoefficient(p1, index1).value;
      var coefficient2 := GetCoefficient(p2, index2).value;
      var k := index1 + index2;
      assert coefficient1 == a[index1] && coefficient2 == b[index2];
      ConvStep(a, b, k, index1);
      next := next[k := CorrectedUpdate(next[k], coefficient1, coefficient2)];
      index2 := index2 + 1;
    }
    forall k | 0 <= k < |cs| && !(index1 <= k < index1 + Length(p2))
      ensures Conv(a, b, k, index1 + 1) == Conv(a, b, k, index1)
    {
      ConvSkip(a, b, k, index1);
    }
  }

  // ---------------------------------------------------------------------------
  // The code as written

  /**
   The two loops of multiplyViaNaive over an array whose entries may be null
   (None), with the update of an entry as a parameter `step`: entry
   index1 + index2 becomes step(entry, coefficient1, coefficient2), and a
   null entry throws NullPointerException when `add` is called on it.
   */
  function Passes<T>(cells: seq<Option<T>>, a: seq<T>, b: seq<T>, step: (T, T, T) -> T, index1: nat, index2: nat)
    : (r: Result<seq<Option<T>>>)
    requires |cells| == |a| + |b| - 1
    ensures r.Ok? ==> |r.value| == |cells|
    ensures r.Err? ==> r.error == NullPointer
    decreases |a| - index1, |b| - index2
  {
    if index1 >= |a| then Ok(cells)
    else if index2 >= |b| then Passes(cells, a, b, step, index1 + 1, 0)
    else
      var k := index1 + index2;
      match cells[k]
      case None => Err(NullPointer)
      case Some(entry) =>
        Passes(cells[k := Some(step(entry, a[index1], b[index2]))], a, b, step, index1, index2 + 1)
  }

  /** The update multiplyViaNaive performs: (entry + coefficient1) · coefficient2. */
  function Update(entry: Decimal, c1: Decimal, c2: Decimal): (r: Decimal)
    ensures Value(r) == (Value(entry) + Value(c1)) * Value(c2)
  {
    Decimals.Multiply(Add(entry, c1), c2)
  }

  /** The update the product needs: entry + coefficient1 · coefficient2. */
  function CorrectedUpdate(entry: Decimal, c1: Decimal, c2: Decimal): (r: Decimal)
    ensures Value(r) == Value(entry) + Value(c1) * Value(c2)
  {
    Add(entry, Decimals.Multiply(c1, c2))
  }

  /** An array of n entries, each holding v. */
  function Filled<T>(n: nat, v: Option<T>): (cells: seq<Option<T>>)
    ensures |cells| == n && forall k :: 0 <= k < n ==> cells[k] == v
  {
    seq(n, _ => v)
  }

  /**
   A Polynomial object as its constructor leaves it when the array handed to
   it may hold nulls: the stored array and the degree computeDegree found.
   */
  datatype Constructed = Constructed(cells: seq<Option<Decimal>>, degree: nat)

  /** The entries of an array none of which is null. */
  function Present(cs: seq<Decimal>): (cells: seq<Option<Decimal>>)
    ensures |cells| == |cs| && forall k :: 0 <= k < |cs| ==> cells[k] == Some(cs[k])
  {
    seq(|cs|, k requires 0 <= k < |cs| => Some(cs[k]))
  }

  /**
   The scan of computeDegree below index i meets a null before any non-zero
   entry: some entry k is null and every entry above it is a zero.
   */
  predicate NullOnScan(cells: seq<Option<Decimal>>, i: nat)
    requires i <= |cells|
  {
    exists k :: 0 <= k < i && cells[k].None? &&
      forall j :: k < j < i ==> cells[j].Some? && IsZero(cells[j].value)
  }

  /**
   computeDegree over the entries below index i of an array that may hold
   nulls. It walks down from the top and stops at the first non-zero entry;
   it reads every entry's scale on the way, so a null it reaches throws. Nulls
   below the entry it stops at are never read.
   */
  function ScanDegree(cells: seq<Option<Decimal>>, i: nat): (r: Result<nat>)
    requires i <= |cells|
    ensures r.Err? ==> r.error == NullPointer
    ensures r.Err? <==> NullOnScan(cells, i)
    ensures r.Ok? && i > 0 ==> r.value < i && cells[r.value].Some?
    ensures r.Ok? ==> forall j :: r.value < j < i ==> cells[j].Some? && IsZero(cells[j].value)
    ensures r.Ok? && r.value > 0 ==> r.value < i && cells[r.value].Some? && !IsZero(cells[r.value].value)
    decreases i
  {
    if i == 0 then Ok(0)
    else match cells[i - 1]
      case None => Err(NullPointer)
      case Some(c) =>
        if !IsZero(c) then Ok(i - 1)
        else
          var r := ScanDegree(cells, i - 1);
          assert r.Err? ==> NullOnScan(cells, i) by {
            if r.Err? {
              var k :| 0 <= k < i - 1 && cells[k].None? &&
                forall j :: k < j < i - 1 ==> cells[j].Some? && IsZero(cells[j].value);
              assert forall j :: k < j < i ==> cells[j].Some? && IsZero(cells[j].value);
            }
          }
          r
  }

  /**
   The Polynomial constructor on an array that may hold nulls: an empty array
   gives [BigDecimal.ZERO]; any other is kept, and computeDegree throws when
   its scan meets a null. An array whose nulls all lie below its highest
   non-zero entry is accepted, nulls and all.
   */
  function Construct(cells: seq<Option<Decimal>>): (r: Result<Constructed>)
    ensures |cells| == 0 ==> r == Ok(Constructed([Some(Zero)], 0))
    ensures |cells| > 0 ==> (r.Err? <==> NullOnScan(cells, |cells|))
    ensures r.Err? ==> r.error == NullPointer
    ensures r.Ok? && |cells| > 0 ==> r.value.cells == cells && r.value.degree < |cells|
  {
    if |cells| == 0 then Ok(Constructed([Some(Zero)], 0))
    else
      var d :- ScanDegree(cells, |cells|);
      Ok(Constructed(cells, d))
  }

  /**
   On an array without nulls the constructor never throws and finds the
   degree Polynomials.DegreeOf gives.
   */
  lemma ConstructPresent(cs: seq<Decimal>)
    requires |cs| > 0
    ensures Construct(Present(cs)) == Ok(Constructed(Present(cs), DegreeOf(cs)))
  {
    var cells := Present(cs);
    var r := ScanDegree(cells, |cs|);
    assert r.Ok?;
  }

  /**
   A null below the highest non-zero entry does not make the constructor
   throw: the array [null, 5] becomes a polynomial of degree 1.
   */
  lemma NullBelowDegree(cells: seq<Option<Decimal>>)
    requires cells == [None, Some(Decimal(5, 0))]
    ensures Construct(cells) == Ok(Constructed(cells, 1))
  {
    assert ScanDegree(cells, 2) == Ok(1);
  }

  /**
   multiplyViaNaive exactly as written: the loops run over a fresh array of
   nulls, and the constructor then receives whatever they leave.
   */
  function MultiplyAsWritten(p1: Polynomial, p2: Polynomial): (r: Result<Constructed>)
    ensures r.Err? ==> r.error == NullPointer
  {
    var a, b := Significant(p1), Significant(p2);
    var cells :- Passes(Filled(|a| + |b| - 1, None), a, b, Update, 0, 0);
    Construct(cells)
  }

  /**
   Whatever the two polynomials, the first pass calls add on the null in
   entry 0, so multiplyViaNaive as written always throws.
   */
  lemma AsWrittenAlwaysFails(p1: Polynomial, p2: Polynomial)
    ensures MultiplyAsWritten(p1, p2) == Err(NullPointer)
  {
  }

  /**
   The loops on two sequences of two entries each, over an array whose three
   entries all start as z: entry 1 is updated at (0, 1) and then at (1, 0).
   */
  lemma LinearPasses<T>(z: T, a: seq<T>, b: seq<T>, step: (T, T, T) -> T)
    requires |a| == 2 && |b| == 2
    ensures var r := Passes(Filled(3, Some(z)), a, b, step, 0, 0);
      r.Ok? && |r.value| == 3 && r.value[1] == Some(step(step(z, a[0], b[1]), a[1], b[0]))
  {
    var c0 := Filled(3, Some(z));
    var c1 := c0[0 := Some(step(z, a[0], b[0]))];
    var e1 := step(z, a[0], b[1]);
    var c2 := c1[1 := Some(e1)];
    var c3 := c2[1 := Some(step(e1, a[1], b[0]))];
    var c4 := c3[2 := Some(step(z, a[1], b[1]))];
    assert Passes(c0, a, b, step, 0, 0) == Passes(c1, a, b, step, 0, 1);
    assert Passes(c1, a, b, step, 0, 1) == Passes(c2, a, b, step, 0, 2);
    assert Passes(c2, a, b, step, 0, 2) == Passes(c2, a, b, step, 1, 0);
    assert Passes(c2, a, b, step, 1, 0) == Passes(c3, a, b, step, 1, 1);
    assert Passes(c3, a, b, step, 1, 1) == Passes(c4, a, b, step, 1, 2);
    assert Passes(c4, a, b, step, 1, 2) == Passes(c4, a, b, step, 2, 0) == Ok(c4);
  }

  /**
   multiplyViaNaive's loops on linear factors a0 + a1·x and b0 + b1·x, over
   an array already holding zeros: entry 1 ends as the as-written update
   applied at (0, 1) and then at (1, 0).
   */
  lemma ZeroFilledLinear(a: seq<Decimal>, b: seq<Decimal>)
    requires |a| == 2 && |b| == 2
    ensures var r := Passes(Filled(3, Some(Zero)), a, b, Update, 0, 0);
      r.Ok? && r.value[1] == Some(Update(Update(Zero, a[0], b[1]), a[1], b[0]))
    ensures var r := Passes(Filled(3, Some(Zero)), a, b, CorrectedUpdate, 0, 0);
      r.Ok? && r.value[1] == Some(CorrectedUpdate(CorrectedUpdate(Zero, a[0], b[1]), a[1], b[0]))
  {
    LinearPasses(Zero, a, b, Update);
    LinearPasses(Zero, a, b, CorrectedUpdate);
  }

  /**
   One as-written update overshoots the corrected one by entry · (c2 - 1):
   the two agree only while the entry is zero or c2 is one.
   */
  lemma UpdateGap(entry: Decimal, c1: Decimal, c2: Decimal)
    ensures Value(Update(entry, c1, c2)) - Value(CorrectedUpdate(entry, c1, c2)) == Value(entry) * (Value(c2) - 1.0)
  {
    Gap(Value(Update(entry, c1, c2)), Value(CorrectedUpdate(entry, c1, c2)), Value(entry), Value(c1), Value(c2));
  }

  lemma Gap(u: real, p: real, e: real, c1: real, c2: real)
    requires u == (e + c1) * c2 && p == e + c1 * c2
    ensures u - p == e * (c2 - 1.0)
  {
  }

  /** On a zero entry the two updates agree exactly, scale included. */
  lemma FirstVisitAgrees(c1: Decimal, c2: Decimal)
    ensures Update(Zero, c1, c2) == CorrectedUpdate(Zero, c1, c2) == Decimals.Multiply(c1, c2)
  {
    AddZero(c1);
    AddZero(Decimals.Multiply(c1, c2));
  }

  /**
   So filling the array with zeros is not enough: on linear factors the
   as-written entry 1 (ZeroFilledLinear) exceeds the corrected one, which is
   the product's a0·b1 + a1·b0, by a0·b1·(b0 - 1). For (1 + x)(2 + 2x) that
   is 6 instead of 4 (OneTwo).
   */
  lemma ZeroFilledStillWrong(a0: Decimal, a1: Decimal, b0: Decimal, b1: Decimal)
    ensures Value(Update(Update(Zero, a0, b1), a1, b0)) -
      Value(CorrectedUpdate(CorrectedUpdate(Zero, a0, b1), a1, b0)) ==
      Value(Decimals.Multiply(a0, b1)) * (Value(b0) - 1.0)
  {
    FirstVisitAgrees(a0, b1);
    UpdateGap(Decimals.Multiply(a0, b1), a1, b0);
  }

  /**
   The example above on the loops themselves: for (1 + x)(2 + 2x), at any
   scales, over a zero-filled array, entry 1 ends as 6 as written and as 4,
   the product's coefficient of x, corrected.
   */
  lemma OneTwo(one: Decimal, two: Decimal)
    requires Value(one) == 1.0 && Value(two) == 2.0
    ensures var r := Passes(Filled(3, Some(Zero)), [one, one], [two, two], Update, 0, 0);
      r.Ok? && r.value[1].Some? && Value(r.value[1].value) == 6.0
    ensures var r := Passes(Filled(3, Some(Zero)), [one, one], [two, two], CorrectedUpdate, 0, 0);
      r.Ok? && r.value[1].Some? && Value(r.value[1].value) == 4.0
  {
    var a, b := [one, one], [two, two];
    ZeroFilledLinear(a, b);
    var e := Update(Zero, one, two);
    assert Value(e) == 2.0;
    assert Value(Update(e, one, two)) == 6.0;
    var f := CorrectedUpdate(Zero, one, two);
    assert Value(f) == 2.0;
    assert Value(CorrectedUpdate(f, one, two)) == 4.0;
  }
}
