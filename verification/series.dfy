/**
 Real-valued polynomials given by their coefficient sequences: the meaning the
 decimal computations of the library are measured against. `Eval` is the
 nested (Horner-shaped) value c_0 + x·(c_1 + x·(c_2 + …)) and `PowerSum` the
 textbook sum of the terms c_i·x^i; the two are shown equal once, and the
 remaining lemmas describe how `Eval` behaves under coefficient-wise linear
 combinations, shifts and products. A sequence is read as padded with zero
 coefficients beyond its end.
 */
module Series {

  /** The i-th coefficient, zero past the end. */
  function Get(vs: seq<real>, i: nat): real {
    if i < |vs| then vs[i] else 0.0
  }

  function Pow(x: real, n: nat): real {
    if n == 0 then 1.0 else x * Pow(x, n - 1)
  }

  /** c_i + x·(c_{i+1} + x·(…)): the value of the coefficients from index i on. */
  function EvalFrom(vs: seq<real>, x: real, i: nat): real
    decreases |vs| - i
  {
    if i >= |vs| then 0.0 else vs[i] + x * EvalFrom(vs, x, i + 1)
  }

  function Eval(vs: seq<real>, x: real): real {
    EvalFrom(vs, x, 0)
  }

  /** Σ_{j ≥ i} c_j·x^j. */
  function PowerSumFrom(vs: seq<real>, x: real, i: nat): real
    decreases |vs| - i
  {
    if i >= |vs| then 0.0 else vs[i] * Pow(x, i) + PowerSumFrom(vs, x, i + 1)
  }

  /** Σ_i c_i·x^i. */
  function PowerSum(vs: seq<real>, x: real): real {
    PowerSumFrom(vs, x, 0)
  }

  lemma EvalStep(vs: seq<real>, x: real, i: nat)
    ensures EvalFrom(vs, x, i) == Get(vs, i) + x * EvalFrom(vs, x, i + 1)
  {
  }

  lemma {:induction false} EvalSuffix(vs: seq<real>, x: real, i: nat)
    requires i <= |vs|
    ensures Pow(x, i) * EvalFrom(vs, x, i) == PowerSumFrom(vs, x, i)
    decreases |vs| - i
  {
    if i < |vs| {
      EvalSuffix(vs, x, i + 1);
      SuffixStep(vs[i], x, Pow(x, i), EvalFrom(vs, x, i + 1));
    }
  }

  lemma SuffixStep(c: real, x: real, p: real, e: real)
    ensures p * (c + x * e) == c * p + (x * p) * e
  {
  }

  /** Horner's nesting computes the sum of the terms c_i·x^i. */
  lemma EvalIsPowerSum(vs: seq<real>, x: real)
    ensures Eval(vs, x) == PowerSum(vs, x)
  {
    EvalSuffix(vs, x, 0);
  }

  /** w = a·u + b·v coefficient by coefficient. */
  ghost predicate Combination(w: seq<real>, u: seq<real>, v: seq<real>, a: real, b: real) {
    forall i: nat :: Get(w, i) == a * Get(u, i) + b * Get(v, i)
  }

  lemma LinearStep(ew: real, eu: real, ev: real, w0: real, u0: real, v0: real,
                   tw: real, tu: real, tv: real, a: real, b: real, x: real)
    requires ew == w0 + x * tw && eu == u0 + x * tu && ev == v0 + x * tv
    requires w0 == a * u0 + b * v0
    requires tw == a * tu + b * tv
    ensures ew == a * eu + b * ev
  {
    calc {
      ew;
      (a * u0 + b * v0) + x * (a * tu + b * tv);
      a * (u0 + x * tu) + b * (v0 + x * tv);
    }
  }

  function MaxLen(u: seq<real>, v: seq<real>, w: seq<real>): nat {
    if |u| >= |v| && |u| >= |w| then |u| else if |v| >= |w| then |v| else |w|
  }

  lemma {:induction false} EvalFromLinear(u: seq<real>, v: seq<real>, w: seq<real>, a: real, b: real, x: real, i: nat)
    requires Combination(w, u, v, a, b)
    ensures EvalFrom(w, x, i) == a * EvalFrom(u, x, i) + b * EvalFrom(v, x, i)
    decreases MaxLen(u, v, w) - i
  {
    if i < MaxLen(u, v, w) {
      EvalFromLinear(u, v, w, a, b, x, i + 1);
      EvalStep(u, x, i);
      EvalStep(v, x, i);
      EvalStep(w, x, i);
      assert Get(w, i) == a * Get(u, i) + b * Get(v, i);
      LinearStep(EvalFrom(w, x, i), EvalFrom(u, x, i), EvalFrom(v, x, i), Get(w, i), Get(u, i), Get(v, i),
                 EvalFrom(w, x, i + 1), EvalFrom(u, x, i + 1), EvalFrom(v, x, i + 1), a, b, x);
    }
  }

  /** Evaluation is linear in the coefficients: if w = a·u + b·v then w(x) = a·u(x) + b·v(x). */
  lemma EvalLinear(u: seq<real>, v: seq<real>, w: seq<real>, a: real, b: real, x: real)
    requires Combination(w, u, v, a, b)
    ensures Eval(w, x) == a * Eval(u, x) + b * Eval(v, x)
  {
    EvalFromLinear(u, v, w, a, b, x, 0);
  }

  /** The value of an entrywise sum is the sum of the values. */
  lemma EvalSum(u: seq<real>, v: seq<real>, w: seq<real>, x: real)
    requires forall i: nat :: Get(w, i) == Get(u, i) + Get(v, i)
    ensures Eval(w, x) == Eval(u, x) + Eval(v, x)
  {
    assert Combination(w, u, v, 1.0, 1.0);
    EvalLinear(u, v, w, 1.0, 1.0, x);
  }

  /** Two coefficient sequences that agree up to zero padding have the same value. */
  lemma EvalPadded(u: seq<real>, w: seq<real>, x: real)
    requires forall i: nat :: Get(w, i) == Get(u, i)
    ensures Eval(w, x) == Eval(u, x)
  {
    assert Combination(w, u, [], 1.0, 0.0);
    EvalLinear(u, [], w, 1.0, 0.0, x);
  }

  /** w holds u moved m exponents up, with zeros below. */
  ghost predicate ShiftedBy(w: seq<real>, u: seq<real>, m: nat) {
    forall i: nat :: Get(w, i) == if i < m then 0.0 else Get(u, i - m)
  }

  lemma {:induction false} EvalFromShifted(u: seq<real>, w: seq<real>, m: nat, x: real, i: nat)
    requires ShiftedBy(w, u, m) && i <= m
    ensures EvalFrom(w, x, i) == Pow(x, m - i) * EvalFrom(u, x, 0)
    decreases m - i
  {
    if i == m {
      EvalFromPadded(u, w, m, x, m);
    } else {
      EvalFromShifted(u, w, m, x, i + 1);
      EvalStep(w, x, i);
      assert Get(w, i) == 0.0;
      ShiftStep(x, Pow(x, m - (i + 1)), EvalFrom(u, x, 0));
    }
  }

  lemma ShiftStep(x: real, p: real, e: real)
    ensures 0.0 + x * (p * e) == (x * p) * e
  {
  }

  lemma {:induction false} EvalFromPadded(u: seq<real>, w: seq<real>, m: nat, x: real, i: nat)
    requires ShiftedBy(w, u, m) && m <= i
    ensures EvalFrom(w, x, i) == EvalFrom(u, x, i - m)
    decreases |w| + |u| + m - i
  {
    if i < |w| || i - m < |u| {
      EvalFromPadded(u, w, m, x, i + 1);
      EvalStep(w, x, i);
      EvalStep(u, x, i - m);
      assert Get(w, i) == Get(u, i - m);
    }
  }

  /** Prepending m zero coefficients multiplies the value by x^m. */
  lemma EvalShifted(u: seq<real>, w: seq<real>, m: nat, x: real)
    requires ShiftedBy(w, u, m)
    ensures Eval(w, x) == Pow(x, m) * Eval(u, x)
  {
    EvalFromShifted(u, w, m, x, 0);
  }

  // ---------------------------------------------------------------------------
  // Products

  /** The coefficients of v moved m exponents up. */
  function ShiftSeq(v: seq<real>, m: nat): (w: seq<real>)
    ensures |w| == m + |v| && ShiftedBy(w, v, m)
  {
    seq(m + |v|, i requires 0 <= i < m + |v| => if i < m then 0.0 else v[i - m])
  }

  /** Σ_{i<n} u_i·v_{k-i}: the k-th coefficient of u·v from the first n entries of u. */
  function Convolution(u: seq<real>, v: seq<real>, k: nat, n: nat): real {
    if n == 0 then 0.0
    else Convolution(u, v, k, n - 1) + Get(u, n - 1) * (if n - 1 <= k then Get(v, k - (n - 1)) else 0.0)
  }

  /** The first `len` coefficients of (u_0 + … + u_{n-1}·x^{n-1})·v. */
  function PartialProduct(u: seq<real>, v: seq<real>, n: nat, len: nat): (w: seq<real>)
    ensures |w| == len
  {
    seq(len, k requires 0 <= k < len => Convolution(u, v, k, n))
  }

  /** Σ_{i<n} u_i·x^i. */
  function PrefixPowerSum(u: seq<real>, x: real, n: nat): real {
    if n == 0 then 0.0 else PrefixPowerSum(u, x, n - 1) + Get(u, n - 1) * Pow(x, n - 1)
  }

  lemma {:induction false} PrefixPowerSumRest(u: seq<real>, x: real, n: nat)
    requires n <= |u|
    ensures PrefixPowerSum(u, x, n) + PowerSumFrom(u, x, n) == PowerSum(u, x)
  {
    if n > 0 {
      PrefixPowerSumRest(u, x, n - 1);
    }
  }

  lemma PrefixPowerSumIsEval(u: seq<real>, x: real)
    ensures PrefixPowerSum(u, x, |u|) == Eval(u, x)
  {
    PrefixPowerSumRest(u, x, |u|);
    EvalIsPowerSum(u, x);
  }

  /** Multiplying by (u_0 + … + u_{n-1}·x^{n-1}) one row at a time. */
  lemma {:induction false} PartialProductEval(u: seq<real>, v: seq<real>, x: real, n: nat)
    requires 0 < |u| && 0 < |v| && n <= |u|
    ensures Eval(PartialProduct(u, v, n, |u| + |v| - 1), x) == PrefixPowerSum(u, x, n) * Eval(v, x)
  {
    var len := |u| + |v| - 1;
    var w := PartialProduct(u, v, n, len);
    if n == 0 {
      EmptyProduct(u, v, len);
      EvalPadded([], w, x);
    } else {
      var m := n - 1;
      var w0 := PartialProduct(u, v, m, len);
      var s := ShiftSeq(v, m);
      PartialProductEval(u, v, x, m);
      ProductRow(u, v, m, len);
      EvalLinear(w0, s, w, 1.0, Get(u, m), x);
      EvalShifted(v, s, m, x);
      RowStep(Eval(w, x), Eval(w0, x), Eval(s, x), PrefixPowerSum(u, x, m), Get(u, m), Pow(x, m), Eval(v, x));
    }
  }

  /** With no row of u taken, every coefficient is zero. */
  lemma EmptyProduct(u: seq<real>, v: seq<real>, len: nat)
    ensures forall i: nat :: Get(PartialProduct(u, v, 0, len), i) == Get([], i)
  {
  }

  /** Taking row m of u adds u_m times v moved m exponents up. */
  lemma ProductRow(u: seq<real>, v: seq<real>, m: nat, len: nat)
    requires m < |u| && m + |v| <= len
    ensures Combination(PartialProduct(u, v, m + 1, len), PartialProduct(u, v, m, len), ShiftSeq(v, m), 1.0, Get(u, m))
  {
  }

  lemma RowStep(ew: real, ew0: real, es: real, p: real, c: real, xm: real, ev: real)
    requires ew == 1.0 * ew0 + c * es
    requires ew0 == p * ev && es == xm * ev
    ensures ew == (p + c * xm) * ev
  {
  }

  /** Evaluating the convolution of u and v gives the product of their values. */
  lemma ProductEval(u: seq<real>, v: seq<real>, x: real)
    requires 0 < |u| && 0 < |v|
    ensures Eval(PartialProduct(u, v, |u|, |u| + |v| - 1), x) == Eval(u, x) * Eval(v, x)
  {
    PartialProductEval(u, v, x, |u|);
    PrefixPowerSumIsEval(u, x);
  }

  /** Only u's last and v's last entries meet in the top coefficient. */
  lemma {:induction false} TopConvolution(u: seq<real>, v: seq<real>, n: nat)
    requires 0 < |u| && 0 < |v| && n <= |u|
    ensures Convolution(u, v, |u| + |v| - 2, n) ==
      if n == |u| then u[|u| - 1] * v[|v| - 1] else 0.0
  {
    if n > 0 {
      TopConvolution(u, v, n - 1);
    }
  }
}
