# Polynomial.java in Dafny

A model of the core of coderodde's `Polynomial.java`, a library of
polynomials with `java.math.BigDecimal` coefficients. The model covers:

- the immutable `Polynomial` value type: construction, degree, `length()`,
  Horner evaluation, `getCoefficient`, `sum`, `negate`, `derivate`,
  `integrate`, `shift`, `setLength`, `setScale`, `equals` and
  `approximateEquals`;
- its sparse `Builder`;
- `Utils.getClosestUpwardPowerOfTwo`;
- `ComplexNumber` and `ComplexPolynomial`, the scaffolding for a Fourier
  transform;
- `PolynomialMultiplier.multiplyViaNaive`, the schoolbook product.

`BigDecimal` is modelled as `Decimal(unscaled, scale)`. Its `equals`
compares unscaled value and scale, which is the datatype's structural
equality. Its numerical value is the exact rational `Value(d)`, which
`compareTo` uses. Java exceptions become the `Err` side of a `Result`, and
a Java `null` becomes `None`.

Files and modules:

| file | module | what it holds |
|---|---|---|
| results.dfy | `Results` | the exceptions, `Result` and `Option` |
| decimals.dfy | `Decimals` | `BigDecimal`: add, subtract, multiply, compareTo, setScale, ceiling division |
| series.dfy | `Series` | real coefficient sequences: evaluation, linearity, shifts and the schoolbook product, used as the meaning of polynomials |
| polynomials.dfy | `Polynomials` | the `Polynomial` class |
| builder.dfy | `PolynomialBuilder` | `Polynomial.Builder` |
| utils.dfy | `Utils` | `getClosestUpwardPowerOfTwo` with Java `int` wrap-around |
| complex_numbers.dfy | `ComplexNumbers` | `ComplexNumber` |
| complex_polynomials.dfy | `ComplexPolynomials` | `ComplexPolynomial` |
| multiplier.dfy | `PolynomialMultiplier` | `multiplyViaNaive`, as written and corrected |

The degree is computed from the stored array, as `computeDegree` does: the
highest index whose coefficient is numerically non-zero, whatever its
scale. `length()` is the degree plus one. Every operation except
`evaluate` and `getCoefficient` reads only the first `length()` entries.
Evaluation and `getCoefficient` read the whole stored array.

Notes on behaviour that a reader of the method names might not expect; the
model follows the code in each:

- `getCoefficient(i)` accepts every index of the stored array and throws
  `IllegalArgumentException` outside it. It does not reject indices above
  the degree.
- A null evaluation point or integration constant is rejected by
  `Objects.requireNonNull`, so the model returns `NullPointer`, not an
  invalid-argument error.
- `integrate` divides with `RoundingMode.CEILING` at the coefficient's own
  scale. It does not round away from zero.
- `approximateEquals` is false as soon as the two degrees differ. It does
  not zero-extend the shorter polynomial.
- `setScale` takes no rounding mode. A scale that would need rounding
  throws `ArithmeticException`.
- The code has no `minimizeDegree` and no FFT product. The Karatsuba
  product `multiplyViaKaratsuba` is called from the demo and the tests but
  is not defined in `PolynomialMultiplier.java`.
- The test `ComplexNumberTest.substract` calls a method `ComplexNumber`
  does not have.

## Model

Source paths are relative to the repository root.

| member | source | states |
|---|---|---|
| Decimals.Add | src/main/java/com/github/coderodde/math/Polynomial.java:153-156 | `BigDecimal.add`: the value is the sum of the values; the scale is the larger of the two |
| Decimals.Subtract | src/main/java/com/github/coderodde/math/Polynomial.java:525 | `BigDecimal.subtract`: the value is the difference; the scale is the larger of the two |
| Decimals.Multiply | src/main/java/com/github/coderodde/math/Polynomial.java:400 | `BigDecimal.multiply`: the value is the product; the scale is the sum of the scales |
| Decimals.Negate | src/main/java/com/github/coderodde/math/Polynomial.java:293 | `BigDecimal.negate`: the opposite value at the same scale |
| Decimals.Abs | src/main/java/com/github/coderodde/math/Polynomial.java:526 | `BigDecimal.abs`: the absolute value at the same scale |
| Decimals.CompareTo | src/main/java/com/github/coderodde/math/Polynomial.java:527 | `compareTo` is -1, 0 or 1 exactly when the first value is less than, equal to or greater than the second |
| Decimals.SetScale | src/main/java/com/github/coderodde/math/Polynomial.java:278 | `setScale(s)` keeps the value at scale s, and throws `ArithmeticException` exactly when no decimal of scale s has that value |
| Decimals.SetScaleOwnScale | src/main/java/com/github/coderodde/math/Polynomial.java:278 | re-scaling to a decimal's own scale returns it unchanged |
| Decimals.IsZero | src/main/java/com/github/coderodde/math/Polynomial.java:489-494 | the test against `ZERO.setScale(scale)` holds exactly when the value is zero, whatever the scale |
| Decimals.ValueOf | src/main/java/com/github/coderodde/math/Polynomial.java:611-612 | `BigDecimal.valueOf(long)` is the integer at scale 0 |
| Decimals.AddZero | src/main/java/com/github/coderodde/math/Polynomial.java:153-156 | adding `BigDecimal.ZERO` on either side gives back the same decimal, scale included |
| Decimals.AddCommutes | src/main/java/com/github/coderodde/math/Polynomial.java:153-156 | addition is commutative, scale included |
| Decimals.DivideCeiling | src/main/java/com/github/coderodde/math/Polynomial.java:386-395 | the quotient keeps the coefficient's scale and is the least decimal of that scale that is no smaller than the exact quotient |
| Decimals.DivideCeilingExact | src/main/java/com/github/coderodde/math/Polynomial.java:386-395 | when n divides the unscaled value, the quotient times n is the coefficient again |
| Decimals.DivideCeilingInexact | src/main/java/com/github/coderodde/math/Polynomial.java:386-395 | when n does not divide the unscaled value, the quotient times n is not the coefficient |
| Polynomials.Make | src/main/java/com/github/coderodde/math/Polynomial.java:51-60 | an empty argument list gives the zero polynomial `[ZERO]` of degree 0; any other array is kept as given |
| Polynomials.DegreeOf | src/main/java/com/github/coderodde/math/Polynomial.java:486-499 | the degree is an index of the array; every entry above it is numerically zero; the entry at it is non-zero unless the degree is 0 |
| Polynomials.Length | src/main/java/com/github/coderodde/math/Polynomial.java:108-110 | `length()` lies between 1 and the stored array's length |
| Polynomials.Evaluate | src/main/java/com/github/coderodde/math/Polynomial.java:70-79 | Horner's rule over the stored array gives exactly the sum of c_i·x^i; a null x gives `NullPointer` |
| Polynomials.EvaluateZeroPolynomial | src/main/java/com/github/coderodde/math/Polynomial.java:51-79 | the polynomial built from no coefficients has degree 0 and length 1, and evaluates to exactly `ZERO` |
| Polynomials.GetCoefficient | src/main/java/com/github/coderodde/math/Polynomial.java:88-101 | succeeds exactly on the indices of the stored array, returning that entry; otherwise `IllegalArgument` |
| Polynomials.CoefficientsPastDegree | src/main/java/com/github/coderodde/math/Polynomial.java:88-110 | an index between `length()` and the end of the stored array succeeds and reads a zero-valued entry |
| Polynomials.Sum | src/main/java/com/github/coderodde/math/Polynomial.java:120-167 | the longer length; the entrywise sum below the shorter length; the longer operand's entries above it |
| Polynomials.SumCommutes | src/main/java/com/github/coderodde/math/Polynomial.java:120-167 | `p.sum(q)` and `q.sum(p)` are the same polynomial |
| Polynomials.SumValue | src/main/java/com/github/coderodde/math/Polynomial.java:120-167 | the sum's value at every x is the sum of the two values |
| Polynomials.SumZero | src/main/java/com/github/coderodde/math/Polynomial.java:120-167 | adding the zero polynomial gives a polynomial `equals` to the original |
| Polynomials.DegreeOfPrefix | src/main/java/com/github/coderodde/math/Polynomial.java:486-499 | cutting the stored array at `length()` keeps the degree |
| Polynomials.Negate | src/main/java/com/github/coderodde/math/Polynomial.java:289-297 | `length()` entries, each the negated value at the same scale; the degree is kept |
| Polynomials.NegateValue | src/main/java/com/github/coderodde/math/Polynomial.java:289-297 | the negation's value at every x is minus the value |
| Polynomials.NegateTwice | src/main/java/com/github/coderodde/math/Polynomial.java:289-297 | negating twice gives a polynomial `equals` to the original |
| Polynomials.DerivateTerm | src/main/java/com/github/coderodde/math/Polynomial.java:397-401 | `getDerivateCoefficient` keeps the coefficient's scale |
| Polynomials.DerivateTermValue | src/main/java/com/github/coderodde/math/Polynomial.java:397-401 | the term is worth n times the coefficient, and is zero exactly when the coefficient is |
| Polynomials.Derivate | src/main/java/com/github/coderodde/math/Polynomial.java:304-318 | a constant has the zero polynomial as derivative; otherwise `length()-1` entries, entry i worth (i+1)·c_{i+1} at c_{i+1}'s scale, and the degree drops by one |
| Polynomials.Integrate | src/main/java/com/github/coderodde/math/Polynomial.java:328-347 | a null constant gives `NullPointer`; otherwise `length()+1` entries: the constant, then c_i / (i+1) rounded up at c_i's scale |
| Polynomials.IntegrateWithZero | src/main/java/com/github/coderodde/math/Polynomial.java:354-356 | `integrate()` is `integrate(ZERO)` |
| Polynomials.DerivateIntegrate | src/main/java/com/github/coderodde/math/Polynomial.java:304-347 | when every division is exact, the derivative of the integral `equals` a non-zero polynomial |
| Polynomials.IntegralDegree | src/main/java/com/github/coderodde/math/Polynomial.java:328-347 | with exact divisions, integrating a non-zero polynomial raises its degree by one |
| Polynomials.DerivateOfExactIntegral | src/main/java/com/github/coderodde/math/Polynomial.java:304-347 | with exact divisions and a non-zero polynomial, the derivative of the integral has exactly the first `length()` coefficients, scales included |
| Polynomials.DerivateIntegrateZero | src/main/java/com/github/coderodde/math/Polynomial.java:304-347 | for a numerically zero polynomial, the derivative of the integral is [`ZERO`], and is `equals` to the polynomial exactly when its constant is `ZERO` itself |
| Polynomials.DerivateIntegrateInexact | src/main/java/com/github/coderodde/math/Polynomial.java:304-395 | once one division rounds, the derivative of the integral is not `equals` to the polynomial |
| Polynomials.Shift | src/main/java/com/github/coderodde/math/Polynomial.java:367-384 | m zeros followed by the first `length()` entries; a negative m throws `NegativeArraySizeException` or `IndexOutOfBoundsException` |
| Polynomials.ShiftValue | src/main/java/com/github/coderodde/math/Polynomial.java:367-384 | shifting by m multiplies the value at x by x^m |
| Polynomials.ShiftDegree | src/main/java/com/github/coderodde/math/Polynomial.java:367-384 | shifting a non-zero polynomial by m raises its degree by m |
| Polynomials.SetLength | src/main/java/com/github/coderodde/math/Polynomial.java:463-484 | the receiver itself when n <= `length()`; otherwise the first `length()` entries padded with `ZERO` to n |
| Polynomials.SetLengthKeepsPolynomial | src/main/java/com/github/coderodde/math/Polynomial.java:463-484 | padding keeps the degree, `equals` and the value |
| Polynomials.SetScale | src/main/java/com/github/coderodde/math/Polynomial.java:274-282 | `ArithmeticException` exactly when some coefficient cannot be re-scaled; otherwise every coefficient at the new scale with its value kept, and the degree kept |
| Polynomials.SetScaleValue | src/main/java/com/github/coderodde/math/Polynomial.java:274-282 | a successful re-scale keeps the value at every x |
| Polynomials.SetScaleIdempotent | src/main/java/com/github/coderodde/math/Polynomial.java:274-282 | re-scaling twice to the same scale is re-scaling once |
| Polynomials.SetScaleUpSucceeds | src/main/java/com/github/coderodde/math/Polynomial.java:274-282 | raising every scale never needs rounding, so it succeeds |
| Polynomials.Equals | src/main/java/com/github/coderodde/math/Polynomial.java:210-236 | `equals` holds exactly when the first `length()` entries agree in value and scale |
| Polynomials.EqualsIsEquivalence | src/main/java/com/github/coderodde/math/Polynomial.java:210-236 | `equals` is reflexive, symmetric and transitive |
| Polynomials.EqualsSameValue | src/main/java/com/github/coderodde/math/Polynomial.java:210-236 | polynomials that are `equals` take the same value everywhere |
| Polynomials.ApproximatelyEquals | src/main/java/com/github/coderodde/math/Polynomial.java:522-528 | holds exactly when the two values differ by less than epsilon |
| Polynomials.ApproximateEquals | src/main/java/com/github/coderodde/math/Polynomial.java:238-264 | false when the degrees differ; otherwise holds exactly when every pair of coefficients below `length()` differs by less than epsilon |
| Polynomials.EqualsImpliesApproximateEquals | src/main/java/com/github/coderodde/math/Polynomial.java:210-264 | with a positive epsilon, polynomials that are `equals` are approximately equal |
| Polynomials.ApproximateEqualsSelf | src/main/java/com/github/coderodde/math/Polynomial.java:247-263 | compared by value with itself, a polynomial is approximately equal exactly when epsilon is positive |
| Polynomials.ApproximateEqualsSymmetric | src/main/java/com/github/coderodde/math/Polynomial.java:238-264 | approximate equality is symmetric |
| PolynomialBuilder.Add | src/main/java/com/github/coderodde/math/Polynomial.java:572-583 | `add` maps the index to the coefficient, keeps every other entry, and raises the maximum index to at least the index |
| PolynomialBuilder.AddLong | src/main/java/com/github/coderodde/math/Polynomial.java:608-613 | `add(index, long)` records the integer at scale 0 |
| PolynomialBuilder.Build | src/main/java/com/github/coderodde/math/Polynomial.java:620-642 | a negative size throws first; no entries gives the zero polynomial; an index outside the array throws; otherwise the maximum index plus one entries, each the recorded coefficient or `ZERO` |
| PolynomialBuilder.LastAtSpec | src/main/java/com/github/coderodde/math/Polynomial.java:579-580 | the last pair naming an index is found exactly when some pair names it, and no later pair overrides it |
| PolynomialBuilder.AddAllEntries | src/main/java/com/github/coderodde/math/Polynomial.java:572-583 | after a sequence of adds, each index holds the last coefficient added there, and the maximum is the largest index |
| PolynomialBuilder.BuildAfterAdds | src/main/java/com/github/coderodde/math/Polynomial.java:572-642 | after a non-empty sequence of adds, `build` fails exactly when some index was negative; otherwise each entry is the last coefficient added at its index, or `ZERO` |
| Utils.WrapInt | src/main/java/com/github/coderodde/math/Utils.java:87 | the Java `int` result lies in the int range and is congruent to the exact result modulo 2^32 |
| Utils.ClosestUpwardPowerOfTwo | src/main/java/com/github/coderodde/math/Utils.java:83-91 | for n <= 2^30: a power of two, at least n, and no larger than any power of two at least n; 1 for n <= 1; n itself when n is a power of two |
| Utils.ClosestUpwardPowerOfTwoLoop | src/main/java/com/github/coderodde/math/Utils.java:83-91 | the `while` loop, doubling with int wrap-around from 1 while m < n, returns the least power of two at least n (`ClosestUpwardPowerOfTwo`) |
| Utils.ClosestUpwardPowerOfTwoIdempotent | src/main/java/com/github/coderodde/math/Utils.java:83-91 | rounding up twice is rounding up once |
| Utils.DoublingNeverReaches | src/main/java/com/github/coderodde/math/Utils.java:86-88 | for n above 2^30 the loop variable stays below n after every pass, so the loop never ends |
| ComplexNumbers.FromReal | src/main/java/com/github/coderodde/math/ComplexNumber.java:36-38 | `ComplexNumber(re)` has real part re and imaginary part `ZERO` |
| ComplexNumbers.Multiply | src/main/java/com/github/coderodde/math/ComplexNumber.java:48-59 | each part of the product carries the scale `BigDecimal` arithmetic gives it |
| ComplexNumbers.MultiplyValue | src/main/java/com/github/coderodde/math/ComplexNumber.java:48-59 | the parts are worth (ac - bd) and (ad + bc) |
| ComplexNumbers.MultiplyCommutes | src/main/java/com/github/coderodde/math/ComplexNumber.java:48-59 | the product is commutative, scales included |
| ComplexNumbers.UnitIsIdentity | src/main/java/com/github/coderodde/math/ComplexNumber.java:24-59 | `ComplexNumber()`, which is 1 + 0i, is a unit for the product in value |
| ComplexNumbers.MultiplyExample | src/test/java/com/github/coderodde/math/ComplexNumberTest.java:10-21 | (3 + 2i)(4 - i) = 14 + 5i, both parts at scale 2 |
| ComplexPolynomials.New | src/main/java/com/github/coderodde/math/ComplexPolynomial.java:16-18 | n unwritten (null) slots; a negative n throws `NegativeArraySizeException` |
| ComplexPolynomials.Lift | src/main/java/com/github/coderodde/math/ComplexPolynomial.java:20-26 | `length()` slots, slot i holding c_i with imaginary part zero |
| ComplexPolynomials.RealParts | src/main/java/com/github/coderodde/math/ComplexPolynomial.java:20-26 | the specification inverse of the `ComplexPolynomial(Polynomial)` constructor, with no Java counterpart: the real parts of a complete complex polynomial, slot by slot |
| ComplexPolynomials.LiftRealParts | src/main/java/com/github/coderodde/math/ComplexPolynomial.java:20-26 | the real parts of the lifted polynomial are its first `length()` coefficients again, so it `equals` the original |
| ComplexPolynomials.Grow | src/main/java/com/github/coderodde/math/ComplexPolynomial.java:28-56 | the least power-of-two length no smaller than the original; the original slots, then zeros; the receiver itself when its length is a power of two |
| ComplexPolynomials.GrowIdempotent | src/main/java/com/github/coderodde/math/ComplexPolynomial.java:28-56 | growing twice is growing once |
| ComplexPolynomials.Set | src/main/java/com/github/coderodde/math/ComplexPolynomial.java:58-62 | replaces exactly one slot; an index outside the array throws |
| ComplexPolynomials.SetOverwrites | src/main/java/com/github/coderodde/math/ComplexPolynomial.java:58-62 | a second `set` at the same index overwrites the first |
| ComplexPolynomials.Split | src/main/java/com/github/coderodde/math/ComplexPolynomial.java:66-90 | even length: the even-indexed and the odd-indexed slots, half as many each; odd length: the last write overruns the first half |
| ComplexPolynomials.SplitByWalking | src/main/java/com/github/coderodde/math/ComplexPolynomial.java:66-90 | the alternating loop computes `Split`, the error case included |
| ComplexPolynomials.Interleave | src/main/java/com/github/coderodde/math/ComplexPolynomial.java:66-90 | the specification inverse of `split`, with no Java counterpart (the class never reassembles halves): two halves taken alternately, twice their length |
| ComplexPolynomials.InterleaveSplit | src/main/java/com/github/coderodde/math/ComplexPolynomial.java:66-90 | interleaving the halves of a split gives back the slots |
| ComplexPolynomials.SplitInterleave | src/main/java/com/github/coderodde/math/ComplexPolynomial.java:66-90 | splitting an interleaving gives back the two halves |
| PolynomialMultiplier.Term | src/main/java/com/github/coderodde/math/PolynomialMultiplier.java:38-44 | the term a_i·b_{k-i} is worth the product of the two values, or zero outside the arrays |
| PolynomialMultiplier.Conv | src/main/java/com/github/coderodde/math/PolynomialMultiplier.java:30-46 | the k-th product coefficient summed over the first n rows is worth the convolution sum |
| PolynomialMultiplier.ProductCoefficients | src/main/java/com/github/coderodde/math/PolynomialMultiplier.java:23-46 | n1 + n2 - 1 entries, worth the schoolbook product of the two value sequences |
| PolynomialMultiplier.Product | src/main/java/com/github/coderodde/math/PolynomialMultiplier.java:23-28 | the product array has `p1.length() + p2.length() - 1` entries |
| PolynomialMultiplier.ProductValue | src/main/java/com/github/coderodde/math/PolynomialMultiplier.java:21-49 | the product's value at every x is the product of the two values |
| PolynomialMultiplier.ProductDegree | src/main/java/com/github/coderodde/math/PolynomialMultiplier.java:21-49 | for factors that are not numerically zero, the degree of the product is the sum of the degrees |
| PolynomialMultiplier.TopCoefficient | src/main/java/com/github/coderodde/math/PolynomialMultiplier.java:41-44 | the top entry of the product is non-zero when both top entries are |
| PolynomialMultiplier.MultiplyNaive | src/main/java/com/github/coderodde/math/PolynomialMultiplier.java:21-49 | the nested loops, with the array zero-filled and the update corrected, compute `Product` |
| PolynomialMultiplier.AddRow | src/main/java/com/github/coderodde/math/PolynomialMultiplier.java:34-45 | one pass of the inner loop adds row index1 to every entry of the array |
| PolynomialMultiplier.Passes | src/main/java/com/github/coderodde/math/PolynomialMultiplier.java:30-46 | the loops over an array that may hold nulls: the length is kept, and the only failure is `NullPointer` |
| PolynomialMultiplier.Update | src/main/java/com/github/coderodde/math/PolynomialMultiplier.java:41-44 | the update as written is worth (entry + c1)·c2 |
| PolynomialMultiplier.CorrectedUpdate | src/main/java/com/github/coderodde/math/PolynomialMultiplier.java:41-44 | the corrected update is worth entry + c1·c2 |
| PolynomialMultiplier.ScanDegree | src/main/java/com/github/coderodde/math/Polynomial.java:486-499 | over an array that may hold nulls, `computeDegree` throws `NullPointerException` exactly when its downward scan meets a null before a non-zero entry; otherwise it finds the highest non-zero index, or 0 |
| PolynomialMultiplier.Construct | src/main/java/com/github/coderodde/math/Polynomial.java:51-60 | the constructor keeps a non-empty array and throws exactly when `computeDegree` meets a null; an empty array gives [`ZERO`] |
| PolynomialMultiplier.ConstructPresent | src/main/java/com/github/coderodde/math/Polynomial.java:486-499 | on an array without nulls the constructor never throws, and it finds the same degree as `Polynomials.DegreeOf` |
| PolynomialMultiplier.NullBelowDegree | src/main/java/com/github/coderodde/math/Polynomial.java:486-499 | the array [null, 5] is accepted with degree 1, because the scan stops at 5 |
| PolynomialMultiplier.MultiplyAsWritten | src/main/java/com/github/coderodde/math/PolynomialMultiplier.java:21-49 | the as-written method can fail only with `NullPointerException` |
| PolynomialMultiplier.AsWrittenAlwaysFails | src/main/java/com/github/coderodde/math/PolynomialMultiplier.java:27-44 | as written, the method throws `NullPointerException` for every pair of polynomials |
| PolynomialMultiplier.LinearPasses | src/main/java/com/github/coderodde/math/PolynomialMultiplier.java:30-46 | on two linear factors, entry 1 is updated at (0, 1) and then at (1, 0) |
| PolynomialMultiplier.ZeroFilledLinear | src/main/java/com/github/coderodde/math/PolynomialMultiplier.java:30-46 | on a zero-filled array, entry 1 ends as two as-written updates, or as two corrected ones |
| PolynomialMultiplier.UpdateGap | src/main/java/com/github/coderodde/math/PolynomialMultiplier.java:41-44 | the as-written update exceeds the corrected one by entry·(c2 - 1) |
| PolynomialMultiplier.FirstVisitAgrees | src/main/java/com/github/coderodde/math/PolynomialMultiplier.java:41-44 | on a zero entry the two updates agree exactly, scale included |
| PolynomialMultiplier.ZeroFilledStillWrong | src/main/java/com/github/coderodde/math/PolynomialMultiplier.java:41-44 | even with a zero-filled array, entry 1 of a linear product is off by a0·b1·(b0 - 1) |
| PolynomialMultiplier.OneTwo | src/main/java/com/github/coderodde/math/PolynomialMultiplier.java:38-44 | for (1 + x)(2 + 2x) over a zero-filled array, the loops leave 6 in entry 1 with the as-written update and 4, the product's coefficient, with the corrected one |

## Left out

- The `double` entry points are not modelled, because binary floating point
  is outside the model: `DoubleBuilder`, `add(int, double)` and
  `ComplexNumber(double, double)`.
- `ComplexNumber.getPrincipalRootOfUnity` is not modelled; it uses
  `Math.cos` and `Math.sin`.
- These produce text or hashes, not polynomial values, and are not
  modelled: `toString`, `hashCode`, `powerToSuperscript` and the
  superscript table.
- `isUniformlyScaled` and `scale()` are not modelled. `isUniformlyScaled`
  compares references to `BigDecimal.ZERO`, which has no meaning for
  values.
- The reference-identity shortcut `o == this` in `equals` is not
  modelled: a polynomial is `equals` to itself anyway (`EqualsIsEquivalence`).
- Polynomials.ApproximateEquals: the shortcut `other == this` is not
  modelled. Java answers true when a polynomial is passed as its own
  argument, whatever epsilon is. The model compares values only, and answers
  false when Value(epsilon) <= 0 (`ApproximateEqualsSelf`).
- Null and foreign-class arguments to `equals` are not modelled.
- Null `other` arguments are not modelled.
- Null coefficients handed to constructors or to `set` are not modelled.
- Null epsilon arguments are not modelled: `approximateEquals(other, null)`
  on a different polynomial of the same degree throws
  `NullPointerException` at `compareTo`, and the model's epsilon is always a
  decimal.
- Null coefficients handed to `Builder.add` are not modelled: Java stores
  the null without complaint, and the model's entries are always decimals.
- Aliasing of the array handed to the constructor is not modelled.
- ComplexPolynomials.Set: Java's `set` is `void` and writes into the
  receiver's array; the model returns a new value instead. Aliasing is lost
  with it. `growToNearestPowerOfTwo` returns `this` when the length is
  already a power of two, so in Java a later `set` on its result also
  changes the original. In the model, `Grow` and the original are
  independent values.
- Negative `BigDecimal` scales are not modelled (`scale` is a `nat`).
- `int` overflow of array sizes and indices is not modelled, except in
  `getClosestUpwardPowerOfTwo`.
- Utils.ClosestUpwardPowerOfTwo: modelled only for n <= 2^30, because above
  that the Java loop never ends (proved by `Utils.DoublingNeverReaches`).
- Utils.ClosestUpwardPowerOfTwoLoop: requires n <= 2^30, for the same
  reason.
- ComplexPolynomials.Grow: requires a length of at most 2^30, for the same
  reason.
- The Karatsuba and FFT multipliers and `minimizeDegree` are not modelled.
  `PolynomialMultiplier.java` defines only `multiplyViaNaive`.
  `multiplyViaKaratsuba` is called from the demo and the tests but defined
  nowhere in the repository. FFT is mentioned only in doc comments, and
  `minimizeDegree` appears nowhere.
- Polynomials.DerivateIntegrate: states the round trip only for a
  polynomial that is not numerically zero and whose divisions are all
  exact, because the code loses it in two cases. Once a division of
  `integrate` rounds, the round trip fails (`DerivateIntegrateInexact`).
  For a numerically zero polynomial, the derivative of the integral is
  [`BigDecimal.ZERO`] at scale 0, which is `equals` to the polynomial only
  when its constant is exactly `BigDecimal.ZERO`; [0.00] does not come
  back (`DerivateIntegrateZero`).
- PolynomialMultiplier.Construct: an array whose nulls all lie below its
  highest non-zero entry is modelled as a `Constructed` object holding the
  nulls. The model's `Polynomial` has no nulls, so such an object is not
  carried into the other operations. No input of `MultiplyAsWritten`
  reaches that case, because its loops throw first.
- The demo program and the random polynomial generators of the tests are
  not modelled.
- PolynomialMultiplier.MultiplyNaive: states the corrected method, not the
  code as written; the code as written is `MultiplyAsWritten` (see
  Findings).

## Findings

| source | as written | input that shows it | evidently intended | confidence | as-written member | corrected member |
|---|---|---|---|---|---|---|
| src/main/java/com/github/coderodde/math/PolynomialMultiplier.java:27-44 | the coefficient array is allocated and never filled, so every entry starts as null, and the first update calls `add` on null | any two polynomials, e.g. 1 and 1: entry 0 is null when (0, 0) is visited | the entries start at `BigDecimal.ZERO`, as in `sum` | not executed | PolynomialMultiplier.AsWrittenAlwaysFails | PolynomialMultiplier.MultiplyNaive |
| src/main/java/com/github/coderodde/math/PolynomialMultiplier.java:41-44 | each step sets the entry to (entry + c1)·c2 | (1 + x)(2 + 2x) over a zero-filled array: entry 1 becomes (1·2 + 1)·2 = 6 | each step adds c1·c2 to the entry, giving 1·2 + 1·2 = 4 | not executed | PolynomialMultiplier.ZeroFilledStillWrong | PolynomialMultiplier.MultiplyNaive |
