/**
 Polynomial.Builder: a sparse way to write a polynomial. The builder keeps a
 map from coefficient index to coefficient, where a later `add` at an index
 replaces the earlier one, and the largest index added so far (initially 0).
 `build` lays the map out in an array of that largest index plus one entries,
 zero wherever nothing was added.
 */
module PolynomialBuilder {
  import opened Results
  import opened Decimals
  import opened Polynomials

  datatype Builder = Builder(entries: map<int, Decimal>, maxIndex: int)

  /** A fresh builder: no entries, maximum index 0. */
  const Empty := Builder(map[], 0)

  /** add(index, coefficient): records the coefficient and widens the maximum. */
  function Add(b: Builder, i: int, c: Decimal): (r: Builder)
    ensures i in r.entries && r.entries[i] == c
    ensures r.entries.Keys == b.entries.Keys + {i}
    ensures forall j :: j in b.entries && j != i ==> r.entries[j] == b.entries[j]
    ensures r.maxIndex >= b.maxIndex && r.maxIndex >= i
    ensures r.maxIndex == b.maxIndex || r.maxIndex == i
  {
    Builder(b.entries[i := c], if b.maxIndex < i then i else b.maxIndex)
  }

  /** add(index, long): the integer as BigDecimal.valueOf(long), at scale 0. */
  function AddLong(b: Builder, i: int, v: int): (r: Builder)
    ensures i in r.entries && r.entries[i].scale == 0 && Value(r.entries[i]) == v as real
    ensures r == Add(b, i, r.entries[i])
  {
    Add(b, i, ValueOf(v))
  }

  /** Every recorded index is within the array `build` allocates. */
  predicate InRange(b: Builder) {
    forall i :: i in b.entries ==> 0 <= i <= b.maxIndex
  }

  /**
   build(): the array of maxIndex + 1 entries is allocated first, so a
   negative size fails before anything else; no entries at all gives the
   zero polynomial; an index outside the array makes the copy fail.
   */
  function Build(b: Builder): (r: Result<Polynomial>)
    ensures b.maxIndex < -1 ==> r == Err(NegativeArraySize)
    ensures b.maxIndex >= -1 && b.entries == map[] ==> r == Ok(ZeroPolynomial)
    ensures b.maxIndex >= -1 && b.entries != map[] ==> (r.Ok? <==> InRange(b))
    ensures r.Err? && b.maxIndex >= -1 ==> r.error == IndexOutOfBounds
    ensures r.Ok? && b.entries != map[] ==>
      |r.value.coefficients| == b.maxIndex + 1 &&
      forall j :: 0 <= j <= b.maxIndex ==>
        r.value.coefficients[j] == if j in b.entries then b.entries[j] else Zero
  {
    if b.maxIndex + 1 < 0 then Err(NegativeArraySize)
    else if b.entries == map[] then Ok(Make([]))
    else if !InRange(b) then Err(IndexOutOfBounds)
    else
      assert exists k :: k in b.entries by {
        if forall k :: k !in b.entries {
        }
      }
      var k :| k in b.entries;
      assert 0 <= k <= b.maxIndex;
      var n := b.maxIndex + 1;
      Ok(Make(seq(n, j requires 0 <= j < n => if j in b.entries then b.entries[j] else Zero)))
  }

  // ---------------------------------------------------------------------------
  // Builders reached by a sequence of `add` calls

  /** The builder after the given (index, coefficient) pairs were added in order. */
  function AddAll(b: Builder, adds: seq<(int, Decimal)>): Builder
    decreases |adds|
  {
    if |adds| == 0 then b
    else AddAll(Add(b, adds[0].0, adds[0].1), adds[1..])
  }

  /** The coefficient the last of the pairs gives index j, if any pair does. */
  function LastAt(adds: seq<(int, Decimal)>, j: int): Option<Decimal> {
    if |adds| == 0 then None
    else if adds[|adds| - 1].0 == j then Some(adds[|adds| - 1].1)
    else LastAt(adds[..|adds| - 1], j)
  }

  /**
   LastAt finds a coefficient exactly when some pair names j, and the one it
   finds belongs to a pair naming j that no later pair overrides.
   */
  lemma {:induction false} LastAtSpec(adds: seq<(int, Decimal)>, j: int)
    ensures LastAt(adds, j).Some? <==> exists k :: 0 <= k < |adds| && adds[k].0 == j
    ensures LastAt(adds, j).Some? ==>
      exists k :: 0 <= k < |adds| && adds[k] == (j, LastAt(adds, j).value) &&
        forall m :: k < m < |adds| ==> adds[m].0 != j
  {
    var n := |adds|;
    if n > 0 {
      if adds[n - 1].0 == j {
        assert adds[n - 1] == (j, LastAt(adds, j).value);
      } else {
        var init := adds[..n - 1];
        LastAtSpec(init, j);
        if LastAt(init, j).Some? {
          var k :| 0 <= k < |init| && init[k] == (j, LastAt(init, j).value) &&
            forall m :: k < m < |init| ==> init[m].0 != j;
          assert adds[k] == init[k];
          assert forall m :: k < m < n - 1 ==> adds[m] == init[m];
        } else {
          assert forall k :: 0 <= k < n - 1 ==> adds[k] == init[k];
        }
      }
    }
  }

  /** The largest index among the pairs, or `m` if it is larger. */
  function MaxIndex(m: int, adds: seq<(int, Decimal)>): (r: int)
    ensures r >= m && forall k :: 0 <= k < |adds| ==> adds[k].0 <= r
    ensures r == m || exists k :: 0 <= k < |adds| && adds[k].0 == r
    decreases |adds|
  {
    if |adds| == 0 then m
    else
      var r := MaxIndex(if m < adds[0].0 then adds[0].0 else m, adds[1..]);
      assert forall k :: 1 <= k < |adds| ==> adds[1..][k - 1] == adds[k];
      r
  }

  /**
   Adding pairs one by one leaves, at each index, the coefficient of the last
   pair naming it, and raises the maximum to the largest index added.
   */
  lemma {:induction false} AddAllEntries(b: Builder, adds: seq<(int, Decimal)>)
    ensures var r := AddAll(b, adds);
      r.maxIndex == MaxIndex(b.maxIndex, adds) &&
      (forall j :: j in r.entries <==> j in b.entries || LastAt(adds, j).Some?) &&
      (forall j :: LastAt(adds, j).Some? ==> r.entries[j] == LastAt(adds, j).value) &&
      (forall j :: j in b.entries && LastAt(adds, j).None? ==> r.entries[j] == b.entries[j])
    decreases |adds|
  {
    if |adds| > 0 {
      var b1 := Add(b, adds[0].0, adds[0].1);
      var rest := adds[1..];
      AddAllEntries(b1, rest);
      forall j
        ensures LastAt(adds, j) == if LastAt(rest, j).Some? then LastAt(rest, j)
                                   else if adds[0].0 == j then Some(adds[0].1) else None
      {
        LastAtCons(adds, j);
      }
    }
  }

  lemma {:induction false} LastAtCons(adds: seq<(int, Decimal)>, j: int)
    requires |adds| > 0
    ensures LastAt(adds, j) == if LastAt(adds[1..], j).Some? then LastAt(adds[1..], j)
                               else if adds[0].0 == j then Some(adds[0].1) else None
    decreases |adds|
  {
    var n := |adds|;
    if n > 1 && adds[n - 1].0 != j {
      assert adds[..n - 1][1..] == adds[1..][..n - 2];
      LastAtCons(adds[..n - 1], j);
    }
  }

  /**
   The polynomial a fresh builder produces after a non-empty sequence of
   adds: it fails exactly when some index was negative; otherwise it has
   the largest index plus one entries, each the last coefficient added
   there, or zero.
   */
  lemma BuildAfterAdds(adds: seq<(int, Decimal)>)
    requires |adds| > 0
    ensures var r := Build(AddAll(Empty, adds));
      (r.Ok? <==> forall k :: 0 <= k < |adds| ==> adds[k].0 >= 0) &&
      (r.Ok? ==>
        |r.value.coefficients| == MaxIndex(0, adds) + 1 &&
        forall j :: 0 <= j <= MaxIndex(0, adds) ==>
          r.value.coefficients[j] == if LastAt(adds, j).Some? then LastAt(adds, j).value else Zero)
  {
    var b := AddAll(Empty, adds);
    AddAllEntries(Empty, adds);
    LastAtSpec(adds, adds[0].0);
    assert adds[0].0 in b.entries;
    if forall k :: 0 <= k < |adds| ==> adds[k].0 >= 0 {
      forall i | i in b.entries
        ensures 0 <= i <= b.maxIndex
      {
        LastAtSpec(adds, i);
      }
    } else {
      var k :| 0 <= k < |adds| && adds[k].0 < 0;
      LastAtSpec(adds, adds[k].0);
      assert adds[k].0 in b.entries;
    }
  }
}
