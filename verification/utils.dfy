/**
 Utils.getClosestUpwardPowerOfTwo: starting from 1, double a Java `int`
 until it is no less than n. Java's int multiplication wraps around modulo
 2^32, which is written out here as `WrapInt`.
 */
module Utils {

  const IntModulus: int := 0x1_0000_0000
  const MaxPowerOfTwo: int := 0x4000_0000

  /** The Java int a mathematical integer wraps to. */
  function WrapInt(x: int): (r: int)
    ensures -0x8000_0000 <= r < 0x8000_0000
    ensures (r - x) % IntModulus == 0
    ensures -0x8000_0000 <= x < 0x8000_0000 ==> r == x
  {
    var u := (x + 0x8000_0000) % IntModulus;
    assert x + 0x8000_0000 == (x + 0x8000_0000) / IntModulus * IntModulus + u;
    u - 0x8000_0000
  }

  predicate IsPowerOfTwo(m: int)
    decreases if m < 0 then 0 else m
  {
    m == 1 || (m > 1 && m % 2 == 0 && IsPowerOfTwo(m / 2))
  }

  function Pow2(k: nat): (r: int)
    ensures IsPowerOfTwo(r) && r >= 1
  {
    if k == 0 then 1
    else
      var h := Pow2(k - 1);
      assert (2 * h) / 2 == h;
      2 * h
  }

  /** Of two powers of two, the smaller is at most half the larger. */
  lemma {:induction false} PowersDouble(a: int, b: int)
    requires IsPowerOfTwo(a) && IsPowerOfTwo(b) && a < b
    ensures 2 * a <= b
    decreases b
  {
    if a > 1 {
      PowersDouble(a / 2, b / 2);
    }
  }

  /** The loop of getClosestUpwardPowerOfTwo, from the current value m. */
  function DoubleUntil(m: int, n: int): (r: int)
    requires IsPowerOfTwo(m) && n <= MaxPowerOfTwo
    ensures IsPowerOfTwo(r) && r >= n && r >= m
    ensures r == m || r / 2 < n
    decreases n - m
  {
    if m >= n then m
    else
      var next := WrapInt(m * 2);
      assert next == 2 * m && next / 2 == m;
      DoubleUntil(next, n)
  }

  /**
   getClosestUpwardPowerOfTwo(n): the least power of two no less than n.
   For n above 2^30 no Java int qualifies; see DoublingNeverReaches.
   */
  function ClosestUpwardPowerOfTwo(n: int): (m: int)
    requires n <= MaxPowerOfTwo
    ensures IsPowerOfTwo(m) && m >= n && m <= MaxPowerOfTwo
    ensures forall p :: IsPowerOfTwo(p) && p >= n ==> p >= m
    ensures n <= 1 ==> m == 1
    ensures IsPowerOfTwo(n) ==> m == n
  {
    var m := DoubleUntil(1, n);
    forall p | IsPowerOfTwo(p) && p >= n
      ensures p >= m
    {
      if p < m {
        PowersDouble(p, m);
      }
    }
    PowerOfTwoLimit();
    m
  }

  /**
   getClosestUpwardPowerOfTwo as the Java loop runs it: m starts at 1 and is
   doubled, with int wrap-around, while it is less than n.
   */
  method ClosestUpwardPowerOfTwoLoop(n: int) returns (m: int)
    requires n <= MaxPowerOfTwo
    ensures m == ClosestUpwardPowerOfTwo(n)
  {
    PowerOfTwoLimit();
    m := 1;
    while m < n
      invariant IsPowerOfTwo(m) && m <= MaxPowerOfTwo
      invariant forall p :: IsPowerOfTwo(p) && p >= n ==> p >= m
      decreases n - m
    {
      forall p | IsPowerOfTwo(p) && p >= n
        ensures p >= 2 * m
      {
        PowersDouble(m, p);
      }
      PowersDouble(m, MaxPowerOfTwo);
      assert (2 * m) / 2 == m;
      m := WrapInt(m * 2);
    }
    var c := ClosestUpwardPowerOfTwo(n);
    assert c >= m && m >= c;
  }

  /** Rounding up to a power of two twice is rounding up once. */
  lemma ClosestUpwardPowerOfTwoIdempotent(n: int)
    requires n <= MaxPowerOfTwo
    ensures ClosestUpwardPowerOfTwo(ClosestUpwardPowerOfTwo(n)) == ClosestUpwardPowerOfTwo(n)
  {
  }

  lemma PowerOfTwoLimit()
    ensures IsPowerOfTwo(MaxPowerOfTwo)
  {
    assert Pow2(5) == 32;
    assert Pow2(10) == 1024;
    assert Pow2(15) == 32768;
    assert Pow2(20) == 1048576;
    assert Pow2(25) == 33554432;
    assert Pow2(30) == MaxPowerOfTwo;
  }

  /** The value of m after k passes of the loop body, wrapping as Java does. */
  function Doubled(k: nat): int {
    if k == 0 then 1 else WrapInt(2 * Doubled(k - 1))
  }

  /**
   Above 2^30 the loop never ends: m climbs to 2^30, wraps to -2^31 and
   then to 0, where it stays, so `m < n` holds after every pass.
   */
  lemma {:induction false} DoublingNeverReaches(n: int, k: nat)
    requires n > MaxPowerOfTwo
    ensures Doubled(k) < n
  {
    DoubledStaysBelow(k);
  }

  lemma {:induction false} DoubledStaysBelow(k: nat)
    ensures Doubled(k) == 0 || Doubled(k) == -0x8000_0000 ||
      (IsPowerOfTwo(Doubled(k)) && Doubled(k) <= MaxPowerOfTwo)
  {
    if k > 0 {
      DoubledStaysBelow(k - 1);
      var m := Doubled(k - 1);
      if m == 0 || m == -0x8000_0000 || m == MaxPowerOfTwo {
        WrapEdges();
      } else {
        PowerOfTwoLimit();
        PowersDouble(m, MaxPowerOfTwo);
        assert (2 * m) / 2 == m;
        assert WrapInt(2 * m) == 2 * m;
      }
    }
  }

  /** Where the doubling leaves the int range: 2^31 wraps to -2^31, and -2^32 to 0. */
  lemma WrapEdges()
    ensures WrapInt(0) == 0
    ensures WrapInt(0x8000_0000) == -0x8000_0000
    ensures WrapInt(-0x1_0000_0000) == 0
  {
  }
}
