/** Greatest common divisors by shifts and subtraction (src/gcd.c:12-40). */
module Gcd {

  /** k is the quotient: d * k == a. */
  ghost predicate Quotient(d: nat, k: nat, a: nat) {
    d * k == a
  }

  ghost predicate Divides(d: nat, a: nat) {
    exists k: nat :: Quotient(d, k, a)
  }

  ghost predicate CommonDivisor(d: nat, a: nat, b: nat) {
    Divides(d, a) && Divides(d, b)
  }

  /** g divides a and b, and every common divisor divides g. */
  ghost predicate IsGcd(g: nat, a: nat, b: nat) {
    && CommonDivisor(g, a, b)
    && forall d: nat :: CommonDivisor(d, a, b) ==> Divides(d, g)
  }

  lemma DividesSum(d: nat, a: nat, b: nat)
    requires Divides(d, a) && Divides(d, b)
    ensures Divides(d, a + b)
  {
    var i: nat :| Quotient(d, i, a);
    var j: nat :| Quotient(d, j, b);
    assert d * (i + j) == d * i + d * j;
    assert Quotient(d, i + j, a + b);
  }

  lemma DividesDifference(d: nat, a: nat, b: nat)
    requires Divides(d, a) && Divides(d, b) && b <= a
    ensures Divides(d, a - b)
  {
    var i: nat :| Quotient(d, i, a);
    var j: nat :| Quotient(d, j, b);
    assert d * i - d * j == d * (i - j);
    if i >= j {
      assert Quotient(d, i - j, a - b);
    } else {
      assert d * (i - j) <= 0;
      assert Quotient(d, 0, a - b);
    }
  }

  lemma DividesProduct(d: nat, a: nat, m: nat)
    requires Divides(d, a)
    ensures Divides(d, a * m)
  {
    var i: nat :| Quotient(d, i, a);
    assert d * (i * m) == (d * i) * m;
    assert Quotient(d, i * m, a * m);
  }

  lemma DividesSelf(a: nat)
    ensures Divides(a, a) && Divides(a, 0) && Divides(1, a)
  {
    assert Quotient(a, 1, a) && Quotient(a, 0, 0) && Quotient(1, a, a);
  }

  lemma DividesBound(d: nat, a: nat)
    requires Divides(d, a) && a > 0
    ensures 0 < d <= a
  {
    var k: nat :| Quotient(d, k, a);
    assert k > 0 && d * k >= d;
  }

  lemma OddTimesOdd(d: nat, k: nat)
    requires d % 2 == 1 && k % 2 == 1
    ensures (d * k) % 2 == 1
  {
    var i, j := d / 2, k / 2;
    assert d == 2 * i + 1 && k == 2 * j + 1;
    assert d * k == 2 * (2 * i * j + i + j) + 1;
  }

  lemma HalfProduct(d: nat, h: nat, x: nat)
    requires d * (2 * h) == 2 * x
    ensures d * h == x
  {
    assert d * (2 * h) == 2 * (d * h);
  }

  lemma EvenTimes(d: nat, k: nat)
    requires d % 2 == 0
    ensures (d * k) % 2 == 0
  {
    assert d * k == 2 * ((d / 2) * k);
  }

  /** An odd divisor of 2x divides x. */
  lemma OddDividesHalf(d: nat, x: nat)
    requires d % 2 == 1 && Divides(d, 2 * x)
    ensures Divides(d, x)
  {
    var k: nat :| Quotient(d, k, 2 * x);
    if k % 2 == 1 {
      OddTimesOdd(d, k);
    } else {
      assert k == 2 * (k / 2);
      HalfProduct(d, k / 2, x);
      assert Quotient(d, k / 2, x);
    }
  }

  lemma DividesOdd(d: nat, b: nat)
    requires Divides(d, b) && b % 2 == 1
    ensures d % 2 == 1
  {
    var k: nat :| Quotient(d, k, b);
    if d % 2 == 0 {
      EvenTimes(d, k);
    }
  }

  // ----- the three reductions of the algorithm -----

  /** Two numbers with the same common divisors have the same greatest one. */
  lemma SameDivisors(g: nat, a: nat, b: nat, a': nat, b': nat)
    requires IsGcd(g, a, b)
    requires forall d: nat :: CommonDivisor(d, a, b) <==> CommonDivisor(d, a', b')
    ensures IsGcd(g, a', b')
  {
  }

  lemma DividesDouble(d: nat, a: nat)
    requires Divides(d, a)
    ensures Divides(2 * d, 2 * a)
  {
    var k: nat :| Quotient(d, k, a);
    assert (2 * d) * k == 2 * (d * k);
    assert Quotient(2 * d, k, 2 * a);
  }

  lemma DividesHalf(d: nat, a: nat)
    requires Divides(2 * d, 2 * a)
    ensures Divides(d, a)
  {
    var k: nat :| Quotient(2 * d, k, 2 * a);
    assert (2 * d) * k == 2 * (d * k);
    assert Quotient(d, k, a);
  }

  lemma GcdHalveBoth(g: nat, a: nat, b: nat)
    requires IsGcd(g, a, b)
    ensures IsGcd(2 * g, 2 * a, 2 * b)
  {
    DividesDouble(g, a);
    DividesDouble(g, b);
    forall d: nat | CommonDivisor(d, 2 * a, 2 * b) ensures Divides(d, 2 * g) {
      if d % 2 == 1 {
        OddDividesHalf(d, a);
        OddDividesHalf(d, b);
        DividesProduct(d, g, 2);
      } else {
        DividesHalf(d / 2, a);
        DividesHalf(d / 2, b);
        assert CommonDivisor(d / 2, a, b);
        DividesDouble(d / 2, g);
      }
    }
  }

  /** With b odd, a factor two of a does not matter. */
  lemma GcdHalveOne(g: nat, x: nat, b: nat)
    requires IsGcd(g, x, b) && b % 2 == 1
    ensures IsGcd(g, 2 * x, b)
  {
    forall d: nat ensures CommonDivisor(d, x, b) <==> CommonDivisor(d, 2 * x, b) {
      if CommonDivisor(d, x, b) {
        DividesProduct(d, x, 2);
      }
      if CommonDivisor(d, 2 * x, b) {
        DividesOdd(d, b);
        OddDividesHalf(d, x);
      }
    }
    SameDivisors(g, x, b, 2 * x, b);
  }

  lemma GcdSubtract(g: nat, a: nat, b: nat)
    requires b <= a && IsGcd(g, a - b, b)
    ensures IsGcd(g, a, b)
  {
    forall d: nat ensures CommonDivisor(d, a - b, b) <==> CommonDivisor(d, a, b) {
      if CommonDivisor(d, a - b, b) {
        DividesSum(d, a - b, b);
      }
      if CommonDivisor(d, a, b) {
        DividesDifference(d, a, b);
      }
    }
    SameDivisors(g, a - b, b, a, b);
  }

  lemma GcdSwap(g: nat, a: nat, b: nat)
    requires IsGcd(g, a, b)
    ensures IsGcd(g, b, a)
  {
    SameDivisors(g, a, b, b, a);
  }

  lemma GcdZero(b: nat)
    ensures IsGcd(b, 0, b)
  {
    DividesSelf(b);
  }

  /** There is only one greatest common divisor. */
  lemma GcdUnique(g: nat, h: nat, a: nat, b: nat)
    requires IsGcd(g, a, b) && IsGcd(h, a, b) && a > 0
    ensures g == h
  {
    DividesBound(g, a);
    DividesBound(h, a);
    DividesBound(g, h);
    DividesBound(h, g);
  }

  // ----- the algorithm -----

  /** Bitwise or. */
  function Or(a: nat, b: nat): nat
    decreases a + b
  {
    if a == 0 && b == 0 then 0
    else 2 * Or(a / 2, b / 2) + if a % 2 == 1 || b % 2 == 1 then 1 else 0
  }

  lemma OrBits(a: nat, b: nat)
    ensures Or(a, b) % 2 == 1 <==> a % 2 == 1 || b % 2 == 1
    ensures Or(a, b) / 2 == Or(a / 2, b / 2)
  {
  }

  const UINT32_MAX: nat := 0xffff_ffff

  lemma {:induction false} OrPositive(a: nat, b: nat)
    requires a > 0 || b > 0
    ensures 0 < Or(a, b) <= a + b
  {
    if a / 2 > 0 || b / 2 > 0 {
      OrPositive(a / 2, b / 2);
    } else {
      assert Or(a / 2, b / 2) == 0;
    }
  }

  /** What is left of both loops: whatever the second loop finds for the current numbers is, times k, the answer. */
  ghost predicate Reduces(a: nat, b: nat, k: nat, a0: nat, b0: nat) {
    forall g: nat :: IsGcd(g, a, b) ==> IsGcd(g * k, a0, b0)
  }

  lemma ReducesHalveBoth(a: nat, b: nat, k: nat, a0: nat, b0: nat)
    requires Reduces(a, b, k, a0, b0) && a % 2 == 0 && b % 2 == 0
    ensures Reduces(a / 2, b / 2, 2 * k, a0, b0)
  {
    forall g: nat | IsGcd(g, a / 2, b / 2) ensures IsGcd(g * (2 * k), a0, b0) {
      GcdHalveBoth(g, a / 2, b / 2);
      assert (2 * g) * k == g * (2 * k);
      assert IsGcd(2 * g, a, b);
    }
  }

  lemma ReducesHalveOne(a: nat, b: nat, k: nat, a0: nat, b0: nat)
    requires Reduces(a, b, k, a0, b0) && a % 2 == 0 && b % 2 == 1
    ensures Reduces(a / 2, b, k, a0, b0)
  {
    forall g: nat | IsGcd(g, a / 2, b) ensures IsGcd(g * k, a0, b0) {
      GcdHalveOne(g, a / 2, b);
      assert IsGcd(g, a, b);
    }
  }

  lemma ReducesSubtract(a: nat, b: nat, k: nat, a0: nat, b0: nat)
    requires Reduces(a, b, k, a0, b0) && b <= a
    ensures Reduces(a - b, b, k, a0, b0)
  {
    forall g: nat | IsGcd(g, a - b, b) ensures IsGcd(g * k, a0, b0) {
      GcdSubtract(g, a, b);
      assert IsGcd(g, a, b);
    }
  }

  lemma ReducesSwap(a: nat, b: nat, k: nat, a0: nat, b0: nat)
    requires Reduces(a, b, k, a0, b0)
    ensures Reduces(b, a, k, a0, b0)
  {
    forall g: nat | IsGcd(g, b, a) ensures IsGcd(g * k, a0, b0) {
      GcdSwap(g, b, a);
      assert IsGcd(g, a, b);
    }
  }

  lemma ReducesStart(a: nat, b: nat)
    ensures Reduces(a, b, 1, a, b)
  {
    forall g: nat | IsGcd(g, a, b) ensures IsGcd(g * 1, a, b) {
      assert g * 1 == g;
    }
  }

  lemma ReducesEnd(b: nat, k: nat, a0: nat, b0: nat)
    requires Reduces(0, b, k, a0, b0)
    ensures IsGcd(b * k, a0, b0)
  {
    GcdZero(b);
  }

  lemma ShiftBoth(a: nat, k: nat)
    requires a % 2 == 0 && a > 0
    ensures (a / 2) * (2 * k) == a * k
    ensures 2 * k <= a * k
  {
    assert a == 2 * (a / 2);
    assert (a / 2) * (2 * k) == (2 * (a / 2)) * k;
  }

  /** The second loop of gcd32, for numbers that are not both even. */
  method OddGcd(x: nat, y: nat) returns (b: nat)
    requires x > 0 && y > 0 && (x % 2 == 1 || y % 2 == 1)
    ensures IsGcd(b, x, y) && b > 0
  {
    hide Reduces, IsGcd;
    var a: nat := x;
    b := y;
    ReducesStart(x, y);
    while true
      invariant b > 0 && a <= x && b <= y
      invariant a % 2 == 1 || b % 2 == 1
      invariant Reduces(a, b, 1, x, y)
      decreases a + b
    {
      if a % 2 == 0 {
        ReducesHalveOne(a, b, 1, x, y);
        a := a / 2;
      } else if b % 2 == 0 {
        ReducesSwap(a, b, 1, x, y);
        ReducesHalveOne(b, a, 1, x, y);
        ReducesSwap(b / 2, a, 1, x, y);
        b := b / 2;
      } else if a >= b {
        ReducesSubtract(a, b, 1, x, y);
        ReducesHalveOne(a - b, b, 1, x, y);
        a := (a - b) / 2;
      } else {
        ReducesSwap(a, b, 1, x, y);
        ReducesSubtract(b, a, 1, x, y);
        ReducesHalveOne(b - a, a, 1, x, y);
        ReducesSwap((b - a) / 2, a, 1, x, y);
        b := (b - a) / 2;
      }
      if a == 0 { break; }
    }
    ReducesEnd(b, 1, x, y);
  }

  /** gcd32: the result is the true greatest common divisor. The last invariant of the loop bounds the
      shifted k, and the last postcondition the final product, by the inputs. */
  method Gcd32(a0: nat, b0: nat) returns (g: nat)
    requires 0 < a0 <= UINT32_MAX && 0 < b0 <= UINT32_MAX
    ensures IsGcd(g, a0, b0)
    ensures 0 < g <= a0 && g <= b0
  {
    hide Or;
    var a: nat, b: nat, k: nat := a0, b0, 1;
    var x := Or(a, b);
    OrPositive(a, b);
    OrBits(a, b);
    ReducesStart(a, b);
    while x % 2 == 0
      invariant a > 0 && b > 0 && x == Or(a, b) > 0
      invariant x % 2 == 1 <==> a % 2 == 1 || b % 2 == 1
      invariant Reduces(a, b, k, a0, b0)
      invariant 0 < k <= a * k <= a0
      decreases x
    {
      ReducesHalveBoth(a, b, k, a0, b0);
      ShiftBoth(a, k);
      OrPositive(a / 2, b / 2);
      OrBits(a, b);
      OrBits(a / 2, b / 2);
      k, x, a, b := 2 * k, x / 2, a / 2, b / 2;
    }
    var r := OddGcd(a, b);
    g := r * k;
    DividesBound(g, a0);
    DividesBound(g, b0);
  }
}
