/** The builtin predicates on 32-bit integers (src/utils.c:365-470). Signed overflow, which C leaves undefined, wraps
    around in this model. */
module Builtins {
  import opened Cnf

  const INT32_MAX: int := 0x7fff_ffff
  const INT32_MIN: int := -0x8000_0000

  predicate Int32(i: int) {
    INT32_MIN <= i <= INT32_MAX
  }

  /** The 32-bit two's complement number congruent to i. */
  function Wrap(i: int): (r: int)
    ensures Int32(r) && (Int32(i) ==> r == i)
  {
    (i - INT32_MIN) % 0x1_0000_0000 + INT32_MIN
  }

  /** Negation on 32 bits: INT32_MIN is its own negative. */
  function Neg(i: int): (r: int)
    requires Int32(i)
    ensures r == if i == INT32_MIN then INT32_MIN else -i
  {
    Wrap(-i)
  }

  function Abs(i: int): nat {
    if i < 0 then -i else i
  }

  /** C division rounds towards zero. */
  function Quotient(i: int, j: int): int
    requires j != 0
  {
    if (i >= 0) == (j > 0) then Abs(i) / Abs(j) else -(Abs(i) / Abs(j))
  }

  function Remainder(i: int, j: int): int
    requires j != 0
  {
    i - Quotient(i, j) * j
  }

  predicate Plus(i: int, j: int, k: int) {
    if (i > 0 && j > 0 && j > INT32_MAX - i) || (i < 0 && j < 0 && j < INT32_MIN - i) then false
    else Wrap(i + j) == k
  }

  /** The overflow test of timesp looks at factors of equal sign only. */
  predicate TimesOverflows(i: int, j: int)
    requires Int32(i) && Int32(j)
  {
    || (i > 0 && j > 0 && (i > Quotient(INT32_MAX, j) || j > Quotient(INT32_MAX, i)))
    || (i < 0 && j < 0 && (Neg(i) > Quotient(INT32_MAX, Neg(j)) || Neg(j) > Quotient(INT32_MAX, Neg(i))))
  }

  predicate Times(i: int, j: int, k: int)
    requires Int32(i) && Int32(j)
  {
    if TimesOverflows(i, j) then false else Wrap(i * j) == k
  }

  predicate Compare(op: Builtin, i: int, j: int) {
    if op == EQ then i == j
    else if op == NEQ then i != j
    else if op == LT then i < j
    else if op == LE then i <= j
    else if op == GT then i > j
    else i >= j
  }

  predicate Arithmetic(op: Builtin, i: int, j: int, k: int)
    requires Int32(i) && Int32(j)
  {
    if op == PLUS then Plus(i, j, k)
    else if op == MINUS then Plus(i, Neg(j), k)
    else if op == TIMES then Times(i, j, k)
    else j != 0 && if op == DIV then Quotient(i, j) == k else Remainder(i, j) == k
  }

  /** call_builtin on 32-bit words; a wrong number of arguments is reported and answered with true. */
  predicate CallBuiltin(op: Builtin, args: seq<int>) {
    if op in {EQ, NEQ, LT, LE, GT, GE} && |args| == 2 then
      Compare(op, Wrap(args[0]), Wrap(args[1]))
    else if op in {PLUS, MINUS, TIMES, DIV, REM} && |args| == 3 then
      Arithmetic(op, Wrap(args[0]), Wrap(args[1]), Wrap(args[2]))
    else true
  }

  // ----- when the builtin predicates are the exact relations -----

  /** The six comparisons are exact on all 32-bit operands. */
  lemma ComparisonsAreExact(i: int, j: int)
    requires Int32(i) && Int32(j)
    ensures CallBuiltin(EQ, [i, j]) <==> i == j
    ensures CallBuiltin(NEQ, [i, j]) <==> i != j
    ensures CallBuiltin(LT, [i, j]) <==> i < j
    ensures CallBuiltin(LE, [i, j]) <==> i <= j
    ensures CallBuiltin(GT, [i, j]) <==> i > j
    ensures CallBuiltin(GE, [i, j]) <==> i >= j
  {
  }

  /** A wrong number of arguments is reported and answered with true. */
  lemma WrongArity(op: Builtin, args: seq<int>)
    ensures op in {EQ, NEQ, LT, LE, GT, GE} && |args| != 2 ==> CallBuiltin(op, args)
    ensures op in {PLUS, MINUS, TIMES, DIV, REM} && |args| != 3 ==> CallBuiltin(op, args)
  {
  }

  /** PLUS is exact on all 32-bit operands. */
  lemma PlusIsExact(i: int, j: int, k: int)
    requires Int32(i) && Int32(j) && Int32(k)
    ensures CallBuiltin(PLUS, [i, j, k]) <==> i + j == k
  {
  }

  /** MINUS is exact for every result iff the second operand is not INT32_MIN, whose negation overflows. */
  lemma MinusIsExact(i: int, j: int)
    requires Int32(i) && Int32(j)
    ensures (forall k :: Int32(k) ==> (CallBuiltin(MINUS, [i, j, k]) <==> i - j == k)) <==> j != INT32_MIN
  {
    if j == INT32_MIN {
      var k := if i < 0 then i - j else i + j;
      assert CallBuiltin(MINUS, [i, j, k]) != (i - j == k);
    }
  }

  /** The product of factors of different sign is not below INT32_MIN, and not both factors are INT32_MIN. */
  predicate TimesFits(i: int, j: int) {
    if (i < 0 < j) || (j < 0 < i) then i * j >= INT32_MIN else !(i == j == INT32_MIN)
  }

  lemma DivisionBounds(a: nat, b: nat)
    requires b > 0
    ensures (a / b) * b <= a < (a / b) * b + b == (a / b + 1) * b
  {
  }

  lemma Monotone(x: int, y: int, b: nat)
    requires x <= y
    ensures x * b <= y * b
  {
  }

  lemma QuotientTest(i: int, j: int)
    requires i > 0 && j > 0
    ensures i > Quotient(INT32_MAX, j) <==> i * j > INT32_MAX
  {
    var q := INT32_MAX / j;
    DivisionBounds(INT32_MAX, j);
    if i > q {
      Monotone(q + 1, i, j);
    } else {
      Monotone(i, q, j);
    }
  }

  lemma PositiveProduct(i: int, j: int)
    requires i > 0 && j > 0
    ensures i * j > 0
    ensures i > Quotient(INT32_MAX, j) || j > Quotient(INT32_MAX, i) <==> i * j > INT32_MAX
  {
    assert i * j == j * i > 0;
    QuotientTest(i, j);
    QuotientTest(j, i);
  }

  lemma LargeProduct(i: int, j: int)
    requires i > 0 && j > 0 && (i > INT32_MAX || j > INT32_MAX)
    ensures i * j > INT32_MAX
  {
    assert i * j >= i && i * j >= j;
  }

  /** With INT32_MIN as one of two negative factors the test always fires. */
  lemma MinimumFactor(i: int, j: int)
    requires Int32(i) && Int32(j) && i < 0 && j < 0 && i != j && (i == INT32_MIN || j == INT32_MIN)
    ensures TimesOverflows(i, j) && (-i) * (-j) > INT32_MAX
  {
    assert Quotient(INT32_MAX, INT32_MIN) == 0;
    LargeProduct(-i, -j);
  }

  lemma NegativeProduct(i: int, j: int)
    ensures (-i) * (-j) == i * j == j * i
  {
  }

  lemma SignOfProduct(i: int, j: int)
    requires i >= 0 >= j || j >= 0 >= i
    ensures i * j <= 0
  {
  }

  /** For factors that fit, the test finds exactly the products outside 32 bits. */
  lemma FittingProduct(i: int, j: int)
    requires Int32(i) && Int32(j) && TimesFits(i, j)
    ensures TimesOverflows(i, j) <==> !Int32(i * j)
  {
    hide Quotient;
    if i > 0 && j > 0 {
      PositiveProduct(i, j);
    } else if i < 0 && j < 0 {
      NegativeProduct(i, j);
      if i == INT32_MIN || j == INT32_MIN {
        MinimumFactor(i, j);
      } else {
        PositiveProduct(-i, -j);
      }
    } else {
      SignOfProduct(i, j);
    }
  }

  lemma UnnoticedOverflow(i: int, j: int)
    requires Int32(i) && Int32(j) && !TimesFits(i, j)
    ensures !TimesOverflows(i, j) && !Int32(i * j)
  {
    if i == j == INT32_MIN {
      assert i * j == 0x4000_0000_0000_0000;
    }
  }

  /** TIMES is exact for every result iff the factors fit. In particular it is exact wherever C defines timesp. */
  lemma TimesIsExact(i: int, j: int)
    requires Int32(i) && Int32(j)
    ensures (forall k :: Int32(k) ==> (CallBuiltin(TIMES, [i, j, k]) <==> i * j == k)) <==> TimesFits(i, j)
  {
    if TimesFits(i, j) {
      forall k | Int32(k) ensures CallBuiltin(TIMES, [i, j, k]) <==> i * j == k {
        FittingProduct(i, j);
      }
    } else {
      var k := Wrap(i * j);
      UnnoticedOverflow(i, j);
      assert CallBuiltin(TIMES, [i, j, k]) && i * j != k;
    }
  }

  /** Inputs on which the predicates are not the relations they are meant to be. */
  lemma ArithmeticFails()
    ensures CallBuiltin(TIMES, [65536, -65536, 0]) && 65536 * -65536 != 0
    ensures CallBuiltin(TIMES, [INT32_MIN, INT32_MIN, 0]) && INT32_MIN * INT32_MIN != 0
    ensures !CallBuiltin(MINUS, [-1, INT32_MIN, INT32_MAX]) && -1 - INT32_MIN == INT32_MAX
  {
  }

  lemma SignedMultiple(q: int, b: int)
    ensures (-q) * b == -(q * b) == q * -b && (-q) * -b == q * b
  {
  }

  lemma Truncates(i: int, j: int)
    requires j != 0
    ensures var r := Remainder(i, j);
      Abs(r) < Abs(j) && (r == 0 || (r < 0 <==> i < 0))
  {
    var q, b := Abs(i) / Abs(j), Abs(j);
    DivisionBounds(Abs(i), b);
    SignedMultiple(q, b);
    assert Quotient(i, j) == if (i >= 0) == (j > 0) then q else -q;
    hide Quotient;
    assert Quotient(i, j) * j == if i >= 0 then q * b else -(q * b);
  }

  lemma PositiveMultiple(a: nat, b: nat)
    requires a > 0
    ensures a * b >= b
  {
  }

  lemma MultipleIsLarge(d: int, j: int)
    requires d != 0 && j != 0
    ensures Abs(d * j) >= Abs(j)
  {
    SignedMultiple(d, j);
    PositiveMultiple(Abs(d), Abs(j));
  }

  lemma OneDivision(i: int, j: int, q: int, r: int, q': int, r': int)
    requires j != 0 && i == q * j + r == q' * j + r'
    requires Abs(r) < Abs(j) && (r == 0 || (r < 0 <==> i < 0))
    requires Abs(r') < Abs(j) && (r' == 0 || (r' < 0 <==> i < 0))
    ensures q == q' && r == r'
  {
    assert (q - q') * j == q * j - q' * j == r' - r;
    if q != q' {
      MultipleIsLarge(q - q', j);
    }
  }

  /** DIV and REM together are division with truncation: the remainder is smaller than the divisor and has the sign of
      the dividend. */
  lemma DivisionIsExact(i: int, j: int, q: int, r: int)
    requires Int32(i) && Int32(j) && Int32(q) && Int32(r)
    ensures CallBuiltin(DIV, [i, j, q]) && CallBuiltin(REM, [i, j, r])
       <==> j != 0 && i == q * j + r && Abs(r) < Abs(j) && (r == 0 || (r < 0 <==> i < 0))
  {
    if j != 0 {
      Truncates(i, j);
      if i == q * j + r && Abs(r) < Abs(j) && (r == 0 || (r < 0 <==> i < 0)) {
        OneDivision(i, j, q, r, Quotient(i, j), Remainder(i, j));
      }
    }
  }
}
