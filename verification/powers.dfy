/**
 * power.  It settles the infinite and zero cases by a table, refuses
 * negative exponents, gives +∞ for exponents above 10000, and otherwise
 * squares and multiplies; every multiplication saturates, and an infinite
 * intermediate is returned at once.
 */
module Powers {
  import opened Numbers
  import opened Normalization
  import opened Comparison
  import opened Arithmetic
  import opened Division
  import opened Remainder

  /** Exponents above this give +∞ without computing. */
  const EXPONENT_CAP: nat := 10000

  // ---------------------------------------------------------------------
  // Reference definitions

  /** x to the n. */
  function Pow(x: int, n: nat): int
    decreases n
  {
    if n == 0 then 1 else x * Pow(x, n - 1)
  }

  lemma {:induction false} PowAdd(x: int, m: nat, n: nat)
    ensures Pow(x, m + n) == Pow(x, m) * Pow(x, n)
    decreases m
  {
    if m > 0 {
      PowAdd(x, m - 1, n);
      assert Pow(x, m + n) == x * Pow(x, (m - 1) + n);
      assert x * (Pow(x, m - 1) * Pow(x, n)) == (x * Pow(x, m - 1)) * Pow(x, n);
    }
  }

  lemma {:induction false} PowSquare(x: int, n: nat)
    ensures Pow(x * x, n) == Pow(x, 2 * n)
    decreases n
  {
    if n > 0 {
      PowSquare(x, n - 1);
      assert Pow(x, 2 * n) == x * (x * Pow(x, 2 * (n - 1)));
      assert (x * x) * Pow(x, 2 * (n - 1)) == x * (x * Pow(x, 2 * (n - 1)));
    }
  }

  /** The absolute value of a power is the power of the absolute value, at least 1 for a nonzero base. */
  lemma {:induction false} PowAbs(x: int, n: nat)
    ensures Abs(Pow(x, n)) == Pow(Abs(x), n)
    ensures x != 0 ==> Pow(Abs(x), n) >= 1
    decreases n
  {
    if n > 0 {
      PowAbs(x, n - 1);
      AbsMul(x, Pow(x, n - 1));
      if x != 0 {
        MulLe(1, Abs(x), Pow(Abs(x), n - 1));
      }
    }
  }

  /** For a nonzero base, a larger exponent gives a power at least as large in absolute value. */
  lemma PowAbsMono(x: int, m: nat, n: nat)
    requires x != 0 && m <= n
    ensures Abs(Pow(x, m)) <= Abs(Pow(x, n))
  {
    var a := Abs(Pow(x, m));
    var c := Abs(Pow(x, n - m));
    assert Abs(Pow(x, n)) == a * c by {
      PowAdd(x, m, n - m);
      AbsMul(Pow(x, m), Pow(x, n - m));
    }
    assert c >= 1 by {
      PowAbs(x, n - m);
    }
    MulLe(1, c, a);
  }

  /** A value at least as large in absolute value as an overflowing one overflows too. */
  lemma OverflowsMono(x: int, y: int)
    requires Abs(x) <= Abs(y) && Overflows(x)
    ensures Overflows(y)
  {
    NumDigitsMono(Abs(x), Abs(y));
  }

  /** One round of square-and-multiply keeps r * c^e. */
  lemma PowStep(r: int, c: int, e: nat)
    requires e >= 1
    ensures r * Pow(c, e) == (if e % 2 == 1 then r * c else r) * Pow(c * c, e / 2)
  {
    PowSquare(c, e / 2);
    if e % 2 == 1 {
      assert e == 1 + 2 * (e / 2);
      PowAdd(c, 1, 2 * (e / 2));
      assert r * (c * Pow(c, 2 * (e / 2))) == (r * c) * Pow(c, 2 * (e / 2));
    } else {
      assert e == 2 * (e / 2);
    }
  }

  // ---------------------------------------------------------------------
  // power

  /** The blocks are exactly [1] and the sign is +1 (power's test for the base 1). */
  predicate IsOne(n: Num)
  {
    n.Finite? && |n.blocks| == 1 && n.blocks[0] == 1 && n.sign == 1
  }

  /**
   * power's table of special cases, in the order the code tests them; None
   * when the code goes on to square-and-multiply (finite nonzero base,
   * positive exponent of at most EXPONENT_CAP).
   */
  function PowSpecial(b: Num, e: Num): Option<Result<Num>>
  {
    if b.Inf? then
      if e.Inf? then Some(Err(UndefinedInfPowInf))
      else if IsZeroBlocks(e) then Some(Err(UndefinedInfPowZero))
      else Some(Ok(if e.sign > 0 then b else FromVal(1, 0)))
    else if e.Inf? then
      if IsZeroBlocks(b) then Some(Ok(if e.sign > 0 then b else POS_INF))
      else if IsOne(b) then Some(Err(UndefinedOnePowInf))
      else Some(Ok(if e.sign > 0 then POS_INF else FromVal(1, 0)))
    else if IsZeroBlocks(e) then Some(Ok(FromVal(1, 1)))
    else if IsZeroBlocks(b) then Some(if e.sign > 0 then Ok(b) else Err(ZeroToNegativePower))
    else if e.sign < 0 then Some(Err(NegativeExponent))
    else if Val(e.blocks) > EXPONENT_CAP then Some(Ok(POS_INF))
    else None
  }

  /**
   * The square-and-multiply loop as the code runs it: multiply in the base
   * on an odd exponent, square the base every round, and stop at the first
   * infinite product (the running result or the squared base).
   */
  function PowLoop(result: Num, cb: Num, e: nat): Result<Num>
    decreases e
  {
    if e == 0 then Ok(result)
    else
      var r := if e % 2 == 1 then MulSpec(result, cb) else Ok(result);
      if r.Err? || r.value.Inf? then r
      else
        var c := MulSpec(cb, cb);
        if c.Err? || c.value.Inf? then c
        else PowLoop(r.value, c.value, e / 2)
  }

  /** What power gives. */
  function PowSpec(b: Num, e: Num): Result<Num>
  {
    match PowSpecial(b, e)
    case Some(r) => r
    case None => PowLoop(FromVal(1, 1), b, Val(e.blocks))
  }

  /** The loop's case: a finite base that is not [0] and a positive exponent within the cap. */
  lemma PowLoopCase(b: Num, e: Num)
    requires Valid(b) && Valid(e) && PowSpecial(b, e).None?
    ensures b.Finite? && e.Finite? && Value(b) != 0 && e.sign == 1
    ensures 1 <= Value(e) == Val(e.blocks) <= EXPONENT_CAP
  {
    ZeroBlocksIff(b);
    ZeroBlocksIff(e);
  }

  /** multiply of two valid finite numbers: a valid number, exact when finite, overflowing when infinite. */
  lemma MulFacts(x: Num, y: Num)
    requires Valid(x) && Valid(y) && x.Finite? && y.Finite?
    ensures MulSpec(x, y).Ok? && Valid(MulSpec(x, y).value)
    ensures MulSpec(x, y).value.Finite? ==> Value(MulSpec(x, y).value) == Value(x) * Value(y)
    ensures MulSpec(x, y).value.Inf? ==> Overflows(Value(x) * Value(y))
    ensures MulSpec(x, y).value.Inf? ==> MulSpec(x, y).value.sign == SignOf(Value(x) * Value(y), 1)
  {
    MulValue(x, y);
    FromIntFacts(Value(x) * Value(y), 1);
  }

  /** A valid finite number with a nonzero value is the canonical number of that value. */
  lemma ValidIsFromInt(n: Num)
    requires Valid(n) && n.Finite? && Value(n) != 0
    ensures FromInt(Value(n), 1) == n
  {
    var v := Val(n.blocks);
    if n.sign == 1 {
      assert Value(n) == v;
    } else {
      assert Value(n) == -(v as int);
    }
    assert Abs(Value(n)) == v && SignOf(Value(n), 1) == n.sign;
  }

  /** The integer facts behind one round: a power of a nonzero base is nonzero, and a factor of it is no larger. */
  lemma FactorBelow(p: int, q: int, x: int)
    requires x == p * q && q != 0
    ensures Abs(p) <= Abs(x)
  {
    AbsMul(p, q);
    MulLe(1, Abs(q), Abs(p));
  }

  /** An overflowing factor of b^E makes b^(2E) overflow. */
  lemma OverflowUp(p: int, q: int, b: int, n: nat)
    requires b != 0 && p * q == Pow(b, n) && q != 0 && Overflows(p)
    ensures Overflows(Pow(b, 2 * n))
  {
    FactorBelow(p, q, Pow(b, n));
    PowAbsMono(b, n, 2 * n);
    OverflowsMono(p, Pow(b, 2 * n));
  }

  /** Bookkeeping of the squared base: c * c is b^(2k), and 2k * (e / 2) <= k * e. */
  lemma SquareExponent(b: int, c: int, k: nat, e: nat)
    requires c == Pow(b, k)
    ensures c * c == Pow(b, 2 * k)
    ensures 2 * k * (e / 2) <= k * e
  {
    PowAdd(b, k, k);
    MulLe(2 * (e / 2), e, k);
  }

  lemma ExponentBelow(k: nat, e: nat, bigE: nat)
    requires e >= 1 && k * e <= bigE
    ensures 2 * k <= 2 * bigE
  {
    MulLe(1, e, k);
  }

  /**
   * The loop's outcome from any state that keeps result * cb^e == b^E with
   * cb == b^k and k * e <= E: a valid number, the canonical b^E when finite,
   * and infinite only if b^(2E) overflows.
   */
  lemma {:induction false} PowLoopFacts(result: Num, cb: Num, e: nat, b: int, bigE: nat, k: nat)
    requires Valid(result) && Valid(cb) && result.Finite? && cb.Finite? && b != 0
    requires Value(result) * Pow(Value(cb), e) == Pow(b, bigE)
    requires Value(cb) == Pow(b, k) && k * e <= bigE
    ensures PowLoop(result, cb, e).Ok? && Valid(PowLoop(result, cb, e).value)
    ensures PowLoop(result, cb, e).value.Finite? ==> PowLoop(result, cb, e).value == FromInt(Pow(b, bigE), 1)
    ensures PowLoop(result, cb, e).value.Inf? ==> Overflows(Pow(b, 2 * bigE))
    decreases e
  {
    var rv, cv := Value(result), Value(cb);
    var p := PowLoop(result, cb, e);
    if e == 0 {
      assert p == Ok(result);
      PowAbs(b, bigE);
      ValidIsFromInt(result);
    } else {
      PowAbs(b, k);
      PowStep(rv, cv, e);
      PowAbs(cv * cv, e / 2);
      AbsMul(cv, cv);
      var r := if e % 2 == 1 then MulSpec(result, cb) else Ok(result);
      var rv' := if e % 2 == 1 then rv * cv else rv;
      assert rv' * Pow(cv * cv, e / 2) == Pow(b, bigE);
      if e % 2 == 1 {
        MulFacts(result, cb);
      }
      if r.value.Inf? {
        assert p == r;
        OverflowUp(rv * cv, Pow(cv * cv, e / 2), b, bigE);
      } else {
        MulFacts(cb, cb);
        SquareExponent(b, cv, k, e);
        var c := MulSpec(cb, cb);
        if c.value.Inf? {
          assert p == c;
          ExponentBelow(k, e, bigE);
          PowAbsMono(b, 2 * k, 2 * bigE);
          OverflowsMono(cv * cv, Pow(b, 2 * bigE));
        } else {
          assert p == PowLoop(r.value, c.value, e / 2);
          PowLoopFacts(r.value, c.value, e / 2, b, bigE, 2 * k);
        }
      }
    }
  }

  /**
   * On the loop's case power gives a valid number: the canonical b^e when
   * it is finite, +∞ or -∞ only when b^(2e) overflows, and always an
   * infinity when b^e itself overflows.
   */
  lemma PowerValue(b: Num, e: Num)
    requires Valid(b) && Valid(e) && PowSpecial(b, e).None?
    ensures b.Finite? && e.Finite?
    ensures PowSpec(b, e).Ok? && Valid(PowSpec(b, e).value)
    ensures PowSpec(b, e).value.Finite? ==> PowSpec(b, e).value == FromInt(Pow(Value(b), Value(e)), 1)
    ensures PowSpec(b, e).value.Inf? ==> Overflows(Pow(Value(b), 2 * Value(e)))
    ensures Overflows(Pow(Value(b), Value(e))) ==> PowSpec(b, e).value.Inf?
  {
    PowLoopCase(b, e);
    SingleBlock(1);
    var one := FromVal(1, 1);
    assert Value(one) == 1;
    var bigE := Value(e);
    assert 1 * Pow(Value(b), bigE) == Pow(Value(b), bigE);
    PowLoopFacts(one, b, bigE, Value(b), bigE, 1);
    if PowSpec(b, e).value.Finite? {
      FromIntFacts(Pow(Value(b), bigE), 1);
    }
  }

  /** power's special cases, checked in the code's order; None when the loop runs. */
  method PowerGuards(b: Num, e: Num) returns (g: Option<Result<Num>>)
    ensures g == PowSpecial(b, e)
  {
    SingleBlock(0);
    SingleBlock(1);
    if b.Inf? {
      if e.Inf? {
        g := Some(Err(UndefinedInfPowInf));
      } else if IsZeroBlocks(e) {
        g := Some(Err(UndefinedInfPowZero));
      } else if e.sign > 0 {
        g := Some(Ok(b));
      } else {
        var zero := Normalize(1, [0], None);
        g := Some(Ok(zero));
      }
      return;
    }
    if e.Inf? {
      if IsZeroBlocks(b) {
        g := Some(Ok(if e.sign > 0 then b else POS_INF));
      } else if IsOne(b) {
        g := Some(Err(UndefinedOnePowInf));
      } else if e.sign > 0 {
        g := Some(Ok(POS_INF));
      } else {
        var zero := Normalize(1, [0], None);
        g := Some(Ok(zero));
      }
      return;
    }
    if IsZeroBlocks(e) {
      var one := Normalize(1, [1], None);
      g := Some(Ok(one));
      return;
    }
    if IsZeroBlocks(b) {
      g := Some(if e.sign > 0 then Ok(b) else Err(ZeroToNegativePower));
      return;
    }
    if e.sign < 0 {
      g := Some(Err(NegativeExponent));
      return;
    }
    var ev := Val(e.blocks);
    if ev > EXPONENT_CAP {
      g := Some(Ok(POS_INF));
      return;
    }
    g := None;
  }

  /** power(base, exponent) */
  method Power(b: Num, e: Num) returns (r: Result<Num>)
    requires Valid(b) && Valid(e)
    ensures r == PowSpec(b, e)
  {
    var g := PowerGuards(b, e);
    if g.Some? {
      r := g.value;
      return;
    }
    PowLoopCase(b, e);
    var ev: nat := Val(e.blocks);
    SingleBlock(1);
    var result := Normalize(1, [1], None);
    var cb := b;
    while ev > 0
      invariant result.Finite? && cb.Finite?
      invariant PowLoop(result, cb, ev) == PowSpec(b, e)
      decreases ev
    {
      if ev % 2 == 1 {
        var m := Multiply(result, cb);
        result := m.value;
        if result.Inf? {
          r := Ok(result);
          return;
        }
      }
      var c := Multiply(cb, cb);
      cb := c.value;
      if cb.Inf? {
        r := Ok(cb);
        return;
      }
      ev := ev / 2;
    }
    r := Ok(result);
  }

  // ---------------------------------------------------------------------
  // power without the extra squaring

  /** What power is meant to give: the special cases, then the canonical b^e (saturated). */
  function PowExactSpec(b: Num, e: Num): Result<Num>
  {
    match PowSpecial(b, e)
    case Some(r) => r
    case None => Ok(FromInt(Pow(Value(b), Val(e.blocks)), 1))
  }

  /** An overflowing factor p of x == p * q with q >= 1 saturates to the same infinity as x. */
  lemma SameInfinity(p: int, q: int, x: int)
    requires x == p * q && q >= 1 && Overflows(p)
    ensures FromInt(x, 1) == FromInt(p, 1) && FromInt(x, 1).Inf?
  {
    FactorBelow(p, q, x);
    OverflowsMono(p, x);
    FromIntFacts(x, 1);
    FromIntFacts(p, 1);
    if p > 0 {
      MulLe(1, q, p);
    } else {
      MulLe(1, q, -p);
    }
  }

  lemma NonzeroProduct(p: int, q: int)
    requires p != 0 && q != 0
    ensures p * q != 0
  {
    AbsMul(p, q);
    MulLe(1, Abs(q), Abs(p));
  }

  /** A power of a nonzero square is positive. */
  lemma SquarePowPositive(c: int, n: nat)
    requires c != 0
    ensures Pow(c * c, n) >= 1
  {
    PowSquare(c, n);
    PowAbs(c * c, n);
    assert c * c > 0 by {
      if c < 0 { assert c * c == (-c) * (-c); }
    }
    PowAbs(c, 2 * n);
  }

  /** The squared base overflowing while bits remain makes b^E the infinity of the running result's sign. */
  lemma SquareOverflow(rv: int, c: int, n: nat, x: int)
    requires rv != 0 && c != 0 && n >= 1 && x == rv * Pow(c * c, n) && Overflows(c * c)
    ensures FromInt(x, 1) == Inf(SignOf(rv, 1))
  {
    SquarePowPositive(c, n - 1);
    assert Pow(c * c, n) == (c * c) * Pow(c * c, n - 1);
    var q := rv * Pow(c * c, n - 1);
    assert x == (c * c) * q;
    AbsMul(rv, Pow(c * c, n - 1));
    MulLe(1, Abs(Pow(c * c, n - 1)), Abs(rv));
    FactorBelow(c * c, q, x);
    OverflowsMono(c * c, x);
    FromIntFacts(x, 1);
    SquarePowPositive(c, n);
    if rv > 0 {
      MulLe(1, Pow(c * c, n), rv);
    } else {
      MulLe(1, Pow(c * c, n), -rv);
    }
  }

  /** The running numbers of the exact loop: result * cb^ev == x, all finite and nonzero. */
  predicate LoopState(result: Num, cb: Num, ev: nat, x: int)
  {
    Valid(result) && Valid(cb) && result.Finite? && cb.Finite?
    && Value(cb) != 0 && Value(result) != 0
    && Value(result) * Pow(Value(cb), ev) == x
  }

  /** The multiply half of a loop step: take the low exponent bit into result. */
  method MultiplyBit(result: Num, cb: Num, ev: nat, ghost x: int) returns (stop: bool, r: Result<Num>, result': Num)
    requires LoopState(result, cb, ev, x) && ev > 0
    ensures stop ==> r == Ok(FromInt(x, 1))
    ensures !stop ==> Valid(result') && result'.Finite? && Value(result') != 0
    ensures !stop ==> Value(result') * Pow(Value(cb) * Value(cb), ev / 2) == x
  {
    ghost var rv, cv := Value(result), Value(cb);
    PowStep(rv, cv, ev);
    SquarePowPositive(cv, ev / 2);
    stop, r, result' := false, Ok(result), result;
    if ev % 2 == 1 {
      NonzeroProduct(rv, cv);
      MulFacts(result, cb);
      var m := Multiply(result, cb);
      if m.value.Inf? {
        SameInfinity(rv * cv, Pow(cv * cv, ev / 2), x);
        stop, r := true, m;
        return;
      }
      result' := m.value;
    }
  }

  /** A square of a nonzero value is positive. */
  lemma SquarePositive(c: int)
    requires c != 0
    ensures c * c > 0 && SignOf(c * c, 1) == 1
  {
    NonzeroProduct(c, c);
    if c < 0 {
      MulLe(1, -c, -c);
    } else {
      MulLe(1, c, c);
    }
  }

  /** A finite nonzero number times +infinity is the infinity of the number's sign. */
  lemma TimesPositiveInfinity(a: Num)
    requires Valid(a) && a.Finite? && Value(a) != 0
    ensures MulSpec(a, Inf(1)) == Ok(Inf(SignOf(Value(a), 1)))
  {
    var v := Val(a.blocks);
    assert !IsZeroBlocks(a);
    assert v > 0 && SignOf(a.sign * v, 1) == a.sign;
  }

  /** The squaring half of a loop step, done only while exponent bits remain. */
  method SquareBase(result: Num, cb: Num, n: nat, ghost x: int) returns (stop: bool, r: Result<Num>, cb': Num)
    requires Valid(result) && Valid(cb) && result.Finite? && cb.Finite?
    requires Value(cb) != 0 && Value(result) != 0 && n > 0
    requires Value(result) * Pow(Value(cb) * Value(cb), n) == x
    ensures stop ==> r == Ok(FromInt(x, 1))
    ensures !stop ==> LoopState(result, cb', n, x)
  {
    ghost var cv := Value(cb);
    NonzeroProduct(cv, cv);
    MulFacts(cb, cb);
    var c := Multiply(cb, cb);
    if c.value.Inf? {
      SquareOverflow(Value(result), cv, n, x);
      assert c.value == Inf(1) by {
        SquarePositive(cv);
      }
      TimesPositiveInfinity(result);
      r := Multiply(result, c.value);
      stop, cb' := true, cb;
    } else {
      stop, r, cb' := false, Ok(result), c.value;
    }
  }

  /**
   * The square-and-multiply loop of power, squaring the base only while
   * exponent bits remain: it computes x == result * cb^ev, saturated.
   */
  method ExactLoop(result0: Num, cb0: Num, ev0: nat, ghost x: int) returns (r: Result<Num>)
    requires LoopState(result0, cb0, ev0, x)
    ensures r == Ok(FromInt(x, 1))
  {
    var result, cb, ev := result0, cb0, ev0;
    while ev > 0
      invariant LoopState(result, cb, ev, x)
      decreases ev
    {
      var stop;
      stop, r, result := MultiplyBit(result, cb, ev, x);
      if stop {
        return;
      }
      ev := ev / 2;
      if ev > 0 {
        stop, r, cb := SquareBase(result, cb, ev, x);
        if stop {
          return;
        }
      } else {
        assert LoopState(result, cb, ev, x);
      }
    }
    ValidIsFromInt(result);
    r := Ok(result);
  }

  /** power with the base squared only while exponent bits remain. */
  method PowerExact(b: Num, e: Num) returns (r: Result<Num>)
    requires Valid(b) && Valid(e)
    ensures r == PowExactSpec(b, e)
  {
    var g := PowerGuards(b, e);
    if g.Some? {
      r := g.value;
      return;
    }
    PowLoopCase(b, e);
    var ev: nat := Val(e.blocks);
    SingleBlock(1);
    var one := Normalize(1, [1], None);
    assert Value(one) * Pow(Value(b), ev) == Pow(Value(b), ev);
    assert LoopState(one, b, ev, Pow(Value(b), ev));
    r := ExactLoop(one, b, ev, Pow(Value(b), ev));
  }

  // ---------------------------------------------------------------------
  // The extra squaring, exhibited

  /**
   * power(b, 2) as written is +∞ whenever b^4 overflows, even when b^2 is
   * representable: the last round squares the base once more after the
   * exponent is used up.  The exact power gives b^2.
   */
  lemma PowerSaturates(b: Num, e: Num, q: int, q2: int)
    requires Valid(b) && Valid(e) && b.Finite? && e.Finite? && e.sign == 1 && Val(e.blocks) == 2
    requires Value(b) != 0 && q == Value(b) * Value(b) && q2 == q * q
    requires !Overflows(q) && Overflows(q2)
    ensures PowSpec(b, e) == Ok(POS_INF)
    ensures PowExactSpec(b, e) == Ok(FromInt(q, 1))
    ensures FromInt(q, 1).Finite? && Value(FromInt(q, 1)) == q
  {
    ZeroBlocksIff(b);
    ZeroBlocksIff(e);
    assert PowSpecial(b, e).None?;
    var bv := Value(b);
    var one := FromVal(1, 1);
    FromValFacts(1, 1);
    MulFacts(b, b);
    var c := MulSpec(b, b).value;
    assert c.Finite? && Value(c) == bv * bv;
    MulFacts(one, c);
    var r := MulSpec(one, c).value;
    assert r.Finite? && Value(r) == bv * bv;
    NonzeroProduct(bv, bv);
    NonzeroProduct(bv * bv, bv * bv);
    MulFacts(c, c);
    assert (bv * bv) * (bv * bv) > 0 by {
      SquarePowPositive(bv, 1);
      SquarePowPositive(bv * bv, 1);
    }
    LoopTwo(one, b, c);
    LoopOneStops(one, c, r);
    assert Pow(bv, 2) == bv * bv;
    FromIntFacts(bv * bv, 1);
  }

  /** Two rounds of the loop from an even exponent 2: the base is squared, nothing multiplied in. */
  lemma LoopTwo(result: Num, cb: Num, c: Num)
    requires result.Finite? && MulSpec(cb, cb) == Ok(c) && c.Finite?
    ensures PowLoop(result, cb, 2) == PowLoop(result, c, 1)
  {
    assert 2 % 2 == 0 && 2 / 2 == 1;
  }

  /** The last round of the loop: a finite product r, then a square that overflows, ends with that square. */
  lemma LoopOneStops(result: Num, c: Num, r: Num)
    requires MulSpec(result, c) == Ok(r) && r.Finite?
    requires MulSpec(c, c).Ok? && MulSpec(c, c).value.Inf?
    ensures PowLoop(result, c, 1) == MulSpec(c, c)
  {
  }

  /** With 2k < m <= 4k, the square of 10^k has at most m digits and its square more. */
  lemma SquareDigits(k: nat, m: nat, p: nat, q: nat)
    requires p == Pow10(k) && q == p * p && 2 * k < m <= 4 * k
    ensures 2 < Pow10(m) && p < Pow10(m) && q < Pow10(m) <= q * q
  {
    assert Pow10(2 * k) == q && q >= 1 by {
      Pow10Add(k, k);
    }
    assert Pow10(4 * k) == q * q by {
      Pow10Add(2 * k, 2 * k);
    }
    assert q < Pow10(m) by {
      assert Pow10(2 * k + 1) == 10 * Pow10(2 * k);
      Pow10Mono(2 * k + 1, m);
    }
    Pow10Mono(m, 4 * k);
    Pow10Mono(k, 2 * k);
    Pow10Mono(1, m);
  }

  /** The operands of PowerSaturates exist: b = 10^k with 2k < 3003 <= 4k, for instance 10^1000. */
  lemma PowerSaturatingOperands(k: nat, p: nat, q: nat, q2: nat)
    requires p == Pow10(k) && q == Pow10(2 * k) && q2 == Pow10(4 * k)
    requires 2 * k < MAX_SUPPORTED_MAGNITUDE <= 4 * k
    ensures FromVal(1, p).Finite? && Valid(FromVal(1, p)) && Value(FromVal(1, p)) == p
    ensures FromVal(1, 2).Finite? && Valid(FromVal(1, 2)) && Value(FromVal(1, 2)) == 2
    ensures p != 0 && q == p * p && q2 == q * q && !Overflows(q) && Overflows(q2)
  {
    var m := MAX_SUPPORTED_MAGNITUDE;
    assert q == p * p by {
      Pow10Add(k, k);
    }
    assert q2 == q * q by {
      Pow10Add(2 * k, 2 * k);
    }
    SquareDigits(k, m, p, q);
    OverflowsIff(q, m);
    OverflowsIff(q2, m);
    FromValBelow(1, p, m);
    FromValBelow(1, 2, m);
  }

  /** power(10^1000, 2) is +∞ as written, while 10^2000 has 2001 digits and is what the exact power gives. */
  lemma PowerOfTenSquared(k: nat, p: nat)
    requires k == 1000 && p == Pow10(k)
    ensures PowSpec(FromVal(1, p), FromVal(1, 2)) == Ok(POS_INF)
    ensures PowExactSpec(FromVal(1, p), FromVal(1, 2)) == Ok(FromVal(1, p * p))
    ensures FromVal(1, p * p).Finite?
  {
    var q := Pow10(2 * k);
    var q2 := Pow10(4 * k);
    PowerSaturatingOperands(k, p, q, q2);
    PowerSaturates(FromVal(1, p), FromVal(1, 2), q, q2);
    assert SignOf(q, 1) == 1 && Abs(q) == q;
  }
}
