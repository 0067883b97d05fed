/**
 * modulo: a - (a // b) * b, computed with divide, multiply and subtract.
 * The remainder of Python's floor division lies in [0, b) for b > 0 and in
 * (b, 0] for b < 0.  As written, the intermediate product (a // b) * b can
 * exceed MAX_SUPPORTED_MAGNITUDE digits even when the remainder is small,
 * and then the saturated product turns the remainder into an infinity;
 * ModuloExact computes the same remainder from the unsigned long division
 * and never overflows.
 */
module Remainder {
  import opened Numbers
  import opened Normalization
  import opened Comparison
  import opened Arithmetic
  import opened Division

  // ---------------------------------------------------------------------
  // Reference definitions

  /** Python's x % y: the remainder of floor division. */
  function FloorMod(x: int, y: int): int
    requires y != 0
  {
    x - FloorDiv(x, y) * y
  }

  /** The floor remainder lies in [0, y) for y > 0 and in (y, 0] for y < 0. */
  lemma FloorModRange(x: int, y: int)
    requires y != 0
    ensures y > 0 ==> 0 <= FloorMod(x, y) < y
    ensures y < 0 ==> y < FloorMod(x, y) <= 0
  {
    FloorDivIsFloor(x, y);
  }

  /** Both signs are +1 or -1, and so is their product; the product of magnitudes is the magnitude of the product. */
  lemma SignedProduct(sa: Sign, sb: Sign, x: int, y: int)
    requires x >= 1 && y >= 1
    ensures (sa * x) * (sb * y) == (sa * sb) * (x * y)
    ensures x * y >= 1
    ensures SignOf((sa * x) * (sb * y), 1) == sa * sb
    ensures Abs((sa * x) * (sb * y)) == x * y
  {
    MulLe(1, x, y);
  }

  /** multiply on valid finite operands is the canonical number of the exact product (a zero product is +0). */
  lemma MulValue(a: Num, b: Num)
    requires Valid(a) && Valid(b) && a.Finite? && b.Finite?
    ensures MulSpec(a, b) == Ok(FromInt(Value(a) * Value(b), 1))
  {
    ValidFacts(a);
    ValidFacts(b);
    var x, y := Val(a.blocks), Val(b.blocks);
    if x == 0 || y == 0 {
      assert Value(a) == 0 || Value(b) == 0;
    } else {
      ProductIs(a, b, x, y);
    }
  }

  /** multiply of nonzero finite operands is the canonical number of Value(a) * Value(b). */
  lemma ProductIs(a: Num, b: Num, x: nat, y: nat)
    requires a.Finite? && b.Finite? && x == Val(a.blocks) >= 1 && y == Val(b.blocks) >= 1
    requires !IsZeroBlocks(a) && !IsZeroBlocks(b) && |a.blocks| >= 1
    ensures MulSpec(a, b) == Ok(FromInt(Value(a) * Value(b), 1))
  {
    SignedProduct(a.sign, b.sign, x, y);
  }

  /**
   * What modulo gives on numbers the library produces, step by step as the
   * code does it: an infinite divisor gives the dividend back, an infinite
   * dividend raises, a zero divisor raises, a zero dividend is returned as
   * it is, and otherwise the dividend minus the product of the floor
   * quotient and the divisor, where the product saturates like any other.
   */
  function ModSpec(a: Num, b: Num): Result<Num>
    requires Valid(a) && Valid(b)
  {
    if b.Inf? then Ok(a)
    else if a.Inf? then Err(UndefinedInfModFinite)
    else if IsZeroBlocks(b) then Err(ModuloByZero)
    else if IsZeroBlocks(a) then Ok(a)
    else
      NonzeroDivisor(b);
      var q := FromInt(FloorDiv(Value(a), Value(b)), 1);
      match MulSpec(q, b)
      case Err(e) => Err(e)
      case Ok(p) => SubSpec(a, p)
  }

  /** The remainder the library means: the guards of modulo, then the exact floor remainder, a zero carrying a's sign. */
  function ModExactSpec(a: Num, b: Num): Result<Num>
    requires Valid(a) && Valid(b)
  {
    if b.Inf? then Ok(a)
    else if a.Inf? then Err(UndefinedInfModFinite)
    else if IsZeroBlocks(b) then Err(ModuloByZero)
    else if IsZeroBlocks(a) then Ok(a)
    else
      NonzeroDivisor(b);
      Ok(FromInt(FloorMod(Value(a), Value(b)), a.sign))
  }

  // ---------------------------------------------------------------------
  // Facts about the reference definitions

  /** The floor remainder is smaller than the divisor in absolute value. */
  lemma ModBound(x: int, s: Sign, d: int)
    requires d >= 1
    ensures s * d != 0 && Abs(FloorMod(x, s * d)) < d
  {
    FloorModRange(x, s * d);
  }

  /** |q| <= |q * y| for a nonzero y. */
  lemma AbsProduct(q: int, y: int)
    requires y != 0
    ensures Abs(q) <= Abs(q * y)
  {
    var aq: int, ay: int := Abs(q), Abs(y);
    MulLe(1, ay, aq);
    if (q < 0) != (y < 0) {
      assert q * y == -(aq * ay);
    } else {
      assert q * y == aq * ay;
    }
  }

  /** An integer no larger in absolute value than a finite number's value is held exactly. */
  lemma FromIntBelow(m: int, z: Sign, d: nat)
    requires Abs(m) <= d && FromVal(1, d).Finite?
    ensures FromInt(m, z).Finite? && Valid(FromInt(m, z)) && Value(FromInt(m, z)) == m
  {
    FitsBelow(Abs(m), d);
    FromIntFacts(m, z);
  }

  /** Zero has remainder zero. */
  lemma FloorModZero(y: int)
    requires y != 0
    ensures FloorMod(0, y) == 0
  {
    if y > 0 {
      DivModUnique(0, y, 0, 0);
    } else {
      DivModUnique(0, -y, 0, 0);
    }
  }

  /** A valid finite number is zero exactly when its blocks are [0]. */
  lemma ZeroBlocksIff(n: Num)
    requires Valid(n) && n.Finite?
    ensures IsZeroBlocks(n) <==> Val(n.blocks) == 0
    ensures IsZeroBlocks(n) ==> Value(n) == 0
  {
    ValidFacts(n);
    if IsZeroBlocks(n) {
      assert n.blocks == [0];
    }
  }

  /** The exact remainder of valid finite operands is a valid finite number within the divisor. */
  lemma ModExactRange(a: Num, b: Num)
    requires Valid(a) && Valid(b) && a.Finite? && b.Finite? && !IsZeroBlocks(b)
    ensures ModExactSpec(a, b).Ok?
    ensures ModExactSpec(a, b).value.Finite? && Valid(ModExactSpec(a, b).value)
    ensures Value(b) != 0 && Value(ModExactSpec(a, b).value) == FloorMod(Value(a), Value(b))
    ensures Value(b) > 0 ==> 0 <= Value(ModExactSpec(a, b).value) < Value(b)
    ensures Value(b) < 0 ==> Value(b) < Value(ModExactSpec(a, b).value) <= 0
  {
    NonzeroDivisor(b);
    ValidFits(b);
    ModBound(Value(a), b.sign, Val(b.blocks));
    FloorModRange(Value(a), Value(b));
    FromIntBelow(FloorMod(Value(a), Value(b)), a.sign, Val(b.blocks));
    ZeroBlocksIff(a);
    if IsZeroBlocks(a) {
      FloorModZero(Value(b));
    }
  }

  /** Where the product (a // b) * b fits, modulo is the exact remainder. */
  lemma ModuloAgrees(a: Num, b: Num)
    requires Valid(a) && Valid(b) && a.Finite? && b.Finite? && !IsZeroBlocks(b) && Value(b) != 0
    requires !Overflows(FloorDiv(Value(a), Value(b)) * Value(b))
    ensures ModSpec(a, b) == ModExactSpec(a, b)
  {
    if !IsZeroBlocks(a) {
      var x, y := Value(a), Value(b);
      var q := FloorDiv(x, y);
      AbsProduct(q, y);
      FromIntFacts(q * y, 1);
      FromIntBelow(q, 1, Abs(q * y));
      MulValue(FromInt(q, 1), b);
    }
  }

  /** Same signs: the remainder of the magnitudes, with their sign. */
  lemma ModSameSigns(v: int, d: int)
    requires v >= 0 && d >= 1
    ensures FloorMod(v, d) == v % d && FloorMod(-v, -d) == -(v % d)
  {
    FloorBySigns(1, 1, v, d);
    FloorBySigns(-1, -1, v, d);
  }

  /** Positive dividend, negative divisor: zero, or the remainder minus d. */
  lemma ModPositiveOverNegative(v: int, d: int)
    requires v >= 0 && d >= 1
    ensures FloorMod(v, -d) == if v % d == 0 then 0 else -(d - v % d)
  {
    FloorBySigns(1, -1, v, d);
    var q, m := v / d, v % d;
    assert v == q * d + m;
    if m == 0 {
      assert FloorDiv(v, -d) == -q;
      assert (-q) * (-d) == q * d;
    } else {
      assert FloorDiv(v, -d) == -q - 1;
      assert (-q - 1) * (-d) == q * d + d;
    }
  }

  /** Negative dividend, positive divisor: zero, or d minus the remainder. */
  lemma ModNegativeOverPositive(v: int, d: int)
    requires v >= 0 && d >= 1
    ensures FloorMod(-v, d) == if v % d == 0 then 0 else d - v % d
  {
    FloorBySigns(-1, 1, v, d);
    var q, m := v / d, v % d;
    assert v == q * d + m;
    if m != 0 {
      assert (q + 1) * d == q * d + d;
    }
  }

  /** 0 <= (x // y) * y <= x for x >= 0 and y > 0. */
  lemma ProductBelow(x: int, y: int)
    requires x >= 0 && y > 0
    ensures 0 <= FloorDiv(x, y) * y <= x
  {
    FloorDivIsFloor(x, y);
    var q := FloorDiv(x, y);
    if q < 0 {
      MulLe(1, -q, y);
    }
  }

  /** The value of a valid finite number does not overflow. */
  lemma ValueFits(n: Num)
    requires Valid(n) && n.Finite?
    ensures !Overflows(Value(n))
  {
    ValidFacts(n);
    if n.sign == 1 {
      assert Value(n) == Val(n.blocks);
    } else {
      assert Value(n) == -(Val(n.blocks) as int);
    }
    assert Abs(Value(n)) == Val(n.blocks);
  }

  /** On a non-negative dividend and a positive divisor the product never overflows, so modulo is exact. */
  lemma ModuloNonnegative(a: Num, b: Num)
    requires Valid(a) && Valid(b) && a.Finite? && b.Finite? && Value(a) >= 0 && Value(b) > 0
    ensures ModSpec(a, b) == ModExactSpec(a, b)
  {
    var x, y := Value(a), Value(b);
    ZeroBlocksIff(b);
    ProductBelow(x, y);
    ValueFits(a);
    NumDigitsMono(FloorDiv(x, y) * y, x);
    ModuloAgrees(a, b);
  }

  /** The floor remainder of signed magnitudes: the unsigned remainder, or its complement in d when the signs differ. */
  lemma ModBySigns(sa: Sign, sb: Sign, v: int, d: int)
    requires v >= 0 && d >= 1
    ensures sb * d != 0
    ensures sa == sb ==> FloorMod(sa * v, sb * d) == sa * (v % d)
    ensures sa != sb && v % d == 0 ==> FloorMod(sa * v, sb * d) == 0
    ensures sa != sb && v % d != 0 ==> FloorMod(sa * v, sb * d) == sb * (d - v % d)
  {
    if sa == sb {
      ModSameSigns(v, d);
    } else if sa == 1 {
      ModPositiveOverNegative(v, d);
    } else {
      ModNegativeOverPositive(v, d);
    }
  }

  /** The exact remainder on finite operands whose floor remainder is s * k (k > 0, or a zero of a's sign). */
  lemma ModExactIs(a: Num, b: Num, s: Sign, k: int)
    requires Valid(a) && Valid(b) && a.Finite? && b.Finite? && !IsZeroBlocks(a) && !IsZeroBlocks(b) && Value(b) != 0
    requires k >= 0 && (s == a.sign || k >= 1) && FloorMod(Value(a), Value(b)) == s * k
    ensures ModExactSpec(a, b) == Ok(FromVal(s, k))
  {
    FromIntParts(k);
    if s == -1 {
      assert s * k == -k;
    }
  }

  /** The integer side of the saturating remainder: -(y + 1) // y is -2 and the remainder is y - 1. */
  lemma SaturationArith(y: int)
    requires y >= 2
    ensures FloorDiv(-(y + 1), y) == -2 && FloorMod(-(y + 1), y) == y - 1
  {
    DivModUnique(-(y + 1), y, -2, y - 1);
  }

  /**
   * modulo saturates where the exact remainder is small: for b >= 2 and
   * a = -(b + 1) the floor quotient is -2, and when 2 * b is past the cap
   * multiply returns -∞, so subtract turns a - (-∞) into +∞, where the exact
   * remainder is b - 1.
   */
  lemma ModuloSaturates(a: Num, b: Num)
    requires Valid(a) && Valid(b) && a.Finite? && b.Finite?
    requires Value(b) >= 2 && Value(a) == -(Value(b) + 1) && Overflows(2 * Value(b))
    ensures ModSpec(a, b) == Ok(POS_INF)
    ensures ModExactSpec(a, b).Ok? && ModExactSpec(a, b).value.Finite?
    ensures Value(ModExactSpec(a, b).value) == Value(b) - 1
  {
    var y := Value(b);
    SaturationArith(y);
    ZeroBlocksIff(a);
    ZeroBlocksIff(b);
    ModExactRange(a, b);
    FromIntFacts(-2, 1);
    MulValue(FromInt(-2, 1), b);
    FromIntFacts(-2 * y, 1);
    assert Abs(-2 * y) == Abs(2 * y);
  }

  /**
   * Operands ModuloSaturates applies to: b = y = 10^3003 - 2 and a = -x =
   * -(10^3003 - 1) are both finite, and 2 * b has 3004 digits.
   */
  lemma SaturatingOperands(k: nat, p: nat, x: nat, y: nat)
    requires k == MAX_SUPPORTED_MAGNITUDE && p == Pow10(k) && x == p - 1 && y == p - 2
    ensures p >= 10
    ensures FromVal(-1, x).Finite? && Valid(FromVal(-1, x)) && Value(FromVal(-1, x)) == -(x as int)
    ensures FromVal(1, y).Finite? && Valid(FromVal(1, y)) && Value(FromVal(1, y)) == y
    ensures Overflows(2 * y)
  {
    Pow10Mono(1, k);
    assert Pow10(1) == 10;
    NegativeBelow(x, k);
    PositiveBelow(y, k);
    OverflowsAtLeast(2 * y, k);
  }

  /** A magnitude of at least 10^3003 overflows. */
  lemma OverflowsAtLeast(x: nat, k: nat)
    requires k == MAX_SUPPORTED_MAGNITUDE && x >= Pow10(k)
    ensures Overflows(x)
  {
    assert Abs(x) == x;
    NumDigitsAtMost(x, k);
  }

  /** A positive number below 10^3003 is finite and keeps its value. */
  lemma PositiveBelow(x: nat, k: nat)
    requires k == MAX_SUPPORTED_MAGNITUDE && x < Pow10(k)
    ensures FromVal(1, x).Finite? && Valid(FromVal(1, x)) && Value(FromVal(1, x)) == x
  {
    FromValBelow(1, x, k);
    ValueBySign(FromVal(1, x), x);
  }

  /** A negative number below 10^3003 in magnitude is finite and keeps its value. */
  lemma NegativeBelow(x: nat, k: nat)
    requires k == MAX_SUPPORTED_MAGNITUDE && x < Pow10(k)
    ensures FromVal(-1, x).Finite? && Valid(FromVal(-1, x)) && Value(FromVal(-1, x)) == -(x as int)
  {
    FromValBelow(-1, x, k);
    ValueBySign(FromVal(-1, x), x);
  }

  // ---------------------------------------------------------------------
  // The operations

  /** A canonical number given a sign keeps its value's canonical form. */
  lemma SignedFromVal(x: nat, s: Sign)
    ensures WithSign(FromVal(1, x), s) == FromVal(s, x)
  {
  }

  /** What multiply gives on a valid quotient and a valid divisor is valid. */
  lemma ProductValid(q: Num, b: Num)
    requires Valid(q) && Valid(b) && b.Finite?
    ensures MulSpec(q, b).Ok? ==> Valid(MulSpec(q, b).value)
  {
    if q.Finite? {
      MulValue(q, b);
      FromIntFacts(Value(q) * Value(b), 1);
    }
  }

  /** modulo(a, b), as written: a - divide(a, b) * b with the library's own multiply and subtract. */
  method Modulo(a: Num, b: Num) returns (r: Result<Num>)
    requires Valid(a) && Valid(b)
    ensures r == ModSpec(a, b)
  {
    if b.Inf? {
      r := Ok(a);
      return;
    }
    if a.Inf? {
      r := Err(UndefinedInfModFinite);
      return;
    }
    if IsZeroBlocks(b) {
      r := Err(ModuloByZero);
      return;
    }
    if IsZeroBlocks(a) {
      r := Ok(a);
      return;
    }
    var quotient := Divide(a, b);
    NonzeroDivisor(b);
    FromIntFacts(FloorDiv(Value(a), Value(b)), 1);
    var product := Multiply(quotient.value, b);
    if product.Err? {
      r := Err(product.error);
      return;
    }
    ProductValid(quotient.value, b);
    ValidWellFormed(a);
    r := Subtract(a, product.value);
  }

  /**
   * modulo without the intermediate product: the unsigned remainder of the
   * long division, given the divisor's sign, or complemented in |b| when the
   * signs differ; a zero remainder carries a's sign, as subtract gives it.
   */
  method ModuloExact(a: Num, b: Num) returns (r: Result<Num>)
    requires Valid(a) && Valid(b)
    ensures r == ModExactSpec(a, b)
  {
    if b.Inf? {
      r := Ok(a);
      return;
    }
    if a.Inf? {
      r := Err(UndefinedInfModFinite);
      return;
    }
    if IsZeroBlocks(b) {
      r := Err(ModuloByZero);
      return;
    }
    if IsZeroBlocks(a) {
      r := Ok(a);
      return;
    }
    NonzeroDivisor(b);
    var absA := Unsigned(a);
    var absB := Unsigned(b);
    ValidWithSign(a, 1);
    ValidWithSign(b, 1);
    var quot, rem := LongDivision(absA, absB);
    ghost var v: int, d: int := Val(a.blocks), Val(b.blocks);
    ModBySigns(a.sign, b.sign, v, d);
    ValidFits(b);
    FitsBelow(v % d, d);
    SingleBlock(0);
    var zero := Normalize(1, [0], None);
    ZeroTest(v % d);
    if IsEqual(rem, zero) {
      ModExactIs(a, b, a.sign, 0);
      SignedFromVal(0, a.sign);
      r := Ok(WithSign(rem, a.sign));
    } else if a.sign == b.sign {
      ModExactIs(a, b, a.sign, v % d);
      SignedFromVal(v % d, a.sign);
      r := Ok(WithSign(rem, a.sign));
    } else {
      assert absB == FromVal(1, d);
      SubFromVal(d, v % d);
      ValidWellFormed(absB);
      var diff := Subtract(absB, rem);
      ModExactIs(a, b, b.sign, d - v % d);
      SignedFromVal(d - v % d, b.sign);
      r := Ok(WithSign(diff.value, b.sign));
    }
  }
}
