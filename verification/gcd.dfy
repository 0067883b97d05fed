/**
 * abs_, gcd and lcm.  abs_ drops the sign (an infinity becomes +∞); gcd
 * runs Euclid's loop on the absolute values with the library's own modulo
 * until the second operand is [0] or infinite; lcm divides the product of
 * the absolute values by the gcd.
 */
module Divisors {
  import opened Numbers
  import opened Normalization
  import opened Arithmetic
  import opened Division
  import opened Remainder

  // ---------------------------------------------------------------------
  // Reference definitions

  /** d divides x (0 divides only 0). */
  predicate Divides(d: nat, x: nat)
  {
    if d == 0 then x == 0 else x % d == 0
  }

  /** Euclid's greatest common divisor. */
  function Gcd(x: nat, y: nat): nat
    decreases y
  {
    if y == 0 then x else Gcd(y, x % y)
  }

  /** A multiple of d is divisible by d. */
  lemma MultipleDivides(d: nat, k: nat)
    ensures Divides(d, d * k)
  {
    if d > 0 {
      DivModUnique(d * k, d, k, 0);
    }
  }

  /** What d divides it divides a multiple of. */
  lemma DividesWitness(d: nat, x: nat)
    requires Divides(d, x)
    ensures d * (if d == 0 then 0 else x / d) == x
  {
  }

  /** Divisibility of y and of the remainder x % y gives divisibility of x, and back. */
  lemma DividesRemainder(d: nat, x: nat, y: nat)
    requires y > 0 && Divides(d, y)
    ensures Divides(d, x) <==> Divides(d, x % y)
  {
    var q, r := x / y, x % y;
    assert x == y * q + r;
    if d == 0 {
      return;
    }
    DividesWitness(d, y);
    var ky := y / d;
    assert y * q == d * (ky * q);
    if Divides(d, r) {
      DividesWitness(d, r);
      var kr := r / d;
      assert x == d * (ky * q + kr);
      MultipleDivides(d, ky * q + kr);
    }
    if Divides(d, x) {
      DividesWitness(d, x);
      var kx := x / d;
      assert r == d * (kx - ky * q);
      assert kx - ky * q >= 0 by {
        if kx - ky * q < 0 {
          MulLe(1, ky * q - kx, d);
        }
      }
      MultipleDivides(d, kx - ky * q);
    }
  }

  /** The gcd divides both arguments. */
  lemma {:induction false} GcdDivides(x: nat, y: nat)
    ensures Divides(Gcd(x, y), x) && Divides(Gcd(x, y), y)
    decreases y
  {
    if y == 0 {
      MultipleDivides(x, 1);
      MultipleDivides(x, 0);
    } else {
      GcdDivides(y, x % y);
      DividesRemainder(Gcd(x, y), x, y);
    }
  }

  /** Every common divisor divides the gcd. */
  lemma {:induction false} GcdGreatest(x: nat, y: nat, d: nat)
    requires Divides(d, x) && Divides(d, y)
    ensures Divides(d, Gcd(x, y))
    decreases y
  {
    if y > 0 {
      DividesRemainder(d, x, y);
      GcdGreatest(y, x % y, d);
    }
  }

  /** The gcd is no larger than a nonzero second argument, and is the first when the second is 0. */
  lemma {:induction false} GcdBound(x: nat, y: nat)
    ensures y == 0 ==> Gcd(x, y) == x
    ensures y > 0 ==> 1 <= Gcd(x, y) <= y
    decreases y
  {
    if y > 0 {
      GcdBound(y, x % y);
    }
  }

  // ---------------------------------------------------------------------
  // abs_

  /** abs_: the number without its sign; either infinity becomes +∞. */
  function AbsoluteValue(n: Num): (r: Num)
    ensures r.sign == 1 && (r.Inf? <==> n.Inf?)
    ensures Valid(n) ==> Valid(r)
    ensures Valid(n) && n.Finite? ==> Value(r) == Abs(Value(n)) && r == FromVal(1, Abs(Value(n)))
  {
    if n.Inf? then POS_INF
    else if n.sign >= 0 then n
    else Unsigned(n)
  }

  // ---------------------------------------------------------------------
  // gcd

  /**
   * What the Euclid loop of gcd gives from the pair (x, y): x once y is [0]
   * or infinite, the ∞-mod-finite error when x is infinite, and otherwise
   * the gcd of the block values.
   */
  function EuclidFrom(x: Num, y: Num): Result<Num>
  {
    if y.Inf? || IsZeroBlocks(y) then Ok(x)
    else if x.Inf? then Err(UndefinedInfModFinite)
    else Ok(FromVal(1, Gcd(Val(x.blocks), Val(y.blocks))))
  }

  /** What gcd gives. */
  function GcdSpec(a: Num, b: Num): Result<Num>
  {
    EuclidFrom(AbsoluteValue(a), AbsoluteValue(b))
  }

  /** The floor remainder of naturals is the remainder. */
  lemma FloorModNatural(x: int, y: int)
    requires x >= 0 && y > 0
    ensures FloorMod(x, y) == x % y
  {
    assert FloorDiv(x, y) == x / y;
  }

  /** One round of the loop: (x, y) goes to (y, x mod y) without changing the outcome. */
  lemma EuclidStep(x: Num, y: Num)
    requires Valid(x) && Valid(y) && x.sign == 1 && y.sign == 1 && x.Finite? && y.Finite? && !IsZeroBlocks(y)
    ensures ModSpec(x, y).Ok? && Valid(ModSpec(x, y).value) && ModSpec(x, y).value.Finite?
    ensures ModSpec(x, y).value.sign == 1
    ensures Val(ModSpec(x, y).value.blocks) < Val(y.blocks)
    ensures EuclidFrom(y, ModSpec(x, y).value) == EuclidFrom(x, y)
  {
    NonzeroDivisor(y);
    ZeroBlocksIff(x);
    ModuloNonnegative(x, y);
    ModExactRange(x, y);
    var X, Y := Val(x.blocks), Val(y.blocks);
    var m := ModSpec(x, y).value;
    assert Value(x) == X && Value(y) == Y;
    FloorModNatural(X, Y);
    assert Value(m) == X % Y;
    if IsZeroBlocks(x) {
      assert m == x;
    } else {
      FromIntFacts(X % Y, 1);
    }
    assert m.sign == 1;
    assert Val(m.blocks) == X % Y;
    ZeroBlocksIff(m);
    assert Gcd(X, Y) == Gcd(Y, X % Y);
    if X % Y == 0 {
      assert Gcd(Y, 0) == Y;
      assert y == FromVal(1, Y);
    }
  }

  /** On valid numbers gcd keeps to the Euclid outcome; it is Valid and of sign +1 when it succeeds. */
  lemma GcdSpecValid(a: Num, b: Num)
    requires Valid(a) && Valid(b)
    ensures GcdSpec(a, b).Ok? ==> Valid(GcdSpec(a, b).value) && GcdSpec(a, b).value.sign == 1
  {
    var x, y := AbsoluteValue(a), AbsoluteValue(b);
    if !(y.Inf? || IsZeroBlocks(y)) && x.Finite? {
      FromValFacts(1, Gcd(Val(x.blocks), Val(y.blocks)));
    }
  }

  /**
   * On finite numbers gcd is the canonical gcd(|a|, |b|): a common divisor
   * of both that every common divisor divides, and |a| when b is zero.
   */
  lemma GcdValue(a: Num, b: Num)
    requires Valid(a) && Valid(b) && a.Finite? && b.Finite?
    ensures GcdSpec(a, b) == Ok(FromVal(1, Gcd(Abs(Value(a)), Abs(Value(b)))))
    ensures FromVal(1, Gcd(Abs(Value(a)), Abs(Value(b)))).Finite?
  {
    var x, y := AbsoluteValue(a), AbsoluteValue(b);
    ValidFacts(x);
    ValidFacts(y);
    ZeroBlocksIff(y);
    var X, Y := Abs(Value(a)), Abs(Value(b));
    assert Val(x.blocks) == X && Val(y.blocks) == Y;
    GcdBound(X, Y);
    FromValFacts(1, Gcd(X, Y));
  }

  /** gcd(a, b), with the library's modulo in the loop. */
  method GcdOf(a: Num, b: Num) returns (r: Result<Num>)
    requires Valid(a) && Valid(b)
    ensures r == GcdSpec(a, b)
  {
    var absA := AbsoluteValue(a);
    var absB := AbsoluteValue(b);
    while !(absB.Inf? || IsZeroBlocks(absB))
      invariant Valid(absA) && Valid(absB) && absA.sign == 1 && absB.sign == 1
      invariant EuclidFrom(absA, absB) == GcdSpec(a, b)
      decreases if absB.Inf? then 0 else Val(absB.blocks)
    {
      var temp := absB;
      var m := Modulo(absA, absB);
      if m.Err? {
        r := Err(m.error);
        return;
      }
      EuclidStep(absA, absB);
      absB := m.value;
      absA := temp;
    }
    r := Ok(absA);
  }

  // ---------------------------------------------------------------------
  // lcm

  /** multiply keeps validity. */
  lemma MulValid(x: Num, y: Num)
    requires Valid(x) && Valid(y)
    ensures MulSpec(x, y).Ok? ==> Valid(MulSpec(x, y).value)
  {
    if x.Finite? && y.Finite? {
      MulValue(x, y);
      FromIntFacts(Value(x) * Value(y), 1);
    }
  }

  /** What lcm gives: gcd, then the product of the absolute values, then their quotient. */
  function LcmSpec(a: Num, b: Num): Result<Num>
    requires Valid(a) && Valid(b)
  {
    match GcdSpec(a, b)
    case Err(e) => Err(e)
    case Ok(g) =>
      match MulSpec(AbsoluteValue(a), AbsoluteValue(b))
      case Err(e) => Err(e)
      case Ok(p) =>
        GcdSpecValid(a, b);
        MulValid(AbsoluteValue(a), AbsoluteValue(b));
        DivSpec(p, g)
  }

  /** lcm(a, b). */
  method Lcm(a: Num, b: Num) returns (r: Result<Num>)
    requires Valid(a) && Valid(b)
    ensures r == LcmSpec(a, b)
  {
    var g := GcdOf(a, b);
    if g.Err? {
      r := Err(g.error);
      return;
    }
    var p := Multiply(AbsoluteValue(a), AbsoluteValue(b));
    if p.Err? {
      r := Err(p.error);
      return;
    }
    GcdSpecValid(a, b);
    MulValid(AbsoluteValue(a), AbsoluteValue(b));
    r := Divide(p.value, g.value);
  }

  /** The quotient of x by a positive g is a natural number. */
  lemma NatQuotient(x: nat, g: nat)
    requires g >= 1
    ensures x / g >= 0
  {
  }

  /** The least common multiple of two positive numbers, as lcm computes it: x * y / gcd(x, y). */
  function LcmOf(x: nat, y: nat): nat
    requires x >= 1 && y >= 1
  {
    GcdBound(x, y);
    NatMul(x, y);
    NatQuotient(x * y, Gcd(x, y));
    x * y / Gcd(x, y)
  }

  /** x * y / gcd(x, y) is a multiple of both x and y. */
  lemma LcmCommonMultiple(x: nat, y: nat)
    requires x >= 1 && y >= 1
    ensures Divides(x, LcmOf(x, y)) && Divides(y, LcmOf(x, y))
  {
    GcdBound(x, y);
    GcdDivides(x, y);
    var g := Gcd(x, y);
    DividesWitness(g, x);
    DividesWitness(g, y);
    var kx, ky := x / g, y / g;
    assert x * y == g * (kx * y);
    DivModUnique(x * y, g, kx * y, 0);
    assert LcmOf(x, y) == kx * y;
    assert kx * y == y * kx;
    MultipleDivides(y, kx);
    assert x * y == g * (x * ky);
    DivModUnique(x * y, g, x * ky, 0);
    MultipleDivides(x, ky);
  }

  /** multiply of the absolute values of two finite numbers whose product fits is the canonical |a * b|. */
  lemma AbsoluteProduct(a: Num, b: Num, p: nat)
    requires Valid(a) && Valid(b) && a.Finite? && b.Finite? && !Overflows(Value(a) * Value(b))
    requires p == Abs(Value(a)) * Abs(Value(b))
    ensures MulSpec(AbsoluteValue(a), AbsoluteValue(b)) == Ok(FromVal(1, p))
    ensures FromVal(1, p).Finite?
  {
    var x, y := AbsoluteValue(a), AbsoluteValue(b);
    MulValue(x, y);
    AbsMul(Value(a), Value(b));
    assert Value(x) * Value(y) == p;
    FromIntFacts(p, 1);
    assert FromInt(p, 1) == FromVal(1, p);
  }

  /** divide of a canonical natural by a canonical positive number is the natural quotient. */
  lemma NaturalQuotient(p: nat, g: nat)
    requires g >= 1 && FromVal(1, p).Finite? && FromVal(1, g).Finite?
    requires Valid(FromVal(1, p)) && Valid(FromVal(1, g))
    ensures DivSpec(FromVal(1, p), FromVal(1, g)) == Ok(FromVal(1, p / g))
  {
    FromValFacts(1, p);
    FromValFacts(1, g);
    ZeroBlocksIff(FromVal(1, g));
    NatQuotient(p, g);
    var q: nat := p / g;
    assert FloorDiv(Value(FromVal(1, p)), Value(FromVal(1, g))) == q;
    assert FromInt(q, 1) == FromVal(1, q);
  }

  /** lcm on finite nonzero numbers whose product fits is lcm(|a|, |b|), a common multiple of both (LcmCommonMultiple). */
  lemma LcmValue(a: Num, b: Num)
    requires Valid(a) && Valid(b) && a.Finite? && b.Finite? && Value(a) != 0 && Value(b) != 0
    requires !Overflows(Value(a) * Value(b))
    ensures LcmSpec(a, b) == Ok(FromVal(1, LcmOf(Abs(Value(a)), Abs(Value(b)))))
  {
    var X, Y := Abs(Value(a)), Abs(Value(b));
    GcdValue(a, b);
    GcdBound(X, Y);
    NatMul(X, Y);
    var P: nat, G: nat := X * Y, Gcd(X, Y);
    AbsoluteProduct(a, b, P);
    FromValFacts(1, P);
    FromValFacts(1, G);
    NaturalQuotient(P, G);
  }

  /** lcm with a zero operand: +0 against a nonzero finite number, and division by zero for two zeros. */
  lemma LcmWithZero(a: Num, b: Num)
    requires Valid(a) && Valid(b) && a.Finite? && b.Finite? && Value(b) == 0
    ensures Value(a) != 0 ==> LcmSpec(a, b) == Ok(FromVal(1, 0))
    ensures Value(a) == 0 ==> LcmSpec(a, b) == Err(DivisionByZero)
  {
    GcdValue(a, b);
    GcdBound(Abs(Value(a)), 0);
    var x, y := AbsoluteValue(a), AbsoluteValue(b);
    ZeroBlocksIff(y);
    ZeroBlocksIff(x);
    FromValFacts(1, Abs(Value(a)));
    if Value(a) != 0 {
      NonzeroDivisor(FromVal(1, Abs(Value(a))));
      DivModUnique(0, Abs(Value(a)), 0, 0);
    } else {
      assert FromVal(1, 0) == Finite(1, [0], 1);
    }
  }
}
