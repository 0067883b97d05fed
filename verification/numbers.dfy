/**
 * The number representation of the BNHaNa library: a sign, a little-endian
 * sequence of base-1000 blocks and a decimal magnitude, or a signed infinity.
 *
 * This module holds the value-level vocabulary every other module uses:
 * the integer a block sequence denotes (Val), the decimal digit count of an
 * integer (NumDigits), the canonical block form of an integer (ToBlocks),
 * and the canonical number for a sign and an absolute value (FromVal), which
 * saturates to an infinity beyond MAX_SUPPORTED_MAGNITUDE digits.
 */
module Numbers {

  /** A sign is +1 or -1; zero normally carries +1 but -1 is representable. */
  type Sign = s: int | s == 1 || s == -1 witness 1

  /** Radix of the block representation. */
  const BLOCK_BASE: nat := 1000

  /** Largest decimal digit count a finite number may have. */
  const MAX_SUPPORTED_MAGNITUDE: nat := 3003

  /**
   * A number: finite (sign, blocks least-significant first, decimal digit
   * count) or one of the two infinity sentinels.
   */
  datatype Num = Finite(sign: Sign, blocks: seq<nat>, magnitude: nat) | Inf(sign: Sign)

  const POS_INF: Num := Inf(1)
  const NEG_INF: Num := Inf(-1)

  /** What the library raises, one constructor per message. */
  datatype Error =
    | UndefinedInfPlusNegInf      // "Undefined: ∞ + -∞"
    | UndefinedInfMinusInf        // "Undefined: ∞ - ∞"
    | UndefinedZeroTimesInf       // "Undefined: 0 * ∞"
    | DivisionByZero              // "Division by zero"
    | ModuloByZero                // "Modulo by zero"
    | UndefinedInfModFinite       // "Undefined: ∞ mod finite"
    | UndefinedInfPowInf          // "Undefined: ∞^∞"
    | UndefinedInfPowZero         // "Undefined: ∞^0"
    | UndefinedOnePowInf          // "Undefined: 1^∞"
    | ZeroToNegativePower         // "Division by zero in 0^(-n)"
    | NegativeExponent            // "Negative exponents not supported ..."
    | SqrtOfNegativeInfinity      // "Square root of negative infinity"
    | SqrtOfNegative              // "Square root of negative number"
    | FactorialOfNegative         // "Factorial of negative number"
    | InvalidCharacter(c: char)   // "Invalid character in encoded string"

  datatype Result<T> = Ok(value: T) | Err(error: Error)

  datatype Option<T> = None | Some(value: T)

  // ---------------------------------------------------------------------
  // Powers and digit counts

  function Pow1000(n: nat): (p: nat)
    ensures p >= 1
  {
    if n == 0 then 1 else 1000 * Pow1000(n - 1)
  }

  function Pow10(n: nat): (p: nat)
    ensures p >= 1
  {
    if n == 0 then 1 else 10 * Pow10(n - 1)
  }

  /** Number of decimal digits of x; zero has one digit. */
  function NumDigits(x: nat): (d: nat)
    ensures d >= 1
  {
    if x < 10 then 1 else 1 + NumDigits(x / 10)
  }

  // ---------------------------------------------------------------------
  // Blocks

  /** The integer a block sequence denotes: sum of bs[i] * 1000^i. */
  function Val(bs: seq<nat>): nat
  {
    if |bs| == 0 then 0 else Val(bs[..|bs| - 1]) + bs[|bs| - 1] * Pow1000(|bs| - 1)
  }

  /** Every block is a base-1000 digit. */
  predicate AllSmall(bs: seq<nat>)
  {
    forall i :: 0 <= i < |bs| ==> bs[i] < BLOCK_BASE
  }

  /** At least one block, and no zero block at the most-significant end unless it is the only one. */
  predicate NoTopZero(bs: seq<nat>)
  {
    |bs| >= 1 && (|bs| == 1 || bs[|bs| - 1] != 0)
  }

  /** The canonical blocks of x, least significant first. */
  function ToBlocks(x: nat): (bs: seq<nat>)
    decreases x
  {
    if x < BLOCK_BASE then [x] else [x % BLOCK_BASE] + ToBlocks(x / BLOCK_BASE)
  }

  /**
   * The canonical number with sign s and absolute value x: the positive or
   * negative infinity once x has more than MAX_SUPPORTED_MAGNITUDE digits.
   */
  function FromVal(s: Sign, x: nat): Num
  {
    if NumDigits(x) > MAX_SUPPORTED_MAGNITUDE then Inf(s)
    else Finite(s, ToBlocks(x), NumDigits(x))
  }

  /** The numbers the library produces: an infinity or the canonical form of its own value. */
  predicate Valid(n: Num)
  {
    n.Inf? || n == FromVal(n.sign, Val(n.blocks))
  }

  /** Every block of a finite number is a base-1000 digit (the representation invariant). */
  predicate WellFormed(n: Num)
  {
    n.Inf? || AllSmall(n.blocks)
  }

  /** Block i, or 0 past the end (the zero padding of add and subtract). */
  function Digit(bs: seq<nat>, i: nat): nat
  {
    if i < |bs| then bs[i] else 0
  }

  /** The lowest i blocks, or all of them when there are fewer. */
  function Prefix(bs: seq<nat>, i: nat): seq<nat>
  {
    if i <= |bs| then bs[..i] else bs
  }

  /** The signed integer of a finite number. */
  function Value(n: Num): int
    requires n.Finite?
  {
    n.sign * Val(n.blocks)
  }

  /** The value of a finite number by its sign and magnitude, without the product. */
  lemma ValueBySign(n: Num, x: nat)
    requires n.Finite? && Val(n.blocks) == x
    ensures n.sign == 1 ==> Value(n) == x
    ensures n.sign == -1 ==> Value(n) == -(x as int)
  {
  }

  /** The block sequence is exactly [0] (the library's zero test; either sign). */
  predicate IsZeroBlocks(n: Num)
  {
    n.Finite? && |n.blocks| == 1 && n.blocks[0] == 0
  }

  function Abs(x: int): nat { if x < 0 then -x else x }

  /** The sign of x, with z as the sign given to zero. */
  function SignOf(x: int, z: Sign): Sign
  {
    if x > 0 then 1 else if x < 0 then -1 else z
  }

  /** The canonical number for the integer x, zero carrying sign z. */
  function FromInt(x: int, z: Sign): Num
  {
    FromVal(SignOf(x, z), Abs(x))
  }

  function Opposite(s: Sign): Sign
  {
    if s == 1 then -1 else 1
  }

  /** The same number with its sign flipped (the result['sign'] = -result['sign'] update). */
  function Negated(n: Num): Num
  {
    match n
    case Finite(s, bs, m) => Finite(Opposite(s), bs, m)
    case Inf(s) => Inf(Opposite(s))
  }

  /** The sign-1 copy of a finite number that compare is given for absolute values. */
  function Unsigned(n: Num): Num
    requires n.Finite?
  {
    Finite(1, n.blocks, n.magnitude)
  }

  /** x is too large in absolute value to be held by a finite number. */
  predicate Overflows(x: int)
  {
    NumDigits(Abs(x)) > MAX_SUPPORTED_MAGNITUDE
  }

  // ---------------------------------------------------------------------
  // Facts about blocks

  lemma ValAppend(s: seq<nat>, x: nat)
    ensures Val(s + [x]) == Val(s) + x * Pow1000(|s|)
  {
    assert (s + [x])[..|s|] == s;
  }

  /** One block is its own value. */
  lemma ValSingle(x: nat)
    ensures Val([x]) == x
  {
    assert [x] == [] + [x];
    ValAppend([], x);
  }

  /** Reading the least-significant block first: [h] + t is h + 1000 * t. */
  lemma {:induction false} ValCons(h: nat, t: seq<nat>)
    ensures Val([h] + t) == h + 1000 * Val(t)
    decreases |t|
  {
    if |t| == 0 {
      assert [h] + t == [] + [h];
      ValAppend([], h);
    } else {
      var t', x := t[..|t| - 1], t[|t| - 1];
      assert t == t' + [x];
      assert [h] + t == ([h] + t') + [x];
      ValAppend([h] + t', x);
      ValAppend(t', x);
      ValCons(h, t');
      assert x * Pow1000(|t'| + 1) == 1000 * (x * Pow1000(|t'|));
    }
  }

  /** Blocks below 1000 denote a value below 1000^|s|. */
  lemma {:induction false} ValBound(s: seq<nat>)
    requires AllSmall(s)
    ensures Val(s) < Pow1000(|s|)
    decreases |s|
  {
    if |s| > 0 {
      var s', x := s[..|s| - 1], s[|s| - 1];
      assert AllSmall(s');
      ValBound(s');
      MulLe(x, 999, Pow1000(|s'|));
    }
  }

  lemma MulLe(a: nat, b: nat, c: nat)
    requires a <= b
    ensures a * c <= b * c
  {
  }

  /** The top block weighs at least its own place value. */
  lemma ValTop(s: seq<nat>)
    requires |s| >= 1
    ensures Val(s) >= s[|s| - 1] * Pow1000(|s| - 1)
  {
  }

  /** A value is zero exactly when every block is zero. */
  lemma {:induction false} ValZero(s: seq<nat>)
    ensures Val(s) == 0 <==> forall i :: 0 <= i < |s| ==> s[i] == 0
    decreases |s|
  {
    if |s| > 0 {
      var s' := s[..|s| - 1];
      ValZero(s');
      if Val(s) == 0 {
        assert s[|s| - 1] * Pow1000(|s| - 1) == 0;
        forall i | 0 <= i < |s| ensures s[i] == 0 {
          if i < |s| - 1 { assert s'[i] == s[i]; }
        }
      }
      assert (forall i :: 0 <= i < |s| ==> s[i] == 0) ==> (forall i :: 0 <= i < |s'| ==> s'[i] == 0);
    }
  }

  lemma {:induction false} ToBlocksProps(x: nat)
    ensures AllSmall(ToBlocks(x)) && NoTopZero(ToBlocks(x))
    ensures x > 0 ==> ToBlocks(x)[|ToBlocks(x)| - 1] != 0
    ensures Val(ToBlocks(x)) == x
    decreases x
  {
    if x < BLOCK_BASE {
      ValAppend([], x);
      assert [] + [x] == [x];
    } else {
      var t := ToBlocks(x / BLOCK_BASE);
      ToBlocksProps(x / BLOCK_BASE);
      assert ToBlocks(x) == [x % BLOCK_BASE] + t;
      ValCons(x % BLOCK_BASE, t);
    }
  }

  /** Canonical blocks are the ToBlocks of their own value. */
  lemma {:induction false} ToBlocksOfCanonical(bs: seq<nat>)
    requires AllSmall(bs) && NoTopZero(bs)
    ensures ToBlocks(Val(bs)) == bs
    decreases |bs|
  {
    if |bs| == 1 {
      assert bs == [] + [bs[0]];
      ValAppend([], bs[0]);
    } else {
      var h, t := bs[0], bs[1..];
      assert bs == [h] + t;
      assert AllSmall(t) && NoTopZero(t);
      ValCons(h, t);
      ToBlocksOfCanonical(t);
      ValTop(t);
      var v := h + 1000 * Val(t);
      assert v >= BLOCK_BASE;
      assert v % BLOCK_BASE == h && v / BLOCK_BASE == Val(t);
    }
  }

  lemma Pow10Mono(a: nat, b: nat)
    requires a <= b
    ensures Pow10(a) <= Pow10(b)
    decreases b
  {
    if a < b { Pow10Mono(a, b - 1); }
  }

  lemma {:induction false} Pow1000IsPow10(n: nat)
    ensures Pow1000(n) == Pow10(3 * n)
  {
    if n > 0 {
      Pow1000IsPow10(n - 1);
      assert Pow10(3 * n) == 10 * Pow10(3 * n - 1);
      assert Pow10(3 * n - 1) == 10 * Pow10(3 * n - 2);
      assert Pow10(3 * n - 2) == 10 * Pow10(3 * (n - 1));
    }
  }

  lemma NumDigitsStep(x: nat)
    requires x >= BLOCK_BASE
    ensures NumDigits(x) == 3 + NumDigits(x / BLOCK_BASE)
  {
    assert x / 10 / 10 == x / 100;
    assert x / 100 / 10 == x / 1000;
    assert NumDigits(x) == 1 + NumDigits(x / 10);
    assert NumDigits(x / 10) == 1 + NumDigits(x / 100);
    assert NumDigits(x / 100) == 1 + NumDigits(x / 1000);
  }

  /** x has NumDigits(x) digits: 10^(d-1) <= x < 10^d (the lower bound for x >= 1). */
  lemma {:induction false} NumDigitsBounds(x: nat)
    ensures x < Pow10(NumDigits(x))
    ensures x >= 1 ==> Pow10(NumDigits(x) - 1) <= x
    decreases x
  {
    if x >= 10 {
      NumDigitsBounds(x / 10);
    }
  }

  /** At most d digits exactly when below 10^d. */
  lemma NumDigitsAtMost(x: nat, d: nat)
    requires d >= 1
    ensures NumDigits(x) <= d <==> x < Pow10(d)
  {
    NumDigitsBounds(x);
    if NumDigits(x) <= d {
      Pow10Mono(NumDigits(x), d);
    } else {
      Pow10Mono(d, NumDigits(x) - 1);
    }
  }

  lemma NumDigitsMono(x: nat, y: nat)
    requires x <= y
    ensures NumDigits(x) <= NumDigits(y)
  {
    NumDigitsBounds(y);
    NumDigitsAtMost(x, NumDigits(y));
  }

  /** The number of canonical blocks follows from the digit count. */
  lemma {:induction false} ToBlocksLength(x: nat)
    ensures |ToBlocks(x)| == (NumDigits(x) + 2) / 3
    decreases x
  {
    if x < BLOCK_BASE {
      assert Pow10(3) == 1000;
      NumDigitsAtMost(x, 3);
    } else {
      ToBlocksLength(x / BLOCK_BASE);
      NumDigitsStep(x);
    }
  }

  /** What FromVal gives: a valid number of value x, or the signed infinity past the cap. */
  lemma FromValFacts(s: Sign, x: nat)
    ensures Valid(FromVal(s, x))
    ensures FromVal(s, x).sign == s
    ensures FromVal(s, x).Finite? <==> x < Pow10(MAX_SUPPORTED_MAGNITUDE)
    ensures FromVal(s, x).Finite? ==> Val(FromVal(s, x).blocks) == x
  {
    ToBlocksProps(x);
    NumDigitsAtMost(x, MAX_SUPPORTED_MAGNITUDE);
  }

  /** The shape a valid finite number has. */
  lemma ValidFacts(n: Num)
    requires Valid(n) && n.Finite?
    ensures n.blocks == ToBlocks(Val(n.blocks))
    ensures AllSmall(n.blocks) && NoTopZero(n.blocks)
    ensures n.magnitude == NumDigits(Val(n.blocks)) <= MAX_SUPPORTED_MAGNITUDE
    ensures Val(n.blocks) < Pow10(MAX_SUPPORTED_MAGNITUDE)
    ensures |n.blocks| == (n.magnitude + 2) / 3
    ensures Val(n.blocks) == 0 <==> n.blocks == [0]
  {
    ToBlocksProps(Val(n.blocks));
    NumDigitsAtMost(Val(n.blocks), MAX_SUPPORTED_MAGNITUDE);
    ToBlocksLength(Val(n.blocks));
    if Val(n.blocks) == 0 {
      assert n.blocks == ToBlocks(0) == [0];
    }
    if n.blocks == [0] {
      assert n.blocks == [] + [0];
      ValAppend([], 0);
    }
  }

  /** A valid number with its sign replaced is still valid. */
  lemma ValidWithSign(n: Num, s: Sign)
    requires Valid(n) && n.Finite?
    ensures Valid(Finite(s, n.blocks, n.magnitude))
  {
  }

  /** Valid numbers are well formed. */
  lemma ValidWellFormed(n: Num)
    requires Valid(n)
    ensures WellFormed(n)
  {
    if n.Finite? {
      ValidFacts(n);
    }
  }

  /** What FromInt gives: a valid number that holds x exactly, or the infinity of x's sign. */
  lemma FromIntFacts(x: int, z: Sign)
    ensures Valid(FromInt(x, z)) && WellFormed(FromInt(x, z))
    ensures FromInt(x, z).Finite? <==> !Overflows(x)
    ensures FromInt(x, z).Finite? ==> Value(FromInt(x, z)) == x
    ensures FromInt(x, z).Inf? ==> FromInt(x, z).sign == SignOf(x, z)
    ensures x == 0 ==> FromInt(x, z) == Finite(z, [0], 1)
  {
    FromValFacts(SignOf(x, z), Abs(x));
    ValidWellFormed(FromInt(x, z));
  }

  /** Negating a canonical number gives the canonical number of the other sign. */
  lemma NegatedFromVal(s: Sign, x: nat)
    ensures Negated(FromVal(s, x)) == FromVal(Opposite(s), x)
  {
  }

  lemma PrefixStep(bs: seq<nat>, i: nat)
    ensures Val(Prefix(bs, i + 1)) == Val(Prefix(bs, i)) + Digit(bs, i) * Pow1000(i)
  {
    if i < |bs| {
      assert bs[..i + 1] == bs[..i] + [bs[i]];
      ValAppend(bs[..i], bs[i]);
    } else {
      assert bs[..|bs|] == bs;
    }
  }

  lemma PrefixAll(bs: seq<nat>, i: nat)
    requires |bs| <= i
    ensures Prefix(bs, i) == bs
  {
    assert bs[..|bs|] == bs;
  }

  /** Replacing block k by v changes the value by (v - bs[k]) * 1000^k. */
  lemma {:induction false} ValUpdate(bs: seq<nat>, k: nat, v: nat)
    requires k < |bs|
    ensures Val(bs[k := v]) + bs[k] * Pow1000(k) == Val(bs) + v * Pow1000(k)
    decreases |bs|
  {
    var n := |bs| - 1;
    var t := bs[k := v];
    assert t[..n] == (if k < n then bs[..n][k := v] else bs[..n]);
    if k < n {
      ValUpdate(bs[..n], k, v);
    }
  }

  lemma {:induction false} Pow1000Add(i: nat, j: nat)
    ensures Pow1000(i + j) == Pow1000(i) * Pow1000(j)
    decreases i
  {
    if i > 0 {
      Pow1000Add(i - 1, j);
      assert Pow1000(i + j) == 1000 * Pow1000(i - 1 + j);
    }
  }

  lemma DigitSmall(bs: seq<nat>, i: nat)
    requires AllSmall(bs)
    ensures Digit(bs, i) < BLOCK_BASE
  {
  }

  lemma AllSmallAppend(bs: seq<nat>, x: nat)
    requires AllSmall(bs) && x < BLOCK_BASE
    ensures AllSmall(bs + [x])
  {
  }

  /** A product of naturals is a natural (stated once, so callers need not rediscover it). */
  lemma NatMul(a: int, b: int)
    requires a >= 0 && b >= 0
    ensures a * b >= 0
  {
  }

  lemma Distrib(a: int, b: int, c: int)
    ensures (a + b) * c == a * c + b * c
  {
  }

  lemma MulRearrange(a: int, b: int, c: int, d: int)
    ensures a * b * (c * d) == a * c * (b * d)
  {
  }

  /** The absolute value of a product is the product of the absolute values. */
  lemma AbsMul(p: int, q: int)
    ensures Abs(p * q) == Abs(p) * Abs(q)
  {
    if p < 0 && q < 0 { assert p * q == (-p) * (-q); }
    else if p < 0 { assert p * q == -((-p) * q); }
    else if q < 0 { assert p * q == -(p * (-q)); }
  }

  /** 10^(m+n) = 10^m * 10^n. */
  lemma {:induction false} Pow10Add(m: nat, n: nat)
    ensures Pow10(m + n) == Pow10(m) * Pow10(n)
    decreases m
  {
    if m > 0 {
      Pow10Add(m - 1, n);
      assert Pow10(m + n) == 10 * Pow10(m - 1 + n);
    }
  }

  /** Below 10^k, for k the cap, FromVal is finite and holds x (k kept symbolic for the solver). */
  lemma FromValBelow(s: Sign, x: nat, k: nat)
    requires k == MAX_SUPPORTED_MAGNITUDE && x < Pow10(k)
    ensures FromVal(s, x).Finite? && Valid(FromVal(s, x)) && FromVal(s, x).sign == s && Val(FromVal(s, x).blocks) == x
  {
    NumDigitsAtMost(x, k);
    ToBlocksProps(x);
  }

  /** From 10^k on, for k the cap, FromVal is the infinity of sign s. */
  lemma FromValAtLeast(s: Sign, x: nat, k: nat)
    requires k == MAX_SUPPORTED_MAGNITUDE && x >= Pow10(k)
    ensures FromVal(s, x) == Inf(s)
  {
    NumDigitsAtMost(x, k);
  }

  /** A number overflows exactly when its absolute value reaches 10^3003, passed as 10^k. */
  lemma OverflowsIff(x: int, k: nat)
    requires k == MAX_SUPPORTED_MAGNITUDE
    ensures Overflows(x) <==> Abs(x) >= Pow10(k)
  {
    NumDigitsAtMost(Abs(x), k);
  }

  /** FromVal is always valid, keeps the sign and, when finite, holds x (stated without the cap's power of ten). */
  lemma FromValValid(s: Sign, x: nat)
    ensures Valid(FromVal(s, x)) && FromVal(s, x).sign == s
    ensures FromVal(s, x).Finite? ==> Val(FromVal(s, x).blocks) == x
  {
    ToBlocksProps(x);
  }
}
