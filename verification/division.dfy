/**
 * divide: schoolbook long division on the absolute values.  The dividend's
 * blocks are fed most-significant first into a running remainder R, and
 * each quotient block is found by a binary search over 0..999 using
 * multiply and compare.  The sign is applied afterwards with floor
 * semantics (Python's //): a negative inexact quotient is rounded down.
 */
module Division {
  import opened Numbers
  import opened Normalization
  import opened Comparison
  import opened Arithmetic

  // ---------------------------------------------------------------------
  // Reference definitions

  /** Floor division x // y (rounds toward negative infinity). */
  function FloorDiv(x: int, y: int): int
    requires y != 0
  {
    if y > 0 then x / y else (-x) / (-y)
  }

  /** The division identity with a remainder that is 0 or of the divisor's sign and smaller than it. */
  lemma FloorDivIsFloor(x: int, y: int)
    requires y != 0
    ensures y > 0 ==> 0 <= x - FloorDiv(x, y) * y < y
    ensures y < 0 ==> y < x - FloorDiv(x, y) * y <= 0
  {
    if y < 0 {
      var q := (-x) / (-y);
      assert -x == (-y) * q + (-x) % (-y);
      assert x - q * y == -((-x) % (-y));
    }
  }

  /** Quotient and remainder are unique: x == y * q + r with 0 <= r < y pins both down. */
  lemma DivModUnique(x: int, y: int, q: int, r: int)
    requires y > 0 && x == y * q + r && 0 <= r < y
    ensures q == x / y && r == x % y
  {
    var q0, r0 := x / y, x % y;
    if q > q0 {
      MulLe(1, q - q0, y);
    } else if q < q0 {
      MulLe(1, q0 - q, y);
    }
  }

  /** Floor division of a negated dividend by a positive divisor. */
  lemma NegatedDividend(v: int, d: int)
    requires v >= 0 && d > 0
    ensures v % d == 0 ==> (-v) / d == -(v / d)
    ensures v % d != 0 ==> (-v) / d == -(v / d) - 1
  {
    var q, r := v / d, v % d;
    assert v == d * q + r;
    if r == 0 {
      DivModUnique(-v, d, -q, 0);
    } else {
      DivModUnique(-v, d, -q - 1, d - r);
    }
  }

  /**
   * What divide gives on numbers the library produces: a zero divisor
   * (either sign) raises, a finite number over an infinity is +0, an
   * infinity over a finite number is the infinity of the product of the
   * signs, and otherwise the floor quotient, with +0 for a zero quotient.
   */
  function DivSpec(a: Num, b: Num): Result<Num>
    requires Valid(a) && Valid(b)
  {
    if IsZeroBlocks(b) then Err(DivisionByZero)
    else if b.Inf? then Ok(FromVal(1, 0))
    else if a.Inf? then Ok(Inf(a.sign * b.sign))
    else
      NonzeroDivisor(b);
      Ok(FromInt(FloorDiv(Value(a), Value(b)), 1))
  }

  /** A valid finite number whose blocks are not [0] has a nonzero value. */
  lemma NonzeroDivisor(b: Num)
    requires Valid(b) && b.Finite? && !IsZeroBlocks(b)
    ensures Val(b.blocks) >= 1 && Value(b) != 0
  {
    assert ToBlocks(0) == [0];
  }

  /** The value of most-significant-first base-1000 digits (the order of A and Q in divide). */
  function MsbVal(ds: seq<nat>): nat
  {
    if |ds| == 0 then 0 else MsbVal(ds[..|ds| - 1]) * 1000 + ds[|ds| - 1]
  }

  /** The q_value['sign'] = -1 update. */
  function WithSign(n: Num, s: Sign): Num
  {
    match n
    case Finite(_, bs, m) => Finite(s, bs, m)
    case Inf(_) => Inf(s)
  }

  // ---------------------------------------------------------------------
  // Facts about digit orders and canonical numbers

  /** A block list read backwards is the most-significant-first digit list of the same value. */
  lemma {:induction false} ReversedVal(ds: seq<nat>, bs: seq<nat>)
    requires |ds| == |bs|
    requires forall i :: 0 <= i < |bs| ==> bs[i] == ds[|ds| - 1 - i]
    ensures Val(bs) == MsbVal(ds)
    decreases |ds|
  {
    if |ds| > 0 {
      var ds', bs' := ds[..|ds| - 1], bs[1..];
      forall i | 0 <= i < |bs'|
        ensures bs'[i] == ds'[|ds'| - 1 - i]
      {
        assert bs'[i] == bs[i + 1];
      }
      ReversedVal(ds', bs');
      assert bs == [bs[0]] + bs';
      ValCons(bs[0], bs');
    }
  }

  lemma MsbAppend(ds: seq<nat>, d: nat)
    ensures MsbVal(ds + [d]) == MsbVal(ds) * 1000 + d
  {
    assert (ds + [d])[..|ds|] == ds;
  }

  lemma MsbTake(ds: seq<nat>, i: nat)
    requires i < |ds|
    ensures MsbVal(ds[..i + 1]) == MsbVal(ds[..i]) * 1000 + ds[i]
  {
    assert ds[..i + 1] == ds[..i] + [ds[i]];
    MsbAppend(ds[..i], ds[i]);
  }

  /** Leading digits are worth no more than all of them. */
  lemma {:induction false} MsbPrefixLe(ds: seq<nat>, i: nat)
    requires i <= |ds|
    ensures MsbVal(ds[..i]) <= MsbVal(ds)
    decreases |ds| - i
  {
    if i < |ds| {
      MsbPrefixLe(ds, i + 1);
      MsbTake(ds, i);
    } else {
      assert ds[..i] == ds;
    }
  }

  /** The absolute value of a valid finite number fits. */
  lemma ValidFits(n: Num)
    requires Valid(n) && n.Finite?
    ensures FromVal(1, Val(n.blocks)).Finite? && AllSmall(n.blocks)
  {
    ValidFacts(n);
  }

  /** Below a value that fits, every value fits. */
  lemma FitsBelow(x: nat, y: nat)
    requires x <= y && FromVal(1, y).Finite?
    ensures FromVal(1, x).Finite?
  {
    NumDigitsMono(x, y);
  }

  /** A block below 1000 normalises to the canonical number of that value. */
  lemma SingleBlock(d: nat)
    requires d < BLOCK_BASE
    ensures Normalized(1, [d], None) == FromVal(1, d)
    ensures FromVal(1, d).Finite? && Valid(FromVal(1, d)) && WellFormed(FromVal(1, d))
  {
    NormalizedIsFromVal(1, [d]);
    assert [d] == [] + [d];
    ValAppend([], d);
    FromValFacts(1, d);
    ValidWellFormed(FromVal(1, d));
  }

  /** multiply on two non-negative canonical numbers is the canonical product. */
  lemma MulFromVal(u: nat, v: nat)
    requires FromVal(1, u).Finite? && FromVal(1, v).Finite?
    ensures MulSpec(FromVal(1, u), FromVal(1, v)) == Ok(FromVal(1, u * v))
  {
    var x, y := FromVal(1, u), FromVal(1, v);
    FromValFacts(1, u);
    FromValFacts(1, v);
    ValidFacts(x);
    ValidFacts(y);
    if u == 0 || v == 0 {
      assert IsZeroBlocks(x) || IsZeroBlocks(y);
      assert u * v == 0;
    } else {
      assert !IsZeroBlocks(x) && !IsZeroBlocks(y) && |x.blocks| >= 1;
    }
  }

  /** The [1000] number normalize_number builds: one block, magnitude 4, not trimmed or reduced. */
  lemma ThousandNum()
    ensures Normalized(1, [1000], None) == Finite(1, [1000], 4)
    ensures Val([1000]) == 1000
  {
    assert Trim([1000]) == [1000];
    NumDigitsStep(1000);
    assert [1000] == [] + [1000];
    ValAppend([], 1000);
  }

  /** The remainder scaled by a block: R * [1000] with the [1000] number normalize_number builds. */
  lemma ScaleByBase(rv: nat)
    requires FromVal(1, rv).Finite?
    ensures MulSpec(FromVal(1, rv), Normalized(1, [1000], None)) == Ok(FromVal(1, rv * 1000))
  {
    ThousandNum();
    FromValFacts(1, rv);
    ValidFacts(FromVal(1, rv));
  }

  /** add of two non-negative canonical numbers is the canonical sum. */
  lemma AddFromVal(u: nat, v: nat)
    requires FromVal(1, u).Finite? && FromVal(1, v).Finite?
    ensures Valid(FromVal(1, u)) && WellFormed(FromVal(1, u))
    ensures AddSpec(FromVal(1, u), FromVal(1, v)) == Ok(FromVal(1, u + v))
  {
    FromValFacts(1, u);
    FromValFacts(1, v);
    ValidWellFormed(FromVal(1, u));
  }

  /** subtract of a smaller non-negative canonical number is the canonical difference. */
  lemma SubFromVal(u: nat, v: nat)
    requires v <= u && FromVal(1, u).Finite?
    ensures FromVal(1, v).Finite? && Valid(FromVal(1, v)) && WellFormed(FromVal(1, v))
    ensures SubSpec(FromVal(1, u), FromVal(1, v)) == Ok(FromVal(1, u - v))
  {
    FitsBelow(v, u);
    FromValFacts(1, u);
    FromValFacts(1, v);
    ValidWellFormed(FromVal(1, v));
  }

  /** The binary search's test: a product that saturates to +∞ is above every finite remainder. */
  lemma GreaterTest(x: nat, r: Num)
    requires Valid(r) && r.Finite? && r.sign == 1
    ensures IsGreater(FromVal(1, x), r) <==> x > Val(r.blocks)
  {
    FromValFacts(1, x);
    ValidFacts(r);
    if FromVal(1, x).Inf? {
      CompareInfinities(FromVal(1, x), r);
    }
  }

  /** The digit test: R >= |b| on two non-negative finite canonical numbers. */
  lemma AtLeastTest(x: nat, y: nat)
    requires FromVal(1, x).Finite? && FromVal(1, y).Finite?
    ensures IsGreaterOrEqual(FromVal(1, x), FromVal(1, y)) <==> x >= y
  {
    FromValFacts(1, x);
    FromValFacts(1, y);
  }

  /** Equality with +0 on a non-negative finite canonical number. */
  lemma ZeroTest(x: nat)
    requires FromVal(1, x).Finite?
    ensures IsEqual(FromVal(1, x), Normalized(1, [0], None)) <==> x == 0
  {
    SingleBlock(0);
    FromValFacts(1, x);
  }

  // ---------------------------------------------------------------------
  // The binary search for one quotient digit

  /** One probe of the binary search: multiply |b| by mid and ask whether the product exceeds R. */
  lemma Probe(absB: Num, mid: nat, r: Num)
    requires Valid(absB) && absB.Finite? && absB.sign == 1
    requires Valid(r) && r.Finite? && r.sign == 1
    requires mid < BLOCK_BASE
    ensures MulSpec(absB, Normalized(1, [mid], None)).Ok?
    ensures IsGreater(MulSpec(absB, Normalized(1, [mid], None)).value, r) <==> Val(absB.blocks) * mid > Val(r.blocks)
  {
    var bv := Val(absB.blocks);
    ValidFacts(absB);
    SingleBlock(mid);
    MulFromVal(bv, mid);
    NatMul(bv, mid);
    GreaterTest(bv * mid, r);
  }

  /**
   * The largest digit q in 0..999 with |b| * q <= R, found by binary search
   * on [low, high]; each probe multiplies |b| by mid and compares with R.
   */
  method DigitSearch(absB: Num, r: Num) returns (q: nat)
    requires Valid(absB) && absB.Finite? && absB.sign == 1
    requires Valid(r) && r.Finite? && r.sign == 1 && Val(r.blocks) < Val(absB.blocks) * 1000
    ensures q < 1000
    ensures Val(absB.blocks) * q <= Val(r.blocks) < Val(absB.blocks) * (q + 1)
  {
    ghost var bv: int, rv: int := Val(absB.blocks), Val(r.blocks);
    var low: int, high: int := 0, 999;
    while low < high
      invariant 0 <= low <= high <= 999
      invariant bv * low <= rv < bv * (high + 1)
      decreases high - low
    {
      var mid: int := (low + high + 1) / 2;
      var midNum := Normalize(1, [mid], None);
      Probe(absB, mid, r);
      var test := Multiply(absB, midNum);
      if IsGreater(test.value, r) {
        high := mid - 1;
      } else {
        low := mid;
      }
    }
    q := low;
  }

  // ---------------------------------------------------------------------
  // The long-division loop

  /** The arithmetic of one shift-in step. */
  lemma ShiftArith(mq: int, q: int, b: int, rv: int, d: int)
    ensures (mq * 1000 + q) * b + (rv * 1000 + d - b * q) == (mq * b + rv) * 1000 + d
  {
  }

  /** One step of the long division keeps Q * |b| + R equal to the digits of a read so far. */
  lemma LongStep(ds: seq<nat>, quot: seq<nat>, i: nat, rv: nat, b: nat, q: nat, v: nat, rest: nat)
    requires i < |ds|
    requires MsbVal(quot) * b + rv == MsbVal(ds[..i])
    requires v == rv * 1000 + ds[i] && rest == v - b * q
    ensures MsbVal(quot + [q]) * b + rest == MsbVal(ds[..i + 1])
  {
    MsbAppend(quot, q);
    MsbTake(ds, i);
    ShiftArith(MsbVal(quot), q, b, rv, ds[i]);
  }

  /** The shifted-in remainder never exceeds the digits read so far. */
  lemma ShiftBound(ds: seq<nat>, quot: seq<nat>, i: nat, rv: int, b: int)
    requires i < |ds| && rv >= 0 && b >= 0
    requires MsbVal(quot) * b + rv == MsbVal(ds[..i])
    ensures rv * 1000 + ds[i] <= MsbVal(ds)
  {
    NatMul(MsbVal(quot), b);
    MsbTake(ds, i);
    MsbPrefixLe(ds, i + 1);
  }

  /** The value of R after shifting in the next digit of a. */
  lemma ShiftIn(rv: nat, d: nat)
    requires d < BLOCK_BASE && FromVal(1, rv * 1000 + d).Finite?
    ensures FromVal(1, rv).Finite?
    ensures MulSpec(FromVal(1, rv), Normalized(1, [1000], None)) == Ok(FromVal(1, rv * 1000))
    ensures Normalized(1, [d], None) == FromVal(1, d)
    ensures Valid(FromVal(1, rv * 1000)) && WellFormed(FromVal(1, rv * 1000))
    ensures Valid(FromVal(1, d)) && WellFormed(FromVal(1, d))
    ensures AddSpec(FromVal(1, rv * 1000), FromVal(1, d)) == Ok(FromVal(1, rv * 1000 + d))
  {
    FitsBelow(rv, rv * 1000 + d);
    FitsBelow(rv * 1000, rv * 1000 + d);
    ScaleByBase(rv);
    SingleBlock(d);
    AddFromVal(rv * 1000, d);
  }

  /** R = add(multiply(R, [1000]), [d]): the remainder with the next digit of a shifted in. */
  method ShiftDigit(r: Num, d: nat, ghost rv: nat) returns (r': Num)
    requires r == FromVal(1, rv) && d < BLOCK_BASE && FromVal(1, rv * 1000 + d).Finite?
    ensures r' == FromVal(1, rv * 1000 + d)
  {
    ShiftIn(rv, d);
    var thousand := Normalize(1, [1000], None);
    var scaled := Multiply(r, thousand);
    var digit := Normalize(1, [d], None);
    var sum := Add(scaled.value, digit);
    r' := sum.value;
  }

  /** The facts one subtraction of |b| * q from R needs. */
  lemma TakeOff(absB: Num, q: nat, v: nat)
    requires Valid(absB) && absB.Finite? && absB.sign == 1 && q < BLOCK_BASE
    requires Val(absB.blocks) * q <= v && FromVal(1, v).Finite?
    ensures MulSpec(absB, Normalized(1, [q], None)) == Ok(FromVal(1, Val(absB.blocks) * q))
    ensures Valid(FromVal(1, v)) && WellFormed(FromVal(1, v))
    ensures Valid(FromVal(1, Val(absB.blocks) * q)) && WellFormed(FromVal(1, Val(absB.blocks) * q))
    ensures SubSpec(FromVal(1, v), FromVal(1, Val(absB.blocks) * q)) == Ok(FromVal(1, v - Val(absB.blocks) * q))
  {
    var bv := Val(absB.blocks);
    ValidFacts(absB);
    SingleBlock(q);
    FromValFacts(1, v);
    ValidWellFormed(FromVal(1, v));
    NatMul(bv, q);
    FitsBelow(bv * q, v);
    MulFromVal(bv, q);
    SubFromVal(v, bv * q);
  }

  /**
   * One reduction of R: when R >= |b| the digit q is searched and |b| * q
   * subtracted from R; otherwise the digit is 0 and R stays.
   */
  method Reduce(r: Num, absB: Num, ghost v: nat, ghost bv: nat) returns (q: nat, r': Num)
    requires Valid(absB) && absB.Finite? && absB.sign == 1 && bv == Val(absB.blocks)
    requires r == FromVal(1, v) && r.Finite? && v < bv * 1000
    ensures q < BLOCK_BASE && bv * q <= v
    ensures v - bv * q < bv
    ensures r' == FromVal(1, v - bv * q)
  {
    FromValFacts(1, v);
    ValidFacts(absB);
    AtLeastTest(v, bv);
    if IsGreaterOrEqual(r, absB) {
      q := DigitSearch(absB, r);
      TakeOff(absB, q, v);
      var qNum := Normalize(1, [q], None);
      var product := Multiply(absB, qNum);
      var diff := Subtract(r, product.value);
      r' := diff.value;
    } else {
      q := 0;
      r' := r;
      assert bv * q == 0;
    }
  }

  /** After the loop: Q * |b| + R == |a| with R < |b| makes Q the quotient and R the remainder. */
  lemma LongDone(mq: nat, b: nat, rv: nat, v: nat)
    requires b >= 1 && mq * b + rv == v && rv < b
    ensures mq == v / b && rv == v % b
  {
    DivModUnique(v, b, mq, rv);
  }

  /**
   * The main loop of divide on |a| and |b|: A is a's blocks most-significant
   * first; each round computes R = R * 1000 + A[i] (with multiply and add)
   * and appends to Q either 0 (R < |b|) or the searched digit q, subtracting
   * |b| * q from R.
   */
  method LongDivision(absA: Num, absB: Num) returns (quot: seq<nat>, rem: Num)
    requires Valid(absA) && absA.Finite?
    requires Valid(absB) && absB.Finite? && absB.sign == 1 && Val(absB.blocks) >= 1
    ensures |quot| == |absA.blocks| && AllSmall(quot)
    ensures MsbVal(quot) == Val(absA.blocks) / Val(absB.blocks)
    ensures rem == FromVal(1, Val(absA.blocks) % Val(absB.blocks))
  {
    ghost var bv: nat := Val(absB.blocks);
    ValidFits(absA);
    var bs := absA.blocks;
    var digits := seq(|bs|, i requires 0 <= i < |bs| => bs[|bs| - 1 - i]);
    ReversedVal(digits, bs);
    assert AllSmall(digits);
    var r := Normalize(1, [0], None);
    SingleBlock(0);
    quot := [];
    ghost var rv: int := 0;
    assert digits[..0] == [] && MsbVal(quot) == 0;
    for i := 0 to |digits|
      invariant |quot| == i && AllSmall(quot)
      invariant 0 <= rv < bv && r == FromVal(1, rv)
      invariant MsbVal(quot) * bv + rv == MsbVal(digits[..i])
    {
      ghost var v: nat := rv * 1000 + digits[i];
      ShiftBound(digits, quot, i, rv, bv);
      FitsBelow(v, Val(bs));
      r := ShiftDigit(r, digits[i], rv);
      var q;
      q, r := Reduce(r, absB, v, bv);
      ghost var rest: nat := v - bv * q;
      LongStep(digits, quot, i, rv, bv, q, v, rest);
      AllSmallAppend(quot, q);
      quot := quot + [q];
      rv := rest;
    }
    assert digits[..|digits|] == digits;
    LongDone(MsbVal(quot), bv, rv, Val(bs));
    rem := r;
  }

  // ---------------------------------------------------------------------
  // divide

  /** Q reversed to least-significant first, top zero blocks popped, then normalised. */
  method QuotientNumber(quot: seq<nat>) returns (absQ: Num)
    requires |quot| >= 1 && AllSmall(quot)
    ensures absQ == FromVal(1, MsbVal(quot))
  {
    var qb := seq(|quot|, i requires 0 <= i < |quot| => quot[|quot| - 1 - i]);
    ReversedVal(quot, qb);
    assert AllSmall(qb);
    while |qb| > 1 && qb[|qb| - 1] == 0
      invariant |qb| >= 1 && AllSmall(qb) && Val(qb) == MsbVal(quot)
      decreases |qb|
    {
      ValAppend(qb[..|qb| - 1], 0);
      assert qb == qb[..|qb| - 1] + [0];
      qb := qb[..|qb| - 1];
    }
    absQ := Normalize(1, qb, None);
  }

  /** Floor division of signed magnitudes: the quotient of the magnitudes, rounded down when the signs differ. */
  lemma FloorBySigns(sa: Sign, sb: Sign, v: int, d: int)
    requires v >= 0 && d >= 1
    ensures sb * d != 0
    ensures sa * sb == 1 ==> FloorDiv(sa * v, sb * d) == v / d
    ensures sa * sb == -1 ==> FloorDiv(sa * v, sb * d) == (if v % d == 0 then -(v / d) else -(v / d) - 1)
  {
    NegatedDividend(v, d);
    if sb == -1 {
      assert -(sb * d) == d;
      if sa == 1 {
        assert -(sa * v) == -v;
      } else {
        assert -(sa * v) == v;
      }
    }
  }

  /** FromInt of a value whose sign and magnitude are known. */
  lemma FromIntParts(k: int)
    requires k >= 0
    ensures FromInt(k, 1) == FromVal(1, k)
    ensures k >= 1 ==> FromInt(-k, 1) == FromVal(-1, k)
  {
  }

  /** divide on finite operands with a nonzero divisor is the canonical number of the floor quotient s * k. */
  lemma DivIs(a: Num, b: Num, s: Sign, k: int)
    requires Valid(a) && Valid(b) && a.Finite? && b.Finite? && !IsZeroBlocks(b) && Value(b) != 0
    requires k >= 0 && (s == 1 || k >= 1) && FloorDiv(Value(a), Value(b)) == s * k
    ensures DivSpec(a, b) == Ok(FromVal(s, k))
  {
    if s == 1 {
      FromIntParts(k);
    } else {
      FromIntParts(k);
      assert s * k == -k;
    }
  }

  /** The quotient is no larger than the dividend. */
  lemma QuotientBelow(v: nat, d: nat)
    requires d >= 1
    ensures v / d <= v
    ensures v >= d ==> v / d >= 1
  {
    DivModUnique(v, d, v / d, v % d);
    MulLe(1, d, v / d);
  }

  /** The sign update of divide's last branch on a canonical number. */
  lemma WithSignFromVal(x: nat)
    ensures WithSign(FromVal(1, x), -1) == FromVal(-1, x)
  {
  }

  /** The -1 that divide returns when |a| < |b| and the signs differ. */
  lemma MinusOne()
    ensures Normalized(-1, [1], None) == FromVal(-1, 1)
  {
    NormalizedIsFromVal(-1, [1]);
    assert [1] == [] + [1];
    ValAppend([], 1);
  }

  /** A canonical block list renormalised with sign -1 and no magnitude. */
  lemma Renegated(x: nat)
    requires FromVal(1, x).Finite?
    ensures Normalized(-1, FromVal(1, x).blocks, None) == FromVal(-1, x)
  {
    ToBlocksProps(x);
    NormalizedIsFromVal(-1, ToBlocks(x));
  }

  /** divide's fast path for |a| < |b|: +0 for equal signs, -1 otherwise (a is nonzero here). */
  method SmallQuotient(a: Num, b: Num, sign: int) returns (r: Result<Num>)
    requires Valid(a) && Valid(b) && a.Finite? && b.Finite? && !IsZeroBlocks(a) && !IsZeroBlocks(b)
    requires sign == a.sign * b.sign && Val(a.blocks) < Val(b.blocks)
    ensures r == DivSpec(a, b)
  {
    NonzeroDivisor(a);
    NonzeroDivisor(b);
    ghost var v: int, d: int := Val(a.blocks), Val(b.blocks);
    FloorBySigns(a.sign, b.sign, v, d);
    DivModUnique(v, d, 0, v);
    SingleBlock(0);
    var zero := Normalize(1, [0], None);
    if sign == 1 {
      DivIs(a, b, 1, 0);
      r := Ok(zero);
    } else if !IsEqual(a, zero) {
      DivIs(a, b, -1, 1);
      MinusOne();
      var minusOne := Normalize(-1, [1], None);
      r := Ok(minusOne);
    } else {
      r := Ok(zero);
    }
  }

  /** divide's last step: the unsigned quotient, negated and rounded down when the signs differ. */
  method SignedQuotient(a: Num, b: Num, absQ: Num, rem: Num) returns (r: Result<Num>)
    requires Valid(a) && Valid(b) && a.Finite? && b.Finite? && !IsZeroBlocks(b) && Val(b.blocks) >= 1
    requires Val(a.blocks) / Val(b.blocks) >= 1
    requires absQ == FromVal(1, Val(a.blocks) / Val(b.blocks)) && absQ.Finite?
    requires rem == FromVal(1, Val(a.blocks) % Val(b.blocks)) && rem.Finite?
    ensures r == DivSpec(a, b)
  {
    ghost var v: int, d: int := Val(a.blocks), Val(b.blocks);
    FloorBySigns(a.sign, b.sign, v, d);
    var sign := a.sign * b.sign;
    if sign == 1 {
      DivIs(a, b, 1, v / d);
      r := Ok(absQ);
    } else {
      SingleBlock(0);
      var zero := Normalize(1, [0], None);
      ZeroTest(v % d);
      if IsEqual(rem, zero) {
        DivIs(a, b, -1, v / d);
        Renegated(v / d);
        var n := Normalize(-1, absQ.blocks, None);
        r := Ok(n);
      } else {
        DivIs(a, b, -1, v / d + 1);
        var one := Normalize(1, [1], None);
        SingleBlock(1);
        AddFromVal(v / d, 1);
        var qValue := Add(absQ, one);
        WithSignFromVal(v / d + 1);
        r := Ok(WithSign(qValue.value, -1));
      }
    }
  }

  /** divide(a, b) */
  method Divide(a: Num, b: Num) returns (r: Result<Num>)
    requires Valid(a) && Valid(b)
    ensures r == DivSpec(a, b)
  {
    if IsZeroBlocks(b) {
      r := Err(DivisionByZero);
      return;
    }
    if b.Inf? {
      var zero := Normalize(1, [0], None);
      SingleBlock(0);
      r := Ok(zero);
      return;
    }
    if a.Inf? {
      var sign := a.sign * b.sign;
      r := Ok(if sign > 0 then POS_INF else NEG_INF);
      return;
    }
    NonzeroDivisor(b);
    if IsZeroBlocks(a) {
      SingleBlock(0);
      FloorBySigns(a.sign, b.sign, 0, Val(b.blocks));
      DivModUnique(0, Val(b.blocks), 0, 0);
      DivIs(a, b, 1, 0);
      var zero := Normalize(1, [0], None);
      r := Ok(zero);
      return;
    }
    var sign := a.sign * b.sign;
    var absA := Unsigned(a);
    var absB := Unsigned(b);
    ValidWithSign(a, 1);
    ValidWithSign(b, 1);
    if IsLesser(absA, absB) {
      r := SmallQuotient(a, b, sign);
      return;
    }
    var quot, rem := LongDivision(absA, absB);
    ValidFits(a);
    var absQ := QuotientNumber(quot);
    ghost var v, d := Val(a.blocks), Val(b.blocks);
    assert absA.blocks == a.blocks && absB.blocks == b.blocks;
    assert v >= d;
    QuotientBelow(v, d);
    FitsBelow(v / d, v);
    FitsBelow(v % d, v);
    r := SignedQuotient(a, b, absQ, rem);
  }
}
