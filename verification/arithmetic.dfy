/**
 * add, subtract and multiply.  add and subtract renormalise their operands,
 * settle infinities, hand opposite-sign operands to each other, and work
 * block by block with a carry or a borrow; multiply convolves the block
 * arrays and then propagates carries.  On valid operands every finite result
 * is the exact integer result, and an oversized one becomes the infinity of
 * its sign.  A zero produced by add or subtract carries the sign of the left
 * operand, so -0 can appear.
 */
module Arithmetic {
  import opened Numbers
  import opened Normalization
  import opened Comparison

  // ---------------------------------------------------------------------
  // Reference results

  /** What add gives on valid operands. */
  function AddSpec(a: Num, b: Num): Result<Num>
  {
    if a.Inf? && b.Inf? then (if a.sign == b.sign then Ok(a) else Err(UndefinedInfPlusNegInf))
    else if a.Inf? then Ok(a)
    else if b.Inf? then Ok(b)
    else Ok(FromInt(Value(a) + Value(b), a.sign))
  }

  /** What subtract gives on valid operands. */
  function SubSpec(a: Num, b: Num): Result<Num>
  {
    if a.Inf? && b.Inf? then (if a.sign == b.sign then Err(UndefinedInfMinusInf) else Ok(a))
    else if a.Inf? then Ok(a)
    else if b.Inf? then Ok(Inf(Opposite(b.sign)))
    else Ok(FromInt(Value(a) - Value(b), a.sign))
  }

  /**
   * What multiply gives on any operands: a zero block list ([0]) against an
   * infinity is an error, a zero operand gives +0, and otherwise the product
   * of the block values, saturated, with the product of the signs.
   */
  function MulSpec(a: Num, b: Num): Result<Num>
  {
    if a.Inf? || b.Inf? then
      (if IsZeroBlocks(a) || IsZeroBlocks(b) then Err(UndefinedZeroTimesInf) else Ok(Inf(a.sign * b.sign)))
    else if IsZeroBlocks(a) || IsZeroBlocks(b) then Ok(FromVal(1, 0))
    else if |a.blocks| + |b.blocks| == 0 then Ok(Normalized(a.sign * b.sign, [], None))
    else Ok(FromVal(a.sign * b.sign, Val(a.blocks) * Val(b.blocks)))
  }

  // ---------------------------------------------------------------------
  // Step lemmas for the carry and borrow loops

  /** A block sum split into a low block and a carry keeps its weight at position i. */
  lemma CarryStep(c: nat, dx: nat, dy: nat, lo: nat, hi: nat, i: nat)
    requires lo + 1000 * hi == dx + dy + c
    ensures lo * Pow1000(i) + hi * Pow1000(i + 1) == c * Pow1000(i) + dx * Pow1000(i) + dy * Pow1000(i)
  {
    var p := Pow1000(i);
    calc {
      lo * p + hi * Pow1000(i + 1);
      lo * p + hi * (1000 * p);
      (lo + 1000 * hi) * p;
      (dx + dy + c) * p;
      c * p + dx * p + dy * p;
    }
  }

  /** One round of add's carry loop: result with the carry on top keeps the value of the padded prefix sums. */
  lemma AddLoopStep(x: seq<nat>, y: seq<nat>, result: seq<nat>, carry: nat, i: nat, lo: nat, hi: nat)
    requires |result| == i
    requires Val(result + [carry]) == Val(Prefix(x, i)) + Val(Prefix(y, i))
    requires lo + 1000 * hi == Digit(x, i) + Digit(y, i) + carry
    ensures Val(result + [lo] + [hi]) == Val(Prefix(x, i + 1)) + Val(Prefix(y, i + 1))
  {
    ValAppend(result, carry);
    ValAppend(result, lo);
    ValAppend(result + [lo], hi);
    CarryStep(carry, Digit(x, i), Digit(y, i), lo, hi, i);
    PrefixStep(x, i);
    PrefixStep(y, i);
  }

  lemma BorrowStep(vr: int, vb: int, va: int, bo: int, av: int, bv: int, d: int, nb: int, p: int, p1: int)
    requires p1 == 1000 * p
    requires vr + vb == va + bo * p
    requires d == av - bv - bo + 1000 * nb
    ensures (vr + d * p) + (vb + bv * p) == (va + av * p) + nb * p1
  {
    calc {
      (vr + d * p) + (vb + bv * p);
      va + bo * p + (av - bv - bo + 1000 * nb) * p + bv * p;
      va + av * p + nb * (1000 * p);
    }
  }

  /** One round of subtract's borrow loop: result and y's prefix add up to x's prefix with the borrow on top. */
  lemma SubtractLoopStep(x: seq<nat>, y: seq<nat>, result: seq<nat>, borrow: nat, i: nat, diff: nat, borrow': nat)
    requires i < |x| && |result| == i
    requires Val(result) + Val(Prefix(y, i)) == Val(x[..i] + [borrow])
    requires diff == x[i] - Digit(y, i) - borrow + 1000 * borrow'
    ensures Val(result + [diff]) + Val(Prefix(y, i + 1)) == Val(x[..i + 1] + [borrow'])
  {
    var p, p1 := Pow1000(i), Pow1000(i + 1);
    var xi := x[..i];
    var vr, vb, va := Val(result), Val(Prefix(y, i)), Val(xi);
    var av, bv := x[i], Digit(y, i);
    assert |xi| == i;
    ValAppendAt(xi, borrow, i, p);
    BorrowStep(vr, vb, va, borrow, av, bv, diff, borrow', p, p1);
    PrefixStep(y, i);
    assert x[..i + 1] == xi + [av];
    ValAppendAt(xi, av, i, p);
    ValAppendAt(x[..i + 1], borrow', i + 1, p1);
    ValAppendAt(result, diff, i, p);
  }

  /** Val(s + [x]) with the place value of the new block given. */
  lemma ValAppendAt(s: seq<nat>, x: nat, n: nat, p: nat)
    requires |s| == n && p == Pow1000(n)
    ensures Val(s + [x]) == Val(s) + x * p
  {
    ValAppend(s, x);
  }

  /** A signed multiple with the zero sign equal to the multiplier is the canonical number of that sign. */
  lemma FromIntSigned(s: Sign, u: nat)
    ensures FromInt(s * u, s) == FromVal(s, u)
  {
  }

  lemma BitTimes(bit: nat, p: nat)
    requires bit <= 1
    ensures bit * p == (if bit == 0 then 0 else p)
  {
  }

  lemma SignedDifference(s: Sign, x: int, y: int)
    ensures s * x - s * y == s * (x - y)
  {
  }

  lemma SignedSum(s: Sign, x: nat, y: nat)
    ensures s * x + s * y == s * (x + y)
  {
  }

  lemma OppositeTimes(s: Sign, x: int)
    ensures Opposite(s) * x == -(s * x)
  {
  }

  // ---------------------------------------------------------------------
  // Termination measures for the add/subtract mutual recursion

  /** add hands opposite-sign (renormalised, finite) operands to subtract. */
  function AddRank(a: Num, b: Num): nat
  {
    var na, nb := Norm(a), Norm(b);
    if na.Finite? && nb.Finite? && na.sign != nb.sign then 3 else 0
  }

  /** subtract hands opposite signs to add, and |a| < |b| to subtract(b, a). */
  function SubRank(a: Num, b: Num): nat
  {
    var na, nb := Norm(a), Norm(b);
    if na.Finite? && nb.Finite? then
      if na.sign != nb.sign then 2
      else if Compare(Unsigned(na), Unsigned(nb)) < 0 then 1
      else 0
    else 0
  }

  /**
   * The negated right operand passed across by add and subtract: it carries
   * no magnitude, so the callee derives one when it renormalises it.
   */
  method NegatedOperand(nb: Num) returns (bNeg: Num)
    requires nb.Finite? && AllSmall(nb.blocks)
    ensures bNeg == Normalized(Opposite(nb.sign), nb.blocks, None)
    ensures WellFormed(bNeg) && bNeg.sign == Opposite(nb.sign)
    ensures |nb.blocks| >= 1 ==> bNeg == FromVal(Opposite(nb.sign), Val(nb.blocks))
  {
    bNeg := Normalize(Opposite(nb.sign), nb.blocks, None);
    if |nb.blocks| >= 1 {
      TrimFacts(nb.blocks);
    } else {
      assert Trim(nb.blocks) == [];
    }
  }

  lemma NegatedOperandRank(na: Num, nb: Num)
    requires na.Finite? && nb.Finite? && na.sign != nb.sign
    requires Norm(na) == na
    ensures SubRank(na, Normalized(Opposite(nb.sign), nb.blocks, None)) <= 1
    ensures AddRank(na, Normalized(Opposite(nb.sign), nb.blocks, None)) == 0
  {
    NormFacts(Normalized(Opposite(nb.sign), nb.blocks, None));
  }

  // ---------------------------------------------------------------------
  // The block loops of add and subtract

  /** Everything one round of add's carry loop needs: the new low block, the carry bound, the value. */
  lemma AddRound(x: seq<nat>, y: seq<nat>, result: seq<nat>, carry: nat, i: nat, sum: nat, lo: nat, hi: nat)
    requires AllSmall(x) && AllSmall(y) && AllSmall(result) && carry <= 1
    requires |result| == i
    requires Val(result + [carry]) == Val(Prefix(x, i)) + Val(Prefix(y, i))
    requires sum == Digit(x, i) + Digit(y, i) + carry
    requires lo == sum % BLOCK_BASE && hi == sum / BLOCK_BASE
    ensures hi <= 1 && AllSmall(result + [lo])
    ensures Val(result + [lo] + [hi]) == Val(Prefix(x, i + 1)) + Val(Prefix(y, i + 1))
  {
    DigitSmall(x, i);
    DigitSmall(y, i);
    AddLoopStep(x, y, result, carry, i, lo, hi);
    AllSmallAppend(result, lo);
  }

  /** After the carry loop: appending a nonzero carry (or nothing) gives the full sum. */
  lemma AddFinish(x: seq<nat>, y: seq<nat>, result: seq<nat>, carry: nat, maxLen: nat)
    requires AllSmall(result) && carry <= 1
    requires maxLen >= |x| && maxLen >= |y|
    requires Val(result + [carry]) == Val(Prefix(x, maxLen)) + Val(Prefix(y, maxLen))
    ensures carry > 0 ==> AllSmall(result + [carry]) && Val(result + [carry]) == Val(x) + Val(y)
    ensures carry == 0 ==> Val(result) == Val(x) + Val(y)
  {
    PrefixAll(x, maxLen);
    PrefixAll(y, maxLen);
    if carry > 0 {
      AllSmallAppend(result, carry);
    } else {
      ValAppend(result, carry);
    }
  }

  /** The carry loop of add: blocks of x + y, padded with zeros, plus a final carry block. */
  method AddBlocks(x: seq<nat>, y: seq<nat>) returns (result: seq<nat>)
    requires AllSmall(x) && AllSmall(y)
    ensures AllSmall(result)
    ensures Val(result) == Val(x) + Val(y)
    ensures |result| >= |x| && |result| >= |y|
  {
    var maxLen := if |x| > |y| then |x| else |y|;
    var carry;
    result, carry := AddCarryLoop(x, y, maxLen);
    AddFinish(x, y, result, carry, maxLen);
    if carry > 0 {
      result := result + [carry];
    }
  }

  /** The carry loop of add over the first n blocks of x and y, padded with zeros; the last carry is returned apart. */
  method AddCarryLoop(x: seq<nat>, y: seq<nat>, n: nat) returns (result: seq<nat>, carry: nat)
    requires AllSmall(x) && AllSmall(y)
    ensures |result| == n && AllSmall(result) && carry <= 1
    ensures Val(result + [carry]) == Val(Prefix(x, n)) + Val(Prefix(y, n))
  {
    result := [];
    carry := 0;
    ValAppend([], 0);
    assert Prefix(x, 0) == [] && Prefix(y, 0) == [];
    for i := 0 to n
      invariant |result| == i && AllSmall(result)
      invariant carry <= 1
      invariant Val(result + [carry]) == Val(Prefix(x, i)) + Val(Prefix(y, i))
    {
      var sum := Digit(x, i) + Digit(y, i) + carry;
      var lo, hi := sum % BLOCK_BASE, sum / BLOCK_BASE;
      AddRound(x, y, result, carry, i, sum, lo, hi);
      carry := hi;
      result := result + [lo];
    }
  }

  /**
   * The borrow loop of subtract: one block per block of x, y padded with
   * zeros, the final borrow dropped (it is returned here to state the value).
   */
  method SubtractBlocks(x: seq<nat>, y: seq<nat>) returns (result: seq<nat>, borrow: nat)
    requires AllSmall(x) && AllSmall(y)
    ensures AllSmall(result) && |result| == |x| && borrow <= 1
    ensures Val(result) + Val(Prefix(y, |x|)) == Val(x + [borrow])
  {
    result := [];
    borrow := 0;
    ValAppend([], 0);
    for i := 0 to |x|
      invariant |result| == i && AllSmall(result) && borrow <= 1
      invariant Val(result) + Val(Prefix(y, i)) == Val(x[..i] + [borrow])
    {
      ghost var before := borrow;
      var aVal := x[i];
      var bVal := Digit(y, i);
      var diff := aVal - bVal - borrow;
      if diff < 0 {
        diff := diff + 1000;
        borrow := 1;
      } else {
        borrow := 0;
      }
      SubtractLoopStep(x, y, result, before, i, diff, borrow);
      result := result + [diff];
    }
    assert x[..|x|] == x;
  }

  /** add's same-sign result on valid operands is the exact sum. */
  lemma SameSignSum(a: Num, b: Num, result: seq<nat>)
    requires Valid(a) && Valid(b) && a.Finite? && b.Finite? && a.sign == b.sign
    requires AllSmall(result) && |result| >= 1 && Val(result) == Val(a.blocks) + Val(b.blocks)
    ensures Normalized(a.sign, result, None) == FromInt(Value(a) + Value(b), a.sign)
  {
    var u := Val(result);
    NormalizedIsFromVal(a.sign, result);
    SameSignValues(a, b, u);
    FromIntSigned(a.sign, u);
  }

  /** Two finite numbers of one sign add up to that sign times the sum u of their magnitudes. */
  lemma SameSignValues(a: Num, b: Num, u: nat)
    requires a.Finite? && b.Finite? && a.sign == b.sign && u == Val(a.blocks) + Val(b.blocks)
    ensures Value(a) + Value(b) == a.sign * u
  {
    SignedSum(a.sign, Val(a.blocks), Val(b.blocks));
  }

  /** subtract's borrow loop on valid operands with |a| >= |b| is the exact difference. */
  lemma SameSignDifference(a: Num, b: Num, result: seq<nat>, borrow: nat)
    requires Valid(a) && Valid(b) && a.Finite? && b.Finite? && a.sign == b.sign
    requires Compare(Unsigned(a), Unsigned(b)) >= 0
    requires AllSmall(result) && |result| == |a.blocks| && borrow <= 1
    requires Val(result) + Val(Prefix(b.blocks, |a.blocks|)) == Val(a.blocks + [borrow])
    ensures Normalized(a.sign, result, None) == FromInt(Value(a) - Value(b), a.sign)
  {
    ValidWithSign(a, 1);
    ValidWithSign(b, 1);
    CompareAgrees(Unsigned(a), Unsigned(b));
    NoLongerThan(a, b);
    PrefixAll(b.blocks, |a.blocks|);
    ValBound(result);
    ValidFacts(a);
    ValAppend(a.blocks, borrow);
    BitTimes(borrow, Pow1000(|a.blocks|));
    var d := Val(a.blocks) - Val(b.blocks);
    assert Val(result) == d;
    NormalizedIsFromVal(a.sign, result);
    SignedDifference(a.sign, Val(a.blocks), Val(b.blocks));
    FromIntSigned(a.sign, d);
  }


  // ---------------------------------------------------------------------
  // add and subtract

  /** add on valid operands of opposite signs is subtract with b negated. */
  lemma AddCrosses(a: Num, b: Num, bNeg: Num)
    requires Valid(a) && Valid(b) && a.Finite? && b.Finite? && a.sign != b.sign
    requires bNeg == FromVal(Opposite(b.sign), Val(b.blocks))
    ensures Valid(bNeg)
    ensures SubSpec(a, bNeg) == AddSpec(a, b)
  {
    ValidFacts(b);
    FromValFacts(Opposite(b.sign), Val(b.blocks));
    OppositeTimes(b.sign, Val(b.blocks));
  }

  /** subtract on valid operands of opposite signs is add with b negated. */
  lemma SubtractCrosses(a: Num, b: Num, bNeg: Num)
    requires Valid(a) && Valid(b) && a.Finite? && b.Finite? && a.sign != b.sign
    requires bNeg == FromVal(Opposite(b.sign), Val(b.blocks))
    ensures Valid(bNeg)
    ensures AddSpec(a, bNeg) == SubSpec(a, b)
  {
    ValidFacts(b);
    FromValFacts(Opposite(b.sign), Val(b.blocks));
    OppositeTimes(b.sign, Val(b.blocks));
  }

  /** add(a, b) */
  method Add(a: Num, b: Num) returns (r: Result<Num>)
    requires WellFormed(a) && WellFormed(b)
    ensures r.Ok? ==> WellFormed(r.value)
    ensures Valid(a) && Valid(b) ==> r == AddSpec(a, b)
    decreases AddRank(a, b)
  {
    var na := NormalizeNum(a);
    var nb := NormalizeNum(b);
    NormFacts(a);
    NormFacts(b);
    if na.Inf? || nb.Inf? {
      if na.Inf? && nb.Inf? {
        if na.sign == nb.sign {
          r := Ok(na);
        } else {
          r := Err(UndefinedInfPlusNegInf);
        }
      } else {
        r := Ok(if na.Inf? then na else nb);
      }
      return;
    }
    if na.sign != nb.sign {
      var bNeg := NegatedOperand(nb);
      NegatedOperandRank(na, nb);
      r := Subtract(na, bNeg);
      if Valid(a) && Valid(b) {
        ValidFacts(b);
        AddCrosses(a, b, bNeg);
      }
      return;
    }
    var result := AddBlocks(na.blocks, nb.blocks);
    var n := Normalize(na.sign, result, None);
    r := Ok(n);
    if Valid(a) && Valid(b) {
      SameSignSum(a, b, result);
    }
  }

  /** On valid operands of one sign with |a| < |b|, subtract(b, a) with its sign flipped is a - b. */
  lemma FlippedDifference(a: Num, b: Num)
    requires Valid(a) && Valid(b) && a.Finite? && b.Finite? && a.sign == b.sign
    requires Compare(Unsigned(a), Unsigned(b)) < 0
    ensures Val(a.blocks) < Val(b.blocks)
    ensures Negated(FromInt(Value(b) - Value(a), b.sign)) == FromInt(Value(a) - Value(b), a.sign)
  {
    ValidWithSign(a, 1);
    ValidWithSign(b, 1);
    CompareAgrees(Unsigned(a), Unsigned(b));
    var d := Val(b.blocks) - Val(a.blocks);
    assert Value(b) - Value(a) == a.sign * d;
    assert Value(a) - Value(b) == Opposite(a.sign) * d;
    FromIntSigned(a.sign, d);
    FromIntSigned(Opposite(a.sign), d);
  }

  /** Valid operands with |a| >= |b|: b has no more blocks than a. */
  lemma NoLongerThan(a: Num, b: Num)
    requires Valid(a) && Valid(b) && a.Finite? && b.Finite?
    requires Val(b.blocks) <= Val(a.blocks)
    ensures |b.blocks| <= |a.blocks|
  {
    ValidFacts(a);
    ValidFacts(b);
    NumDigitsMono(Val(b.blocks), Val(a.blocks));
  }

  /** subtract(a, b) */
  method Subtract(a: Num, b: Num) returns (r: Result<Num>)
    requires WellFormed(a) && WellFormed(b)
    ensures r.Ok? ==> WellFormed(r.value)
    ensures Valid(a) && Valid(b) ==> r == SubSpec(a, b)
    decreases SubRank(a, b)
  {
    var na := NormalizeNum(a);
    var nb := NormalizeNum(b);
    NormFacts(a);
    NormFacts(b);
    if na.Inf? || nb.Inf? {
      if na.Inf? && nb.Inf? {
        if na.sign == nb.sign {
          r := Err(UndefinedInfMinusInf);
        } else {
          r := Ok(na);
        }
      } else {
        r := Ok(if na.Inf? then na else Inf(Opposite(nb.sign)));
      }
      return;
    }
    if na.sign != nb.sign {
      var bNeg := NegatedOperand(nb);
      NegatedOperandRank(na, nb);
      r := Add(na, bNeg);
      if Valid(a) && Valid(b) {
        ValidFacts(b);
        SubtractCrosses(a, b, bNeg);
      }
      return;
    }
    var absCompare := Compare(Unsigned(na), Unsigned(nb));
    if absCompare < 0 {
      CompareAntisymmetric(Unsigned(na), Unsigned(nb));
      var flipped := Subtract(nb, na);
      r := if flipped.Ok? then Ok(Negated(flipped.value)) else flipped;
      if Valid(a) && Valid(b) {
        FlippedDifference(a, b);
      }
      return;
    }
    var result, borrow := SubtractBlocks(na.blocks, nb.blocks);
    var n := Normalize(na.sign, result, None);
    r := Ok(n);
    if Valid(a) && Valid(b) {
      SameSignDifference(a, b, result, borrow);
    }
  }

  // ---------------------------------------------------------------------
  // multiply

  /** One product term x[i] * y[j] added at position i + j extends the partial row sum by y[j]. */
  lemma ConvolveStep(xi: nat, yj: nat, pi: nat, pj: nat, pij: nat, vy: nat, vy': nat, base: nat, vs: nat, vs': nat)
    requires pij == pi * pj && vy' == vy + yj * pj
    requires vs == base + xi * pi * vy && vs' == vs + xi * yj * pij
    ensures vs' == base + xi * pi * vy'
  {
    calc {
      xi * pi * vy';
      xi * pi * (vy + yj * pj);
      xi * pi * vy + xi * pi * (yj * pj);
      { MulRearrange(xi, pi, yj, pj); }
      xi * pi * vy + xi * yj * pij;
    }
  }

  lemma RowStep(vx: nat, xi: nat, pi: nat, vy: nat)
    ensures vx * vy + xi * pi * vy == (vx + xi * pi) * vy
  {
  }

  /** The value after one accumulation result[i + j] += x[i] * y[j]. */
  lemma AccumulateStep(s: seq<nat>, x: seq<nat>, y: seq<nat>, i: nat, j: nat, base: nat)
    requires i < |x| && j < |y| && i + j < |s|
    requires Val(s) == base + x[i] * Pow1000(i) * Val(y[..j])
    ensures Val(s[i + j := s[i + j] + x[i] * y[j]]) == base + x[i] * Pow1000(i) * Val(y[..j + 1])
  {
    var k := i + j;
    var d := x[i] * y[j];
    ValUpdate(s, k, s[k] + d);
    Distrib(s[k], d, Pow1000(k));
    Pow1000Add(i, j);
    assert y[..j + 1] == y[..j] + [y[j]];
    ValAppend(y[..j], y[j]);
    ConvolveStep(x[i], y[j], Pow1000(i), Pow1000(j), Pow1000(k), Val(y[..j]), Val(y[..j + 1]),
      base, Val(s), Val(s[k := s[k] + d]));
  }

  /** One row of the convolution: acc[i + j] += x[i] * y[j] for every j. */
  method AccumulateRow(acc: array<nat>, x: seq<nat>, y: seq<nat>, i: nat)
    requires i < |x| && acc.Length == |x| + |y|
    modifies acc
    ensures Val(acc[..]) == Val(old(acc[..])) + x[i] * Pow1000(i) * Val(y)
  {
    ghost var base := Val(acc[..]);
    assert y[..0] == [];
    for j := 0 to |y|
      invariant Val(acc[..]) == base + x[i] * Pow1000(i) * Val(y[..j])
    {
      AccumulateStep(acc[..], x, y, i, j, base);
      acc[i + j] := acc[i + j] + x[i] * y[j];
    }
    assert y[..|y|] == y;
  }

  /** One finished row of the convolution extends the product from x[..i] to x[..i + 1]. */
  lemma RowDone(x: seq<nat>, vy: nat, i: nat, before: nat, after: nat)
    requires i < |x|
    requires before == Val(x[..i]) * vy
    requires after == before + x[i] * Pow1000(i) * vy
    ensures after == Val(x[..i + 1]) * vy
  {
    assert x[..i + 1] == x[..i] + [x[i]];
    ValAppend(x[..i], x[i]);
    RowStep(Val(x[..i]), x[i], Pow1000(i), vy);
  }

  /** The schoolbook convolution: a zeroed array of |x| + |y| entries with acc[i + j] += x[i] * y[j]. */
  method Convolve(x: seq<nat>, y: seq<nat>) returns (acc: array<nat>)
    ensures fresh(acc) && acc.Length == |x| + |y|
    ensures Val(acc[..]) == Val(x) * Val(y)
  {
    acc := new nat[|x| + |y|](_ => 0);
    ValZero(acc[..]);
    assert x[..0] == [];
    for i := 0 to |x|
      invariant Val(acc[..]) == Val(x[..i]) * Val(y)
    {
      ghost var before := Val(acc[..]);
      AccumulateRow(acc, x, y, i);
      RowDone(x, Val(y), i, before, Val(acc[..]));
    }
    assert x[..|x|] == x;
  }

  /** One step of the carry pass: block k becomes total % 1000 and the carry total / 1000. */
  lemma CarryPassStep(s: seq<nat>, k: nat, carry: nat, lo: nat, hi: nat, v: nat)
    requires k < |s| && Val(s) + carry * Pow1000(k) == v
    requires lo + 1000 * hi == s[k] + carry
    ensures Val(s[k := lo]) + hi * Pow1000(k + 1) == v
  {
    ValUpdate(s, k, lo);
    CarryStep(carry, s[k], 0, lo, hi, k);
  }

  /**
   * The carry pass and the final carry blocks of multiply: every block is
   * reduced below 1000 in place, then the remaining carry is appended block
   * by block.
   */
  method PropagateCarries(acc: array<nat>) returns (blocks: seq<nat>)
    modifies acc
    ensures AllSmall(blocks) && |blocks| >= acc.Length
    ensures Val(blocks) == Val(old(acc[..]))
    ensures acc.Length == 0 ==> blocks == []
  {
    ghost var v := Val(acc[..]);
    var carry: nat := 0;
    for k := 0 to acc.Length
      invariant Val(acc[..]) + carry * Pow1000(k) == v
      invariant forall t :: 0 <= t < k ==> acc[t] < BLOCK_BASE
    {
      var total := acc[k] + carry;
      CarryPassStep(acc[..], k, carry, total % BLOCK_BASE, total / BLOCK_BASE, v);
      acc[k] := total % BLOCK_BASE;
      carry := total / BLOCK_BASE;
    }
    blocks := acc[..];
    ValAppend(blocks, carry);
    while carry > 0
      invariant AllSmall(blocks) && |blocks| >= acc.Length
      invariant Val(blocks + [carry]) == v
      invariant acc.Length == 0 ==> carry == 0 && blocks == []
      decreases carry
    {
      ValAppend(blocks, carry);
      ValAppend(blocks, carry % BLOCK_BASE);
      ValAppend(blocks + [carry % BLOCK_BASE], carry / BLOCK_BASE);
      CarryStep(carry, 0, 0, carry % BLOCK_BASE, carry / BLOCK_BASE, |blocks|);
      AllSmallAppend(blocks, carry % BLOCK_BASE);
      blocks := blocks + [carry % BLOCK_BASE];
      carry := carry / BLOCK_BASE;
    }
    ValAppend(blocks, 0);
  }

  /** multiply(a, b) */
  method Multiply(a: Num, b: Num) returns (r: Result<Num>)
    ensures r == MulSpec(a, b)
    ensures r.Ok? ==> WellFormed(r.value)
  {
    if a.Inf? || b.Inf? {
      var aIsZero := IsZeroBlocks(a);
      var bIsZero := IsZeroBlocks(b);
      if aIsZero || bIsZero {
        r := Err(UndefinedZeroTimesInf);
      } else {
        var sign := a.sign * b.sign;
        r := Ok(if sign > 0 then POS_INF else NEG_INF);
      }
      return;
    }
    if IsZeroBlocks(a) || IsZeroBlocks(b) {
      var zero := Normalize(1, [0], None);
      r := Ok(zero);
      return;
    }
    var acc := Convolve(a.blocks, b.blocks);
    var blocks := PropagateCarries(acc);
    var n := Normalize(a.sign * b.sign, blocks, None);
    r := Ok(n);
    if |a.blocks| + |b.blocks| == 0 {
      assert blocks == [];
    }
  }

  /** add keeps validity. */
  lemma AddValid(x: Num, y: Num)
    requires Valid(x) && Valid(y)
    ensures AddSpec(x, y).Ok? ==> Valid(AddSpec(x, y).value)
  {
    if x.Finite? && y.Finite? {
      FromIntFacts(Value(x) + Value(y), x.sign);
    }
  }

  /** subtract keeps validity. */
  lemma SubValid(x: Num, y: Num)
    requires Valid(x) && Valid(y)
    ensures SubSpec(x, y).Ok? ==> Valid(SubSpec(x, y).value)
  {
    if x.Finite? && y.Finite? {
      FromIntFacts(Value(x) - Value(y), x.sign);
    }
  }
}
