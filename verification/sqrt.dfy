/**
 * sqrt.  +∞ is its own root, -∞ and negative numbers (even -0) raise, and
 * zero is returned as it is.  Otherwise an initial guess is built from the
 * magnitude m as the blocks [1, 0, ..., 0, 1] of length ceil(m / 2), and
 * Newton's step x := (x + num / x) / 2 runs at most 100 times, stopping as
 * soon as a step leaves x unchanged.
 */
module SquareRoot {
  import opened Numbers
  import opened Normalization
  import opened Comparison
  import opened Arithmetic
  import opened Division

  /** Iterations before sqrt gives up. */
  const ITERATION_LIMIT: nat := 100

  /** The number 2, as normalize_number builds it from [2]. */
  const TWO: Num := FromVal(1, 2)

  // ---------------------------------------------------------------------
  // The initial guess

  /** The value of the guess blocks [1, 0, ..., 0, 1] of length gm (just [1] when gm is 1). */
  function GuessValue(gm: nat): nat
  {
    if gm <= 1 then 1 else 1 + Pow1000(gm - 1)
  }

  /** Blocks that are a 1 followed by zeros. */
  predicate OneThenZeros(bs: seq<nat>)
  {
    |bs| >= 1 && bs[0] == 1 && forall k :: 1 <= k < |bs| ==> bs[k] == 0
  }

  lemma {:induction false} OneThenZerosVal(bs: seq<nat>)
    requires OneThenZeros(bs)
    ensures Val(bs) == 1 && AllSmall(bs)
    decreases |bs|
  {
    if |bs| == 1 {
      assert bs == [] + [1];
      ValAppend([], 1);
    } else {
      var front := bs[..|bs| - 1];
      assert OneThenZeros(front);
      OneThenZerosVal(front);
      assert bs == front + [0];
      ValAppend(front, 0);
    }
  }

  /**
   * The guess blocks as sqrt builds them: start from [1] (what
   * normalize_number leaves of [1, 0, 0]), pad with zeros up to each index
   * 4..gm, pad up to gm, and set the block gm - 1 to 1.
   */
  method GuessBlocks(gm: nat) returns (bs: seq<nat>)
    requires gm >= 1
    ensures |bs| == gm && AllSmall(bs) && bs[gm - 1] == 1
    ensures Val(bs) == GuessValue(gm)
  {
    bs := [1];
    if gm >= 4 {
      for i := 4 to gm + 1
        invariant OneThenZeros(bs) && |bs| <= i - 1
      {
        if |bs| < i {
          PadZeros(bs, i - |bs|);
          bs := bs + seq(i - |bs|, _ => 0);
        }
        ZeroAt(bs, i - 1);
        bs := bs[i - 1 := 0];
      }
    }
    if |bs| < gm {
      PadZeros(bs, gm - |bs|);
      bs := bs + seq(gm - |bs|, _ => 0);
    }
    if gm == 1 {
      bs := [1];
      OneThenZerosVal(bs);
    } else {
      OneOnTop(bs);
      bs := bs[gm - 1 := 1];
    }
  }

  /** Padding with zero blocks keeps a 1 followed by zeros. */
  lemma PadZeros(bs: seq<nat>, k: nat)
    requires OneThenZeros(bs)
    ensures OneThenZeros(bs + seq(k, _ => 0)) && |bs + seq(k, _ => 0)| == |bs| + k
  {
    var t := bs + seq(k, _ => 0);
    forall j | 1 <= j < |t|
      ensures t[j] == 0
    {
      if j >= |bs| {
        assert t[j] == seq(k, _ => 0)[j - |bs|];
      }
    }
  }

  /** Setting a block other than the first to 0 keeps a 1 followed by zeros. */
  lemma ZeroAt(bs: seq<nat>, j: nat)
    requires OneThenZeros(bs) && 1 <= j < |bs|
    ensures OneThenZeros(bs[j := 0])
  {
  }

  /** A 1 followed by gm - 1 zero blocks, with the top block set to 1, is the guess. */
  lemma OneOnTop(bs: seq<nat>)
    requires OneThenZeros(bs) && |bs| >= 2
    ensures var top := bs[|bs| - 1 := 1];
      AllSmall(top) && top[|bs| - 1] == 1 && Val(top) == GuessValue(|bs|)
  {
    var front := bs[..|bs| - 1];
    assert OneThenZeros(front);
    OneThenZerosVal(front);
    assert bs[|bs| - 1 := 1] == front + [1];
    ValAppend(front, 1);
  }

  // ---------------------------------------------------------------------
  // The Newton loop as written

  /** divide keeps validity. */
  lemma DivValid(x: Num, y: Num)
    requires Valid(x) && Valid(y)
    ensures DivSpec(x, y).Ok? ==> Valid(DivSpec(x, y).value)
  {
    FromValFacts(1, 0);
    if x.Finite? && y.Finite? && !IsZeroBlocks(y) {
      NonzeroDivisor(y);
      FromIntFacts(FloorDiv(Value(x), Value(y)), 1);
    }
  }

  /** One Newton step: divide(add(x, divide(num, x)), two). */
  function NewtonStep(num: Num, x: Num): (r: Result<Num>)
    requires Valid(num) && Valid(x)
    ensures r.Ok? ==> Valid(r.value)
  {
    DivValid(num, x);
    match DivSpec(num, x)
    case Err(e) => Err(e)
    case Ok(q) =>
      AddValid(x, q);
      match AddSpec(x, q)
      case Err(e) => Err(e)
      case Ok(s) =>
        FromValFacts(1, 2);
        DivValid(s, TWO);
        DivSpec(s, TWO)
  }

  /** The loop of sqrt with fuel rounds left: stop when a step leaves x unchanged (is_equal). */
  function NewtonLoop(num: Num, x: Num, fuel: nat): Result<Num>
    requires Valid(num) && Valid(x)
    decreases fuel
  {
    if fuel == 0 then Ok(x)
    else match NewtonStep(num, x)
      case Err(e) => Err(e)
      case Ok(y) => if IsEqual(y, x) then Ok(x) else NewtonLoop(num, y, fuel - 1)
  }

  /** One turn of the loop, unfolded. */
  lemma LoopUnfold(num: Num, x: Num, fuel: nat, y: Num)
    requires Valid(num) && Valid(x) && fuel > 0 && NewtonStep(num, x) == Ok(y)
    ensures Valid(y)
    ensures NewtonLoop(num, x, fuel) == if IsEqual(y, x) then Ok(x) else NewtonLoop(num, y, fuel - 1)
  {
  }

  /** The guess sqrt starts from, for a number of magnitude m: ceil(m / 2) guess blocks. */
  function InitialGuess(m: nat): Num
  {
    FromVal(1, GuessValue((m + 1) / 2))
  }

  /** What sqrt gives. */
  function SqrtSpec(num: Num): Result<Num>
    requires Valid(num)
  {
    if num.Inf? then (if num.sign > 0 then Ok(num) else Err(SqrtOfNegativeInfinity))
    else if num.sign < 0 then Err(SqrtOfNegative)
    else if IsZeroBlocks(num) then Ok(num)
    else
      FromValFacts(1, GuessValue((num.magnitude + 1) / 2));
      NewtonLoop(num, InitialGuess(num.magnitude), ITERATION_LIMIT)
  }

  // ---------------------------------------------------------------------
  // Newton's step on integers

  /** x is the integer square root of n. */
  predicate IsIsqrt(n: int, x: int)
  {
    x >= 0 && x * x <= n < (x + 1) * (x + 1)
  }

  lemma SquareMono(a: int, b: int)
    requires 0 <= a <= b
    ensures a * a <= b * b
  {
    MulLe(a, b, a);
    MulLe(a, b, b);
  }

  /** The integer square root is unique. */
  lemma IsqrtUnique(n: int, x: int, y: int)
    requires IsIsqrt(n, x) && IsIsqrt(n, y)
    ensures x == y
  {
    if x < y {
      SquareMono(x + 1, y);
    } else if y < x {
      SquareMono(y + 1, x);
    }
  }

  /** The step (x + n // x) // 2. */
  function Newton(n: nat, x: nat): nat
    requires x >= 1
  {
    (x + n / x) / 2
  }

  /** A guess the step leaves unchanged is the integer square root. */
  lemma NewtonFixpoint(n: nat, x: nat)
    requires x >= 1 && Newton(n, x) == x
    ensures IsIsqrt(n, x)
  {
    var q, r := n / x, n % x;
    assert n == x * q + r && r < x;
    assert x <= q <= x + 1;
    MulLe(x, q, x);
    MulLe(q, x + 1, x);
    assert n < x * q + x;
  }

  /** The product of two numbers is at most a quarter of the square of their sum. */
  lemma QuarterSquare(x: int, b: int)
    ensures 4 * (x * b) <= (x + b) * (x + b)
  {
    assert (x + b) * (x + b) == 4 * (x * b) + (x - b) * (x - b);
    if x < b {
      assert (x - b) * (x - b) == (b - x) * (b - x);
      NatMul(b - x, b - x);
    } else {
      NatMul(x - b, x - b);
    }
  }

  lemma DoubleSquare(c: int)
    ensures (2 * c) * (2 * c) == 4 * (c * c)
  {
  }

  /** From any positive guess, one step lands at or above the integer square root. */
  lemma NewtonAbove(n: nat, x: nat)
    requires x >= 1
    ensures n < (Newton(n, x) + 1) * (Newton(n, x) + 1)
  {
    var q := n / x;
    var y, b := Newton(n, x), q + 1;
    assert n == x * q + n % x;
    assert n < x * b;
    QuarterSquare(x, b);
    SquareMono(x + b, 2 * (y + 1));
    DoubleSquare(y + 1);
  }

  /** A step that does not go down means the guess is at most the integer square root. */
  lemma NewtonExit(n: nat, x: nat)
    requires x >= 1 && Newton(n, x) >= x
    ensures x * x <= n
  {
    var q := n / x;
    assert n == x * q + n % x;
    MulLe(x, q, x);
  }

  /** The step never reaches zero from a positive guess of a positive number. */
  lemma NewtonPositive(n: nat, x: nat)
    requires n >= 1 && x >= 1
    ensures Newton(n, x) >= 1
  {
    if x == 1 {
      assert n / x == n;
    }
  }

  /** One round of the loop body: quotient, sum, halving, each with the library's own operation. */
  method NewtonRound(num: Num, x: Num, two: Num) returns (y: Result<Num>)
    requires Valid(num) && Valid(x) && two == TWO
    ensures y == NewtonStep(num, x)
  {
    DivValid(num, x);
    var q := Divide(num, x);
    if q.Err? {
      y := Err(q.error);
      return;
    }
    ValidWellFormed(x);
    ValidWellFormed(q.value);
    AddValid(x, q.value);
    // x and num / x are never infinities of opposite signs, so add cannot fail here
    var s := Add(x, q.value);
    FromValFacts(1, 2);
    y := Divide(s.value, two);
  }

  /** The initial guess sqrt builds for a number of magnitude m, normalised. */
  method StartingGuess(m: nat) returns (x: Num)
    requires m >= 1
    ensures x == InitialGuess(m) && Valid(x)
  {
    var gm := (m + 1) / 2;
    var bs := GuessBlocks(gm);
    x := Normalize(1, bs, None);
    FromValFacts(1, GuessValue(gm));
  }

  /** sqrt(num), as written. */
  method Sqrt(num: Num) returns (r: Result<Num>)
    requires Valid(num)
    ensures r == SqrtSpec(num)
  {
    if num.Inf? {
      if num.sign > 0 {
        r := Ok(num);
      } else {
        r := Err(SqrtOfNegativeInfinity);
      }
      return;
    }
    if num.sign < 0 {
      r := Err(SqrtOfNegative);
      return;
    }
    if IsZeroBlocks(num) {
      r := Ok(num);
      return;
    }
    SingleBlock(2);
    var two := Normalize(1, [2], None);
    ValidFacts(num);
    var x := StartingGuess(num.magnitude);
    r := Iterate(num, x, two);
  }

  /** The loop of sqrt: at most ITERATION_LIMIT rounds, stopping when a round leaves x unchanged. */
  method Iterate(num: Num, x0: Num, two: Num) returns (r: Result<Num>)
    requires Valid(num) && Valid(x0) && two == TWO
    ensures r == NewtonLoop(num, x0, ITERATION_LIMIT)
  {
    var x := x0;
    for k := 0 to ITERATION_LIMIT
      invariant Valid(x)
      invariant NewtonLoop(num, x, ITERATION_LIMIT - k) == NewtonLoop(num, x0, ITERATION_LIMIT)
    {
      var y := NewtonRound(num, x, two);
      if y.Err? {
        r := Err(y.error);
        return;
      }
      LoopUnfold(num, x, ITERATION_LIMIT - k, y.value);
      if IsEqual(y.value, x) {
        break;
      }
      x := y.value;
    }
    r := Ok(x);
  }

  // ---------------------------------------------------------------------
  // What sqrt as written gives

  /** A valid, finite, strictly positive number. */
  predicate PositiveNum(num: Num)
  {
    Valid(num) && num.Finite? && num.sign > 0 && !IsZeroBlocks(num)
  }

  /** The guesses the loop can hold on a positive number: +∞ or a positive finite number. */
  predicate Guess(x: Num)
  {
    Valid(x) && (x == POS_INF || (x.Finite? && x.sign > 0 && Val(x.blocks) >= 1))
  }

  /** The number 2 is finite, valid and not zero. */
  lemma TwoFacts()
    ensures TWO.Finite? && Valid(TWO) && !IsZeroBlocks(TWO) && Value(TWO) == 2
  {
    SingleBlock(2);
    FromValFacts(1, 2);
  }

  lemma QuotientRange(n: nat, v: nat)
    requires v >= 1
    ensures 0 <= n / v <= n
  {
  }

  /** divide of two non-negative canonical numbers, the divisor positive, is the canonical quotient. */
  lemma DivFromVal(u: nat, v: nat, q: nat)
    requires v >= 1 && q == u / v && FromVal(1, u).Finite? && FromVal(1, v).Finite?
    ensures Valid(FromVal(1, u)) && Valid(FromVal(1, v)) && FromVal(1, q).Finite?
    ensures DivSpec(FromVal(1, u), FromVal(1, v)) == Ok(FromVal(1, q))
  {
    FromValFacts(1, u);
    FromValFacts(1, v);
    var a, b := FromVal(1, u), FromVal(1, v);
    ValidFacts(b);
    assert !IsZeroBlocks(b) && b.Finite? && a.Finite?;
    assert Value(a) == u && Value(b) == v;
    QuotientRange(u, v);
    assert FloorDiv(u, v) == q;
    assert FromInt(q, 1) == FromVal(1, q);
    FitsBelow(q, u);
  }

  /** divide by two of a non-negative canonical number, +∞ included. */
  lemma HalveFromVal(w: nat)
    ensures Valid(FromVal(1, w)) && Valid(TWO)
    ensures DivSpec(FromVal(1, w), TWO) == Ok(if Overflows(w) then POS_INF else FromVal(1, w / 2))
  {
    FromValFacts(1, w);
    TwoFacts();
  }

  /**
   * One step from a positive finite guess x of a positive number: the
   * integer step (x + num // x) // 2, or +∞ once the sum x + num // x
   * overflows.
   */
  lemma StepFacts(num: Num, x: Num)
    requires PositiveNum(num) && Guess(x) && x.Finite?
    ensures NewtonStep(num, x) == Ok(if Overflows(Val(x.blocks) + Val(num.blocks) / Val(x.blocks)) then POS_INF
                                     else FromVal(1, Newton(Val(num.blocks), Val(x.blocks))))
  {
    var n, v := Val(num.blocks), Val(x.blocks);
    assert num == FromVal(1, n) && x == FromVal(1, v);
    ValidFits(num);
    ValidFits(x);
    QuotientRange(n, v);
    var q := n / v;
    DivFromVal(n, v, q);
    AddFromVal(v, q);
    HalveFromVal(v + q);
  }

  /** From +∞ the step stays at +∞ (num / +∞ is 0). */
  lemma StepAtInfinity(num: Num)
    requires Valid(num)
    ensures NewtonStep(num, POS_INF) == Ok(POS_INF)
  {
    FromValFacts(1, 0);
    TwoFacts();
  }

  /** Once the guess is +∞, sqrt gives +∞. */
  lemma LoopAtInfinity(num: Num, fuel: nat)
    requires Valid(num)
    ensures NewtonLoop(num, POS_INF, fuel) == Ok(POS_INF)
  {
    if fuel > 0 {
      StepAtInfinity(num);
      LoopUnfold(num, POS_INF, fuel, POS_INF);
    }
  }

  /** A guess, finite or not, that is never below the integer square root of n. */
  predicate Above(n: nat, x: Num)
  {
    Guess(x) && (x.Finite? ==> n < (Val(x.blocks) + 1) * (Val(x.blocks) + 1))
  }

  /** A step from a guess is a guess that is never below the integer square root. */
  lemma StepAbove(num: Num, x: Num)
    requires PositiveNum(num) && Guess(x)
    ensures NewtonStep(num, x).Ok? && Above(Val(num.blocks), NewtonStep(num, x).value)
  {
    if x.Finite? {
      var n, v := Val(num.blocks), Val(x.blocks);
      StepFacts(num, x);
      NonzeroDivisor(num);
      NewtonPositive(n, v);
      NewtonAbove(n, v);
      FromValFacts(1, Newton(n, v));
    } else {
      StepAtInfinity(num);
    }
  }

  /** A fixed point of the step is the integer square root. */
  lemma FixpointIsRoot(num: Num, x: Num)
    requires PositiveNum(num) && Guess(x) && x.Finite? && NewtonStep(num, x) == Ok(x)
    ensures IsIsqrt(Val(num.blocks), Val(x.blocks))
  {
    var n, v := Val(num.blocks), Val(x.blocks);
    StepFacts(num, x);
    FromValFacts(1, Newton(n, v));
    NewtonFixpoint(n, v);
  }

  /**
   * From a guess never below the root, the loop ends without error on a
   * guess never below the root, and on the root itself when it ends
   * because a step left the guess unchanged.
   */
  lemma {:induction false} LoopAbove(num: Num, x: Num, fuel: nat)
    requires PositiveNum(num) && Above(Val(num.blocks), x)
    ensures NewtonLoop(num, x, fuel).Ok? && Above(Val(num.blocks), NewtonLoop(num, x, fuel).value)
    decreases fuel, 1
  {
    if fuel > 0 {
      StepAbove(num, x);
      AboveOneTurn(num, x, fuel, NewtonStep(num, x).value);
    }
  }

  /** A turn of the loop from a guess above the root stays above it, and so does the rest of the loop. */
  lemma {:induction false} AboveOneTurn(num: Num, x: Num, fuel: nat, y: Num)
    requires PositiveNum(num) && Above(Val(num.blocks), x) && fuel > 0
    requires NewtonStep(num, x).Ok? && y == NewtonStep(num, x).value && Above(Val(num.blocks), NewtonStep(num, x).value)
    ensures NewtonLoop(num, x, fuel).Ok? && Above(Val(num.blocks), NewtonLoop(num, x, fuel).value)
    decreases fuel, 0
  {
    LoopUnfold(num, x, fuel, y);
    if !IsEqual(y, x) {
      LoopAbove(num, y, fuel - 1);
    }
  }

  /** The initial guess is a guess: 1000^(g-1) + 1 (or 1), or +∞ once that overflows. */
  lemma InitialGuessFacts(m: nat)
    ensures Guess(InitialGuess(m))
  {
    FromValFacts(1, GuessValue((m + 1) / 2));
  }

  /**
   * On a positive number sqrt gives, without error, +∞ or a positive finite
   * number that is never below the integer square root; when that number is
   * one the step leaves unchanged (the loop stopped on is_equal) it is the
   * integer square root.
   */
  lemma SqrtSettled(num: Num)
    requires PositiveNum(num)
    ensures SqrtSpec(num).Ok? && Guess(SqrtSpec(num).value)
    ensures SqrtSpec(num).value.Finite? ==>
      Val(num.blocks) < (Val(SqrtSpec(num).value.blocks) + 1) * (Val(SqrtSpec(num).value.blocks) + 1)
    ensures var x := SqrtSpec(num).value;
      x.Finite? && NewtonStep(num, x) == Ok(x) ==> IsIsqrt(Val(num.blocks), Val(x.blocks))
  {
    var n := Val(num.blocks);
    var g := InitialGuess(num.magnitude);
    InitialGuessFacts(num.magnitude);
    assert SqrtSpec(num) == NewtonLoop(num, g, ITERATION_LIMIT);
    StepAbove(num, g);
    var y := NewtonStep(num, g).value;
    LoopUnfold(num, g, ITERATION_LIMIT, y);
    if IsEqual(y, g) {
      if g.Finite? {
        FixpointIsRoot(num, g);
      }
      assert Above(n, SqrtSpec(num).value);
    } else {
      LoopAbove(num, y, ITERATION_LIMIT - 1);
      assert Above(n, SqrtSpec(num).value);
    }
    var x := SqrtSpec(num).value;
    if x.Finite? && NewtonStep(num, x) == Ok(x) {
      FixpointIsRoot(num, x);
    }
  }

  // ---------------------------------------------------------------------
  // sqrt(8) oscillates between 3 and 2

  /** Numbers below 1000 are one-block canonical numbers. */
  lemma Small(v: nat)
    requires v < BLOCK_BASE
    ensures FromVal(1, v).Finite? && Valid(FromVal(1, v)) && Val(FromVal(1, v).blocks) == v
  {
    SingleBlock(v);
    FromValFacts(1, v);
  }

  /** The steps on 8: from 1 to 4, from 4 to 3, from 3 to 2 and from 2 back to 3. */
  lemma EightSteps()
    ensures PositiveNum(FromVal(1, 8))
    ensures NewtonStep(FromVal(1, 8), FromVal(1, 1)) == Ok(FromVal(1, 4))
    ensures NewtonStep(FromVal(1, 8), FromVal(1, 4)) == Ok(FromVal(1, 3))
    ensures NewtonStep(FromVal(1, 8), FromVal(1, 3)) == Ok(FromVal(1, 2))
    ensures NewtonStep(FromVal(1, 8), FromVal(1, 2)) == Ok(FromVal(1, 3))
  {
    Small(8);
    Small(4);
    Small(3);
    Small(2);
    Small(1);
    var eight := FromVal(1, 8);
    assert eight.blocks == [8];
    StepFacts(eight, FromVal(1, 1));
    StepFacts(eight, FromVal(1, 4));
    StepFacts(eight, FromVal(1, 3));
    StepFacts(eight, FromVal(1, 2));
  }

  /** From 3, an even number of rounds on 8 ends back on 3. */
  lemma {:induction false} Oscillation(k: nat)
    ensures Valid(FromVal(1, 8)) && Valid(FromVal(1, 3))
    ensures NewtonLoop(FromVal(1, 8), FromVal(1, 3), 2 * k) == Ok(FromVal(1, 3))
  {
    Small(8);
    Small(3);
    if k > 0 {
      var eight, two, three := FromVal(1, 8), FromVal(1, 2), FromVal(1, 3);
      Small(2);
      EightSteps();
      LoopUnfold(eight, three, 2 * k, two);
      assert !IsEqual(two, three);
      LoopUnfold(eight, two, 2 * k - 1, three);
      assert !IsEqual(three, two);
      Oscillation(k - 1);
      assert 2 * k - 1 - 1 == 2 * (k - 1);
    }
  }

  /**
   * sqrt(8) as written is 3, though the integer square root of 8 is 2: the
   * guess runs 1, 4, 3, 2, 3, 2, ... and never meets a step that leaves it
   * unchanged, so the loop ends after 100 rounds on 3.
   */
  lemma SqrtOfEight()
    ensures Valid(FromVal(1, 8))
    ensures SqrtSpec(FromVal(1, 8)) == Ok(FromVal(1, 3))
    ensures IsIsqrt(8, 2) && !IsIsqrt(8, 3)
  {
    var eight, one, four, three := FromVal(1, 8), FromVal(1, 1), FromVal(1, 4), FromVal(1, 3);
    Small(8);
    Small(4);
    Small(3);
    Small(1);
    EightSteps();
    assert eight.magnitude == 1;
    assert InitialGuess(eight.magnitude) == one;
    assert SqrtSpec(eight) == NewtonLoop(eight, one, ITERATION_LIMIT);
    LoopUnfold(eight, one, ITERATION_LIMIT, four);
    assert !IsEqual(four, one);
    LoopUnfold(eight, four, ITERATION_LIMIT - 1, three);
    assert !IsEqual(three, four);
    Oscillation(49);
  }

  // ---------------------------------------------------------------------
  // Inputs of 2003 digits or more give +∞

  /** The guess for a magnitude of 2003 or more is 1000^1001 + 1 or larger, which overflows. */
  lemma HugeGuess(m: nat)
    requires m >= 2003
    ensures InitialGuess(m) == POS_INF
  {
    var gm := (m + 1) / 2;
    GuessAtLeast(gm, MAX_SUPPORTED_MAGNITUDE);
    FromValAtLeast(1, GuessValue(gm), MAX_SUPPORTED_MAGNITUDE);
  }

  /** A guess of 1002 blocks or more reaches 10^3003. */
  lemma GuessAtLeast(gm: nat, k: nat)
    requires gm >= 1002 && k == MAX_SUPPORTED_MAGNITUDE
    ensures GuessValue(gm) >= Pow10(k)
  {
    Pow1000IsPow10(gm - 1);
    Pow10Mono(k, 3 * (gm - 1));
  }

  /**
   * sqrt as written gives +∞ for every positive number of 2003 digits or
   * more: the initial guess itself saturates, and +∞ is a fixed point of
   * the step.
   */
  lemma SqrtHuge(num: Num)
    requires Valid(num) && num.Finite? && num.sign > 0 && num.magnitude >= 2003
    ensures SqrtSpec(num) == Ok(POS_INF)
  {
    ValidFacts(num);
    assert !IsZeroBlocks(num);
    HugeGuess(num.magnitude);
    LoopAtInfinity(num, ITERATION_LIMIT);
  }

  /** The integer square root of 10^(2j) is 10^j. */
  lemma PowerOfTenRoot(j: nat)
    ensures IsIsqrt(Pow10(2 * j), Pow10(j))
  {
    var r: int := Pow10(j);
    Pow10Add(j, j);
    assert r * r == Pow10(2 * j);
    assert (r + 1) * (r + 1) == r * r + 2 * r + 1;
  }

  /** 10^2002, a number of 2003 digits: sqrt gives +∞ where the integer square root is 10^1001. */
  lemma HugeWitness(k: nat, p: nat)
    requires k == 2002 && p == Pow10(k)
    ensures FromVal(1, p).Finite? && Valid(FromVal(1, p)) && FromVal(1, p).magnitude == k + 1
    ensures SqrtSpec(FromVal(1, p)) == Ok(POS_INF)
    ensures IsIsqrt(p, Pow10(k / 2))
  {
    NumDigitsAtMost(p, k + 1);
    NumDigitsAtMost(p, k);
    Pow10Mono(k + 1, MAX_SUPPORTED_MAGNITUDE);
    FromValFacts(1, p);
    SqrtHuge(FromVal(1, p));
    PowerOfTenRoot(k / 2);
  }

  // ---------------------------------------------------------------------
  // The integer square root, corrected

  lemma FitsAbs(z: int, n: nat)
    requires Abs(z) <= n && FromVal(1, n).Finite?
    ensures !Overflows(z) && FromInt(z, 1).Finite? && Valid(FromInt(z, 1)) && Value(FromInt(z, 1)) == z
  {
    FromValFacts(1, n);
    NumDigitsAtMost(n, MAX_SUPPORTED_MAGNITUDE);
    NumDigitsMono(Abs(z), n);
    FromIntFacts(z, 1);
  }

  /** subtract of two canonical numbers no larger than n. */
  lemma DiffBelow(v: nat, q: nat, n: nat)
    requires v <= n && q <= n && FromVal(1, n).Finite?
    ensures Valid(FromVal(1, v)) && Valid(FromVal(1, q)) && WellFormed(FromVal(1, v)) && WellFormed(FromVal(1, q))
    ensures SubSpec(FromVal(1, v), FromVal(1, q)) == Ok(FromInt(v as int - q, 1))
    ensures FromInt(v as int - q, 1).Finite? && Valid(FromInt(v as int - q, 1)) && Value(FromInt(v as int - q, 1)) == v as int - q
  {
    var a, b := FromVal(1, v), FromVal(1, q);
    FitsBelow(v, n);
    FitsBelow(q, n);
    FromValFacts(1, v);
    FromValFacts(1, q);
    ValidWellFormed(a);
    ValidWellFormed(b);
    assert Value(a) == v && Value(b) == q by {
      assert a.sign == 1 && b.sign == 1;
    }
    assert SubSpec(a, b) == Ok(FromInt(v as int - q, 1));
    FitsAbs(v as int - q, n);
  }

  /** divide by two of a canonical number no larger than n in absolute value: the floor half. */
  lemma HalfBelow(d: int, n: nat)
    requires Abs(d) <= n && FromVal(1, n).Finite?
    ensures Valid(FromInt(d, 1)) && Valid(TWO)
    ensures DivSpec(FromInt(d, 1), TWO) == Ok(FromInt(d / 2, 1))
    ensures FromInt(d / 2, 1).Finite? && Valid(FromInt(d / 2, 1)) && WellFormed(FromInt(d / 2, 1))
    ensures Value(FromInt(d / 2, 1)) == d / 2
  {
    FitsAbs(d, n);
    TwoFacts();
    FitsAbs(d / 2, n);
    FromIntFacts(d / 2, 1);
  }

  /** add of a canonical quotient and a half difference whose sum is non-negative and no larger than n. */
  lemma SumBelow(q: nat, h: int, n: nat)
    requires q <= n && Abs(h) <= n && 0 <= q + h <= n && FromVal(1, n).Finite?
    ensures Valid(FromVal(1, q)) && Valid(FromInt(h, 1))
    ensures AddSpec(FromVal(1, q), FromInt(h, 1)) == Ok(FromVal(1, q + h))
    ensures FromVal(1, q + h).Finite?
  {
    FitsBelow(q, n);
    FromValFacts(1, q);
    FitsAbs(h, n);
    FitsBelow(q + h, n);
  }

  /** (x + q) // 2 == q + (x - q) // 2, so the step never needs x + q itself. */
  lemma HalfSplit(x: int, q: int)
    ensures (x + q) / 2 == q + (x - q) / 2
  {
  }

  /** The values one round of the corrected loop goes through, for a guess 1 <= v <= n. */
  lemma RoundValues(n: nat, v: nat)
    requires 1 <= v <= n && FromVal(1, n).Finite?
    ensures Valid(FromVal(1, n)) && Valid(FromVal(1, v)) && Valid(FromVal(1, n / v)) && Valid(TWO)
    ensures WellFormed(FromVal(1, v)) && WellFormed(FromVal(1, n / v))
    ensures Valid(FromInt(v as int - n / v, 1)) && Valid(FromInt((v as int - n / v) / 2, 1))
    ensures WellFormed(FromInt((v as int - n / v) / 2, 1))
    ensures DivSpec(FromVal(1, n), FromVal(1, v)) == Ok(FromVal(1, n / v))
    ensures SubSpec(FromVal(1, v), FromVal(1, n / v)) == Ok(FromInt(v as int - n / v, 1))
    ensures DivSpec(FromInt(v as int - n / v, 1), TWO) == Ok(FromInt((v as int - n / v) / 2, 1))
    ensures AddSpec(FromVal(1, n / v), FromInt((v as int - n / v) / 2, 1)) == Ok(FromVal(1, Newton(n, v)))
    ensures FromVal(1, Newton(n, v)).Finite?
  {
    FitsBelow(v, n);
    QuotientRange(n, v);
    var qv := n / v;
    DivFromVal(n, v, qv);
    DiffBelow(v, qv, n);
    HalfBelow(v as int - qv, n);
    var h := (v as int - qv) / 2;
    var sum: nat := qv + h;
    assert sum == Newton(n, v) by {
      HalfSplit(v, qv);
    }
    SumBelow(qv, h, n);
  }

  /**
   * One round of the corrected loop, q = num // x and then q + (x - q) // 2:
   * the integer step, computed without forming a value larger than num.
   */
  method ExactRound(num: Num, x: Num, two: Num) returns (y: Num)
    requires PositiveNum(num) && Guess(x) && x.Finite? && Val(x.blocks) <= Val(num.blocks) && two == TWO
    ensures y.Finite? && y == FromVal(1, Newton(Val(num.blocks), Val(x.blocks)))
    ensures Valid(y) && y.sign == 1 && Val(y.blocks) == Newton(Val(num.blocks), Val(x.blocks))
  {
    ghost var n, v := Val(num.blocks), Val(x.blocks);
    assert num == FromVal(1, n) && x == FromVal(1, v);
    ValidFits(num);
    RoundValues(n, v);
    var q := Divide(num, x);
    var d := Subtract(x, q.value);
    var h := Divide(d.value, two);
    var s := Add(q.value, h.value);
    y := s.value;
    FromValFacts(1, Newton(n, v));
  }

  lemma SquareAbove(n: nat)
    ensures n < (n + 1) * (n + 1)
  {
    MulLe(1, n + 1, n + 1);
  }

  /**
   * The integer square root as sqrt evidently intends it: the same guards,
   * then Newton's step from num itself, stopping as soon as a step does not
   * go down.  Every guess stays at or above the root, so the first step that
   * does not go down starts from the root.
   */
  method SqrtExact(num: Num) returns (r: Result<Num>)
    requires Valid(num)
    ensures num.Inf? || num.sign < 0 || IsZeroBlocks(num) ==> r == SqrtSpec(num)
    ensures num.Finite? && num.sign > 0 && !IsZeroBlocks(num) ==>
      r.Ok? && r.value.Finite? && Valid(r.value) && r.value.sign == 1 && IsIsqrt(Val(num.blocks), Val(r.value.blocks))
  {
    if num.Inf? {
      if num.sign > 0 {
        r := Ok(num);
      } else {
        r := Err(SqrtOfNegativeInfinity);
      }
      return;
    }
    if num.sign < 0 {
      r := Err(SqrtOfNegative);
      return;
    }
    if IsZeroBlocks(num) {
      r := Ok(num);
      return;
    }
    SingleBlock(2);
    var two := Normalize(1, [2], None);
    var x := Descend(num, two);
    r := Ok(x);
  }

  /** Two finite guesses compare by their values, which are their block values. */
  lemma PositivePair(a: Num, b: Num)
    requires Guess(a) && Guess(b) && a.Finite? && b.Finite?
    ensures Comparable(a, b) && Value(a) == Val(a.blocks) && Value(b) == Val(b.blocks)
  {
    assert a.sign == 1 && b.sign == 1;
  }

  /** The corrected loop: from num itself, step down while the step goes down. */
  method Descend(num: Num, two: Num) returns (x: Num)
    requires PositiveNum(num) && two == TWO
    ensures Guess(x) && x.Finite? && IsIsqrt(Val(num.blocks), Val(x.blocks))
  {
    ghost var n := Val(num.blocks);
    NonzeroDivisor(num);
    SquareAbove(n);
    x := num;
    while true
      invariant Above(n, x) && x.Finite? && Val(x.blocks) <= n
      decreases Val(x.blocks)
    {
      var y := ExactRound(num, x, two);
      ghost var v := Val(x.blocks);
      NewtonPositive(n, v);
      NewtonAbove(n, v);
      assert Above(n, y);
      PositivePair(y, x);
      if IsGreaterOrEqual(y, x) {
        NewtonExit(n, v);
        return;
      }
      x := y;
    }
  }
}
