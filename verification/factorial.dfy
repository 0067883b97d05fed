/**
 * factorial.  Either infinity gives +∞, a negative sign (even on a zero)
 * raises, an argument above 1000 gives +∞, 0 and 1 give 1, and otherwise
 * the running product is multiplied by 2, 3, ..., n, stopping at the first
 * infinite product.  Since 1000! has fewer than 3003 digits, that stop is
 * never taken.
 */
module Factorials {
  import opened Numbers
  import opened Normalization
  import opened Arithmetic
  import opened Division
  import opened Remainder

  /** Arguments above this give +∞. */
  const FACTORIAL_CAP: nat := 1000

  /** n! */
  function Fact(n: nat): nat
    decreases n
  {
    if n == 0 then 1 else n * Fact(n - 1)
  }

  /** The number 1, as normalize_number builds it from [1]. */
  const ONE: Num := FromVal(1, 1)

  /**
   * The loop of factorial as the code runs it: count more rounds of
   * result := result * current (returned at once if infinite) and
   * current := current + 1.
   */
  function FactLoop(result: Num, current: Num, count: nat): Result<Num>
    decreases count
  {
    if count == 0 then Ok(result)
    else match MulSpec(result, current)
      case Err(e) => Err(e)
      case Ok(m) =>
        if m.Inf? then Ok(m)
        else match AddSpec(current, ONE)
          case Err(e) => Err(e)
          case Ok(c) => FactLoop(m, c, count - 1)
  }

  /** One round of the loop, unfolded, when the product is finite. */
  lemma FactUnfold(result: Num, current: Num, count: nat, m: Num, c: Num)
    requires count > 0 && MulSpec(result, current) == Ok(m) && m.Finite? && AddSpec(current, ONE) == Ok(c)
    ensures FactLoop(result, current, count) == FactLoop(m, c, count - 1)
  {
  }

  /** What factorial gives: the guards in the code's order, then the loop over 2..n. */
  function FactSpec(num: Num): Result<Num>
  {
    if num.Inf? then Ok(POS_INF)
    else if num.sign < 0 then Err(FactorialOfNegative)
    else
      var n := Val(num.blocks);
      if n > FACTORIAL_CAP then Ok(POS_INF)
      else if n <= 1 then Ok(ONE)
      else FactLoop(ONE, FromVal(1, 2), n - 1)
  }

  /** Each factor up to 1000 is at most a block base, so n! <= 1000^n. */
  lemma {:induction false} FactBelowPow1000(n: nat)
    requires n <= FACTORIAL_CAP
    ensures 1 <= Fact(n) <= Pow1000(n)
    decreases n
  {
    if n > 0 {
      FactBelowPow1000(n - 1);
      MulLe(Fact(n - 1), Pow1000(n - 1), n);
      MulLe(n, 1000, Pow1000(n - 1));
      MulLe(1, n, Fact(n - 1));
    }
  }

  /** n! for n up to 1000 is below 10^3000 and so never saturates. */
  lemma FactFits(n: nat)
    requires n <= FACTORIAL_CAP
    ensures FromVal(1, Fact(n)).Finite? && Valid(FromVal(1, Fact(n))) && Val(FromVal(1, Fact(n)).blocks) == Fact(n)
  {
    FactBelowPow1000(n);
    Pow1000IsPow10(n);
    assert Pow10(3 * n + 1) == 10 * Pow10(3 * n);
    Pow10Mono(3 * n + 1, MAX_SUPPORTED_MAGNITUDE);
    FromValFacts(1, Fact(n));
  }

  /** A canonical positive number is its own FromInt form, and multiply on two of them is the product. */
  lemma PositiveProduct(x: nat, y: nat)
    requires x >= 1 && y >= 1
    requires FromVal(1, x).Finite? && FromVal(1, y).Finite? && FromVal(1, x * y).Finite?
    ensures MulSpec(FromVal(1, x), FromVal(1, y)) == Ok(FromVal(1, x * y))
  {
    var a, b := FromVal(1, x), FromVal(1, y);
    assert Valid(a) && Valid(b) && Value(a) == x && Value(b) == y by {
      FromValFacts(1, x);
      FromValFacts(1, y);
    }
    MulValue(a, b);
    assert FromInt(x * y, 1) == FromVal(1, x * y) by {
      NatMul(x, y);
    }
  }

  /** Numbers up to 10000 are canonical finite numbers. */
  lemma SmallFinite(k: nat)
    requires k < 10000
    ensures FromVal(1, k).Finite? && Valid(FromVal(1, k)) && Val(FromVal(1, k).blocks) == k
  {
    assert Pow10(4) == 10000;
    Pow10Mono(4, MAX_SUPPORTED_MAGNITUDE);
    FromValFacts(1, k);
  }

  /** add of a canonical positive number and 1 is its successor. */
  lemma Successor(k: nat)
    requires FromVal(1, k).Finite? && k >= 1
    ensures AddSpec(FromVal(1, k), ONE) == Ok(FromVal(1, k + 1))
  {
    FromValFacts(1, k);
    FromValFacts(1, 1);
  }

  /** One round from (k-1)!, k: the product is k! (finite) and the next factor k + 1. */
  lemma FactStep(k: nat)
    requires 2 <= k <= FACTORIAL_CAP
    ensures MulSpec(FromVal(1, Fact(k - 1)), FromVal(1, k)) == Ok(FromVal(1, Fact(k)))
    ensures FromVal(1, Fact(k)).Finite?
    ensures AddSpec(FromVal(1, k), ONE) == Ok(FromVal(1, k + 1))
  {
    var f := Fact(k - 1);
    assert f * k == Fact(k);
    assert MulSpec(FromVal(1, f), FromVal(1, k)) == Ok(FromVal(1, f * k)) && FromVal(1, f * k).Finite? by {
      FactFits(k - 1);
      FactFits(k);
      FactBelowPow1000(k - 1);
      SmallFinite(k);
      PositiveProduct(f, k);
    }
    assert AddSpec(FromVal(1, k), ONE) == Ok(FromVal(1, k + 1)) by {
      SmallFinite(k);
      Successor(k);
    }
  }

  /** Running the loop from (k-1)!, k for count rounds gives (k-1+count)!. */
  lemma {:induction false} FactLoopValue(k: nat, count: nat)
    requires 2 <= k && k + count <= FACTORIAL_CAP + 1
    ensures FactLoop(FromVal(1, Fact(k - 1)), FromVal(1, k), count) == Ok(FromVal(1, Fact(k - 1 + count)))
    decreases count
  {
    if count > 0 {
      FactStep(k);
      FactUnfold(FromVal(1, Fact(k - 1)), FromVal(1, k), count, FromVal(1, Fact(k)), FromVal(1, k + 1));
      FactLoopValue(k + 1, count - 1);
      assert k + 1 - 1 == k && k + 1 - 1 + (count - 1) == k - 1 + count;
    }
  }

  /** Running the loop from (i-1)!, i up to the factor n gives n!. */
  lemma FactLoopTo(i: nat, n: nat)
    requires 2 <= i <= n <= FACTORIAL_CAP
    ensures FactLoop(FromVal(1, Fact(i - 1)), FromVal(1, i), n + 1 - i) == Ok(FromVal(1, Fact(n)))
  {
    var count := n + 1 - i;
    FactLoopValue(i, count);
    assert i - 1 + count == n;
  }

  /** A loop that stops at the factor i with next has the value of the whole loop. */
  lemma StoppedLoop(i: nat, n: nat, result: Num, current: Num, next: Num)
    requires 2 <= i <= n <= FACTORIAL_CAP
    requires result == FromVal(1, Fact(i - 1)) && current == FromVal(1, i)
    requires FactLoop(result, current, n + 1 - i) == Ok(next)
    ensures FactLoop(ONE, FromVal(1, 2), n - 1) == Ok(next)
  {
    FactLoopTo(i, n);
    FactLoopFromOne(n);
  }

  /** The whole loop, from 1 and the factor 2, gives n!. */
  lemma FactLoopFromOne(n: nat)
    requires 2 <= n <= FACTORIAL_CAP
    ensures FactLoop(ONE, FromVal(1, 2), n - 1) == Ok(FromVal(1, Fact(n)))
  {
    FactLoopTo(2, n);
    assert Fact(1) == 1;
  }

  /** factorial(n) is exactly n! for 0 <= n <= 1000. */
  lemma FactorialValue(num: Num)
    requires Valid(num) && num.Finite? && num.sign == 1 && Val(num.blocks) <= FACTORIAL_CAP
    ensures FactSpec(num) == Ok(FromVal(1, Fact(Val(num.blocks))))
    ensures FromVal(1, Fact(Val(num.blocks))).Finite?
  {
    var n := Val(num.blocks);
    FactFits(n);
    if n >= 2 {
      assert FactSpec(num) == FactLoop(ONE, FromVal(1, 2), n - 1);
      FactLoopFromOne(n);
    } else {
      assert FactSpec(num) == Ok(ONE);
      assert Fact(n) == 1;
    }
  }

  /**
   * One round of the loop of factorial from (i-1)!, i: multiply, stop on an
   * infinite product, step the factor.
   */
  method FactRound(result: Num, current: Num, one: Num, ghost i: nat, ghost rest: nat)
    returns (stop: bool, next: Num, current': Num)
    requires 2 <= i <= FACTORIAL_CAP && result == FromVal(1, Fact(i - 1)) && current == FromVal(1, i)
    requires one == ONE && rest > 0
    ensures stop ==> FactLoop(result, current, rest) == Ok(next)
    ensures !stop ==> next == FromVal(1, Fact(i)) && current' == FromVal(1, i + 1)
  {
    FactFits(i - 1);
    SmallFinite(i);
    var m := Multiply(result, current);
    ProductValid(result, current);
    next := m.value;
    if next.Inf? {
      stop, current' := true, current;
      return;
    }
    stop := false;
    FactStep(i);
    FromValFacts(1, 1);
    ValidWellFormed(current);
    ValidWellFormed(one);
    var c := Add(current, one);
    current' := c.value;
  }

  /** factorial(num), with n read from the number's blocks. */
  method Factorial(num: Num) returns (r: Result<Num>)
    requires Valid(num)
    ensures r == FactSpec(num)
  {
    if num.Inf? {
      r := Ok(POS_INF);
      return;
    }
    if num.sign < 0 {
      r := Err(FactorialOfNegative);
      return;
    }
    var n := Val(num.blocks);
    if n > FACTORIAL_CAP {
      r := Ok(POS_INF);
      return;
    }
    SingleBlock(1);
    SingleBlock(2);
    var one := Normalize(1, [1], None);
    if n <= 1 {
      r := Ok(one);
      return;
    }
    var current := Normalize(1, [2], None);
    r := FactIterate(one, current, n);
  }

  /** The loop of factorial over the factors 2..n. */
  method FactIterate(one: Num, two: Num, n: nat) returns (r: Result<Num>)
    requires one == ONE && two == FromVal(1, 2) && 2 <= n <= FACTORIAL_CAP
    ensures r == FactLoop(ONE, FromVal(1, 2), n - 1)
  {
    var result, current := one, two;
    for i := 2 to n + 1
      invariant result == FromVal(1, Fact(i - 1)) && current == FromVal(1, i)
    {
      var stop, next, current' := FactRound(result, current, one, i, n + 1 - i);
      if stop {
        StoppedLoop(i, n, result, current, next);
        r := Ok(next);
        return;
      }
      result, current := next, current';
    }
    assert result == FromVal(1, Fact(n));
    r := Ok(result);
    FactLoopFromOne(n);
  }
}
