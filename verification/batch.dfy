/**
 * batch_add and batch_multiply: fold add (or multiply) over a list from its
 * first element, returning the first infinite running result at once.  An
 * empty list gives +0 (or 1).
 */
module Batch {
  import opened Numbers
  import opened Arithmetic
  import opened Remainder
  import opened Divisors

  /** Every element is a valid finite number. */
  predicate AllFinite(ns: seq<Num>)
  {
    forall i :: 0 <= i < |ns| ==> Valid(ns[i]) && ns[i].Finite?
  }

  /** Every element is valid. */
  predicate AllValid(ns: seq<Num>)
  {
    forall i :: 0 <= i < |ns| ==> Valid(ns[i])
  }

  // ---------------------------------------------------------------------
  // batch_add

  /** The sum of the values. */
  function ValueSum(ns: seq<Num>): int
    requires AllFinite(ns)
    decreases |ns|
  {
    if |ns| == 0 then 0 else Value(ns[0]) + ValueSum(ns[1..])
  }

  /** Every running total x + ns[0] + ... + ns[k] fits in a finite number. */
  predicate SumsFit(x: int, ns: seq<Num>)
    requires AllFinite(ns)
    decreases |ns|
  {
    |ns| == 0 || (!Overflows(x + Value(ns[0])) && SumsFit(x + Value(ns[0]), ns[1..]))
  }

  /** The loop of batch_add from the running result acc over the rest of the list. */
  function AddFold(acc: Num, rest: seq<Num>): Result<Num>
    decreases |rest|
  {
    if |rest| == 0 then Ok(acc)
    else match AddSpec(acc, rest[0])
      case Err(e) => Err(e)
      case Ok(r) => if r.Inf? then Ok(r) else AddFold(r, rest[1..])
  }

  /** What batch_add gives. */
  function BatchAddSpec(ns: seq<Num>): Result<Num>
  {
    if |ns| == 0 then Ok(FromVal(1, 0)) else AddFold(ns[0], ns[1..])
  }

  /**
   * Folding add over finite numbers never fails; the result is finite
   * exactly when every running total fits, and then it holds the sum.
   */
  lemma {:induction false} AddFoldValue(acc: Num, rest: seq<Num>)
    requires Valid(acc) && acc.Finite? && AllFinite(rest)
    ensures AddFold(acc, rest).Ok? && Valid(AddFold(acc, rest).value)
    ensures AddFold(acc, rest).value.Finite? <==> SumsFit(Value(acc), rest)
    ensures AddFold(acc, rest).value.Finite? ==> Value(AddFold(acc, rest).value) == Value(acc) + ValueSum(rest)
    decreases |rest|
  {
    if |rest| > 0 {
      var x := Value(acc) + Value(rest[0]);
      FromIntFacts(x, acc.sign);
      var r := FromInt(x, acc.sign);
      assert AddSpec(acc, rest[0]) == Ok(r);
      if r.Finite? {
        assert AllFinite(rest[1..]);
        AddFoldValue(r, rest[1..]);
      }
    }
  }

  /** On a nonempty list of finite numbers, batch_add is the sum whenever every running total fits, and ∞ otherwise. */
  lemma BatchAddValue(ns: seq<Num>)
    requires |ns| >= 1 && AllFinite(ns)
    ensures BatchAddSpec(ns).Ok? && Valid(BatchAddSpec(ns).value)
    ensures BatchAddSpec(ns).value.Finite? <==> SumsFit(Value(ns[0]), ns[1..])
    ensures BatchAddSpec(ns).value.Finite? ==> Value(BatchAddSpec(ns).value) == ValueSum(ns)
  {
    assert AllFinite(ns[1..]);
    AddFoldValue(ns[0], ns[1..]);
  }

  /** Every element has its blocks below 1000, as add requires. */
  predicate AllWellFormed(ns: seq<Num>)
  {
    forall i :: 0 <= i < |ns| ==> WellFormed(ns[i])
  }

  /**
   * batch_add(numbers).  Any list of numbers with blocks below 1000 is
   * accepted; the fold is stated for canonical elements, as add's sum is.
   */
  method BatchAdd(ns: seq<Num>) returns (r: Result<Num>)
    requires AllWellFormed(ns)
    ensures r.Ok? ==> WellFormed(r.value)
    ensures AllValid(ns) ==> r == BatchAddSpec(ns)
  {
    if |ns| == 0 {
      r := Ok(FromVal(1, 0));
      FromValFacts(1, 0);
      ValidWellFormed(r.value);
      return;
    }
    var result := ns[0];
    for i := 1 to |ns|
      invariant WellFormed(result)
      invariant AllValid(ns) ==> Valid(result) && AddFold(result, ns[i..]) == BatchAddSpec(ns)
    {
      assert ns[i..][0] == ns[i] && ns[i..][1..] == ns[i + 1..];
      var s := Add(result, ns[i]);
      if s.Err? {
        r := s;
        return;
      }
      if AllValid(ns) {
        AddValid(result, ns[i]);
      }
      if s.value.Inf? {
        r := s;
        return;
      }
      result := s.value;
    }
    r := Ok(result);
  }

  // ---------------------------------------------------------------------
  // batch_multiply

  /** The product of the values. */
  function ValueProduct(ns: seq<Num>): int
    requires AllFinite(ns)
    decreases |ns|
  {
    if |ns| == 0 then 1 else Value(ns[0]) * ValueProduct(ns[1..])
  }

  /** Every running product x * ns[0] * ... * ns[k] fits in a finite number. */
  predicate ProductsFit(x: int, ns: seq<Num>)
    requires AllFinite(ns)
    decreases |ns|
  {
    |ns| == 0 || (!Overflows(x * Value(ns[0])) && ProductsFit(x * Value(ns[0]), ns[1..]))
  }

  /** The loop of batch_multiply from the running result acc over the rest of the list. */
  function MulFold(acc: Num, rest: seq<Num>): Result<Num>
    decreases |rest|
  {
    if |rest| == 0 then Ok(acc)
    else match MulSpec(acc, rest[0])
      case Err(e) => Err(e)
      case Ok(r) => if r.Inf? then Ok(r) else MulFold(r, rest[1..])
  }

  /** What batch_multiply gives. */
  function BatchMulSpec(ns: seq<Num>): Result<Num>
  {
    if |ns| == 0 then Ok(FromVal(1, 1)) else MulFold(ns[0], ns[1..])
  }

  lemma MulAssoc(a: int, b: int, c: int)
    ensures (a * b) * c == a * (b * c)
  {
  }

  /**
   * Folding multiply over finite numbers never fails; the result is finite
   * exactly when every running product fits, and then it holds the product.
   */
  lemma {:induction false} MulFoldValue(acc: Num, rest: seq<Num>)
    requires Valid(acc) && acc.Finite? && AllFinite(rest)
    ensures MulFold(acc, rest).Ok? && Valid(MulFold(acc, rest).value)
    ensures MulFold(acc, rest).value.Finite? <==> ProductsFit(Value(acc), rest)
    ensures MulFold(acc, rest).value.Finite? ==> Value(MulFold(acc, rest).value) == Value(acc) * ValueProduct(rest)
    decreases |rest|
  {
    if |rest| > 0 {
      var x := Value(acc) * Value(rest[0]);
      MulValue(acc, rest[0]);
      FromIntFacts(x, 1);
      var r := FromInt(x, 1);
      if r.Finite? {
        assert AllFinite(rest[1..]);
        MulFoldValue(r, rest[1..]);
        MulAssoc(Value(acc), Value(rest[0]), ValueProduct(rest[1..]));
      }
    }
  }

  /** On a nonempty list of finite numbers, batch_multiply is the product whenever every running product fits, and ∞ otherwise. */
  lemma BatchMulValue(ns: seq<Num>)
    requires |ns| >= 1 && AllFinite(ns)
    ensures BatchMulSpec(ns).Ok? && Valid(BatchMulSpec(ns).value)
    ensures BatchMulSpec(ns).value.Finite? <==> ProductsFit(Value(ns[0]), ns[1..])
    ensures BatchMulSpec(ns).value.Finite? ==> Value(BatchMulSpec(ns).value) == ValueProduct(ns)
  {
    assert AllFinite(ns[1..]);
    MulFoldValue(ns[0], ns[1..]);
  }

  /** batch_multiply(numbers). */
  method BatchMultiply(ns: seq<Num>) returns (r: Result<Num>)
    ensures r == BatchMulSpec(ns)
  {
    if |ns| == 0 {
      r := Ok(FromVal(1, 1));
      return;
    }
    var result := ns[0];
    for i := 1 to |ns|
      invariant MulFold(result, ns[i..]) == BatchMulSpec(ns)
    {
      assert ns[i..][0] == ns[i] && ns[i..][1..] == ns[i + 1..];
      var p := Multiply(result, ns[i]);
      if p.Err? {
        r := p;
        return;
      }
      if p.value.Inf? {
        r := p;
        return;
      }
      result := p.value;
    }
    r := Ok(result);
  }
}
