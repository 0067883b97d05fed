/**
 * compare and its boolean wrappers.  compare first settles infinities, then
 * signs, then magnitudes and block counts, and finally scans the blocks from
 * the most significant end; on the numbers the library produces this is the
 * integer order, except that a zero carrying sign -1 sorts below +0.
 */
module Comparison {
  import opened Numbers

  /** Three-way integer comparison, the reference order. */
  function Cmp(x: int, y: int): int
  {
    if x > y then 1 else if x < y then -1 else 0
  }

  /** The read-only scan of compare: the first differing block among bs[..i], from the top. */
  function ScanDown(a: seq<nat>, b: seq<nat>, i: nat): (r: int)
    requires i <= |a| && i <= |b|
    ensures r == -1 || r == 0 || r == 1
    decreases i
  {
    if i == 0 then 0
    else if a[i - 1] != b[i - 1] then (if a[i - 1] > b[i - 1] then 1 else -1)
    else ScanDown(a, b, i - 1)
  }

  /** compare(a, b): 1, 0 or -1. */
  function Compare(a: Num, b: Num): (r: int)
    ensures r == -1 || r == 0 || r == 1
  {
    if a.Inf? || b.Inf? then
      if a.Inf? && b.Inf? then
        (if a.sign == b.sign then 0 else if a.sign > b.sign then 1 else -1)
      else if a.Inf? then (if a.sign > 0 then 1 else -1)
      else (if b.sign > 0 then -1 else 1)
    else if a.sign != b.sign then (if a.sign > b.sign then 1 else -1)
    else if a.magnitude != b.magnitude then (if a.magnitude > b.magnitude then 1 else -1) * a.sign
    else if |a.blocks| != |b.blocks| then (if |a.blocks| > |b.blocks| then 1 else -1) * a.sign
    else ScanDown(a.blocks, b.blocks, |a.blocks|) * a.sign
  }

  lemma {:induction false} ScanDownAntisymmetric(a: seq<nat>, b: seq<nat>, i: nat)
    requires i <= |a| && i <= |b|
    ensures ScanDown(a, b, i) == -ScanDown(b, a, i)
    decreases i
  {
    if i > 0 && a[i - 1] == b[i - 1] {
      ScanDownAntisymmetric(a, b, i - 1);
    }
  }

  /** compare is antisymmetric on every pair of numbers. */
  lemma CompareAntisymmetric(a: Num, b: Num)
    ensures Compare(a, b) == -Compare(b, a)
  {
    if a.Finite? && b.Finite? && |a.blocks| == |b.blocks| {
      ScanDownAntisymmetric(a.blocks, b.blocks, |a.blocks|);
    }
  }

  /** +∞ is above every finite number and -∞ below; infinities order by sign. */
  lemma CompareInfinities(a: Num, b: Num)
    ensures a.Inf? && b.Finite? ==> Compare(a, b) == a.sign
    ensures a.Finite? && b.Inf? ==> Compare(a, b) + b.sign == 0
    ensures a.Inf? && b.Inf? ==> Compare(a, b) == Cmp(a.sign, b.sign)
  {
  }

  /** A higher top block outweighs anything below it. */
  lemma TopBlockDecides(ra: nat, rb: nat, x: nat, y: nat, p: nat)
    requires ra < p && rb < p && x > y
    ensures ra + x * p > rb + y * p
  {
    MulLe(y + 1, x, p);
  }

  /** On base-1000 blocks of equal length the scan is the order of the values of bs[..i]. */
  lemma {:induction false} ScanDownIsOrder(a: seq<nat>, b: seq<nat>, i: nat)
    requires AllSmall(a) && AllSmall(b) && |a| == |b| && i <= |a|
    ensures ScanDown(a, b, i) == Cmp(Val(a[..i]), Val(b[..i]))
    decreases i
  {
    if i > 0 {
      var a', b' := a[..i - 1], b[..i - 1];
      assert a[..i][..i - 1] == a' && b[..i][..i - 1] == b';
      assert AllSmall(a') && AllSmall(b');
      ValBound(a');
      ValBound(b');
      var p := Pow1000(i - 1);
      assert Val(a[..i]) == Val(a') + a[i - 1] * p;
      assert Val(b[..i]) == Val(b') + b[i - 1] * p;
      if a[i - 1] > b[i - 1] {
        TopBlockDecides(Val(a'), Val(b'), a[i - 1], b[i - 1], p);
      } else if a[i - 1] < b[i - 1] {
        TopBlockDecides(Val(b'), Val(a'), b[i - 1], a[i - 1], p);
      } else {
        ScanDownIsOrder(a, b, i - 1);
      }
    }
  }

  lemma CmpScaled(x: int, y: int, s: Sign)
    ensures Cmp(s * x, s * y) == s * Cmp(x, y)
  {
  }

  /** Opposite signs: the positive one is larger unless both are zero. */
  lemma CompareMixedSigns(a: Num, b: Num)
    requires Valid(a) && Valid(b) && a.Finite? && b.Finite? && a.sign != b.sign
    requires !(IsZeroBlocks(a) && IsZeroBlocks(b))
    ensures Compare(a, b) == Cmp(Value(a), Value(b))
  {
    ValidFacts(a);
    ValidFacts(b);
    var x: int, y: int := Val(a.blocks), Val(b.blocks);
    assert x != 0 || y != 0;
    if a.sign == 1 {
      assert Value(a) == x && Value(b) == -y;
    } else {
      assert Value(a) == -x && Value(b) == y;
    }
  }

  /** Different digit counts: the longer value is the larger. */
  lemma MagnitudeDecides(a: Num, b: Num)
    requires Valid(a) && Valid(b) && a.Finite? && b.Finite? && a.magnitude != b.magnitude
    ensures (a.magnitude > b.magnitude) == (Val(a.blocks) > Val(b.blocks))
    ensures Val(a.blocks) != Val(b.blocks)
  {
    ValidFacts(a);
    ValidFacts(b);
    var x, y := Val(a.blocks), Val(b.blocks);
    if x <= y { NumDigitsMono(x, y); }
    if y <= x { NumDigitsMono(y, x); }
  }

  /** Equal digit counts: the block scan is the order of the values. */
  lemma ScanDecides(a: Num, b: Num)
    requires Valid(a) && Valid(b) && a.Finite? && b.Finite? && a.magnitude == b.magnitude
    ensures |a.blocks| == |b.blocks|
    ensures ScanDown(a.blocks, b.blocks, |a.blocks|) == Cmp(Val(a.blocks), Val(b.blocks))
  {
    var x, y := a.blocks, b.blocks;
    assert AllSmall(x) && AllSmall(y) && |x| == |y| by {
      ValidFacts(a);
      ValidFacts(b);
    }
    ScanDownIsOrder(x, y, |x|);
    assert x[..|x|] == x;
    assert y[..|x|] == y;
  }

  /** Equal signs, unsigned: magnitudes, then the block scan, decide as the block values do. */
  lemma CompareUnsigned(a: Num, b: Num)
    requires Valid(a) && Valid(b) && a.Finite? && b.Finite? && a.sign == b.sign
    ensures Compare(a, b) == a.sign * Cmp(Val(a.blocks), Val(b.blocks))
  {
    if a.magnitude != b.magnitude {
      MagnitudeDecides(a, b);
    } else {
      ScanDecides(a, b);
    }
  }

  /** Equal signs: compare is the order of the values. */
  lemma CompareSameSign(a: Num, b: Num)
    requires Valid(a) && Valid(b) && a.Finite? && b.Finite? && a.sign == b.sign
    ensures Compare(a, b) == Cmp(Value(a), Value(b))
  {
    CompareUnsigned(a, b);
    CmpScaled(Val(a.blocks), Val(b.blocks), a.sign);
  }

  /**
   * On valid finite numbers compare is the integer order of their values,
   * except for two zeros of opposite sign, which order by sign (-0 below +0).
   */
  lemma CompareAgrees(a: Num, b: Num)
    ensures Valid(a) && Valid(b) && a.Finite? && b.Finite? && !(IsZeroBlocks(a) && IsZeroBlocks(b) && a.sign != b.sign)
      ==> Compare(a, b) == Cmp(Value(a), Value(b))
    ensures Valid(a) && Valid(b) && IsZeroBlocks(a) && IsZeroBlocks(b) ==> Compare(a, b) == Cmp(a.sign, b.sign)
  {
    if Valid(a) && Valid(b) && a.Finite? && b.Finite? {
      if a.sign == b.sign {
        CompareSameSign(a, b);
      } else if !(IsZeroBlocks(a) && IsZeroBlocks(b)) {
        CompareMixedSigns(a, b);
      }
    }
  }

  /** The numbers compare orders like integers: valid, finite, and not -0 against +0. */
  predicate Comparable(a: Num, b: Num)
  {
    Valid(a) && Valid(b) && a.Finite? && b.Finite? && !(IsZeroBlocks(a) && IsZeroBlocks(b) && a.sign != b.sign)
  }

  /** is_greater */
  function IsGreater(a: Num, b: Num): (r: bool)
    ensures Comparable(a, b) ==> (r <==> Value(a) > Value(b))
  {
    CompareAgrees(a, b);
    Compare(a, b) == 1
  }

  /** is_lesser */
  function IsLesser(a: Num, b: Num): (r: bool)
    ensures Comparable(a, b) ==> (r <==> Value(a) < Value(b))
  {
    CompareAgrees(a, b);
    Compare(a, b) == -1
  }

  /** is_equal */
  function IsEqual(a: Num, b: Num): (r: bool)
    ensures Comparable(a, b) ==> (r <==> Value(a) == Value(b))
    ensures Valid(a) && Valid(b) ==> (r <==> a == b)
  {
    CompareAgrees(a, b);
    EqualIffSame(a, b);
    Compare(a, b) == 0
  }

  /** is_greater_than_or_equal */
  function IsGreaterOrEqual(a: Num, b: Num): (r: bool)
    ensures Comparable(a, b) ==> (r <==> Value(a) >= Value(b))
  {
    CompareAgrees(a, b);
    Compare(a, b) >= 0
  }

  /** is_lesser_than_or_equal */
  function IsLesserOrEqual(a: Num, b: Num): (r: bool)
    ensures Comparable(a, b) ==> (r <==> Value(a) <= Value(b))
  {
    CompareAgrees(a, b);
    Compare(a, b) <= 0
  }

  /** On valid numbers compare answers 0 exactly for identical numbers. */
  lemma EqualIffSame(a: Num, b: Num)
    ensures Valid(a) && Valid(b) ==> (Compare(a, b) == 0 <==> a == b)
  {
    if Valid(a) && Valid(b) && a.Finite? && b.Finite? {
      if a.sign == b.sign {
        CompareSameSign(a, b);
        if Val(a.blocks) == Val(b.blocks) {
          assert a == FromVal(a.sign, Val(a.blocks)) == b;
        }
      } else {
        ValidFacts(a);
        ValidFacts(b);
      }
    }
  }
}
