/**
 * normalize_number: the single funnel through which every raw block list
 * becomes a number.  It drops zero blocks from the most-significant end,
 * keeps a magnitude it is given or derives one from the highest nonzero
 * block, and saturates to the signed infinity past MAX_SUPPORTED_MAGNITUDE.
 */
module Normalization {
  import opened Numbers

  /** Drop zero blocks from the most-significant end, keeping at least one block. */
  function Trim(bs: seq<nat>): seq<nat>
  {
    if |bs| > 1 && bs[|bs| - 1] == 0 then Trim(bs[..|bs| - 1]) else bs
  }

  /**
   * The derived magnitude: 3 * i + (decimal digits of bs[i]) for the highest
   * nonzero block i, or 1 when every block is zero.
   */
  function DerivedMagnitude(bs: seq<nat>): nat
  {
    if |bs| == 0 then 1
    else if bs[|bs| - 1] != 0 then 3 * (|bs| - 1) + NumDigits(bs[|bs| - 1])
    else DerivedMagnitude(bs[..|bs| - 1])
  }

  /** normalize_number as a function of (sign, blocks, optional magnitude). */
  function Normalized(sign: Sign, bs: seq<nat>, magnitude: Option<nat>): Num
  {
    var t := Trim(bs);
    var m := if magnitude.Some? then magnitude.value else DerivedMagnitude(t);
    if m > MAX_SUPPORTED_MAGNITUDE then Inf(sign) else Finite(sign, t, m)
  }

  /** Trimming leaves a nonempty prefix of the input with no zero block on top. */
  lemma {:induction false} TrimShape(bs: seq<nat>)
    requires |bs| >= 1
    ensures NoTopZero(Trim(bs))
    ensures |Trim(bs)| <= |bs| && Trim(bs) == bs[..|Trim(bs)|]
    decreases |bs|
  {
    if |bs| > 1 && bs[|bs| - 1] == 0 {
      var s' := bs[..|bs| - 1];
      TrimShape(s');
      assert s'[..|Trim(s')|] == bs[..|Trim(s')|];
    }
  }

  /** Trimming keeps the value and the derived magnitude. */
  lemma {:induction false} TrimKeeps(bs: seq<nat>)
    ensures Val(Trim(bs)) == Val(bs)
    ensures DerivedMagnitude(Trim(bs)) == DerivedMagnitude(bs)
    decreases |bs|
  {
    if |bs| > 1 && bs[|bs| - 1] == 0 {
      var s' := bs[..|bs| - 1];
      TrimKeeps(s');
      assert bs == s' + [0];
      ValAppend(s', 0);
    }
  }

  /** Everything trimming gives: a canonical-shaped prefix with the same value. */
  lemma TrimFacts(bs: seq<nat>)
    requires |bs| >= 1
    ensures NoTopZero(Trim(bs))
    ensures |Trim(bs)| <= |bs| && Trim(bs) == bs[..|Trim(bs)|]
    ensures Val(Trim(bs)) == Val(bs)
    ensures AllSmall(bs) ==> AllSmall(Trim(bs))
    ensures DerivedMagnitude(Trim(bs)) == DerivedMagnitude(bs)
  {
    TrimShape(bs);
    TrimKeeps(bs);
    if AllSmall(bs) {
      forall i | 0 <= i < |Trim(bs)| ensures Trim(bs)[i] < BLOCK_BASE {
        assert Trim(bs)[i] == bs[i];
      }
    }
  }

  /** For canonical blocks the derived magnitude is the decimal digit count of the value. */
  lemma {:induction false} CanonicalMagnitude(bs: seq<nat>)
    requires AllSmall(bs) && NoTopZero(bs)
    ensures DerivedMagnitude(bs) == NumDigits(Val(bs))
    decreases |bs|
  {
    if |bs| == 1 {
      assert bs == [] + [bs[0]];
      ValAppend([], bs[0]);
      assert bs[..0] == [];
    } else {
      var h, t := bs[0], bs[1..];
      assert bs == [h] + t;
      assert AllSmall(t) && NoTopZero(t);
      CanonicalMagnitude(t);
      ValCons(h, t);
      ValTop(t);
      var v := h + 1000 * Val(t);
      assert v >= BLOCK_BASE && v / BLOCK_BASE == Val(t);
      NumDigitsStep(v);
      assert t[|t| - 1] == bs[|bs| - 1];
    }
  }

  /**
   * On blocks below 1000 (with no magnitude given) normalisation yields the
   * canonical number of their value: the trimmed blocks are the canonical
   * blocks, the derived magnitude is the decimal digit count, and more than
   * MAX_SUPPORTED_MAGNITUDE digits give the infinity of the given sign.
   */
  lemma NormalizedIsFromVal(sign: Sign, bs: seq<nat>)
    requires AllSmall(bs) && |bs| >= 1
    ensures Normalized(sign, bs, None) == FromVal(sign, Val(bs))
  {
    TrimFacts(bs);
    var t := Trim(bs);
    ToBlocksOfCanonical(t);
    CanonicalMagnitude(t);
  }

  /** Normalising an already-normalised number changes nothing, whether or not its magnitude is passed. */
  lemma NormalizedIdempotent(n: Num)
    requires Valid(n) && n.Finite?
    ensures Normalized(n.sign, n.blocks, Some(n.magnitude)) == n
    ensures Normalized(n.sign, n.blocks, None) == n
  {
    ValidFacts(n);
    NormalizedIsFromVal(n.sign, n.blocks);
    assert Trim(n.blocks) == n.blocks;
  }

  /**
   * normalize_number on a raw (sign, blocks, magnitude?) record.  The list is
   * copied, popped while its top block is zero, and scanned downwards for the
   * highest nonzero block when no magnitude is given.
   */
  method Normalize(sign: Sign, blocks: seq<nat>, magnitude: Option<nat>) returns (r: Num)
    ensures r == Normalized(sign, blocks, magnitude)
    ensures magnitude.None? && AllSmall(blocks) && |blocks| >= 1 ==> r == FromVal(sign, Val(blocks))
    ensures r.Finite? ==> r.sign == sign && Val(r.blocks) == Val(blocks)
    ensures r.Inf? ==> r.sign == sign
    ensures AllSmall(blocks) ==> WellFormed(r)
  {
    var bs := blocks;
    while |bs| > 1 && bs[|bs| - 1] == 0
      invariant Trim(bs) == Trim(blocks)
      invariant |bs| >= 1 ==> Val(bs) == Val(blocks)
      invariant |bs| == 0 ==> blocks == []
      decreases |bs|
    {
      ValAppend(bs[..|bs| - 1], 0);
      assert bs == bs[..|bs| - 1] + [0];
      bs := bs[..|bs| - 1];
    }
    assert bs == Trim(blocks);
    var m: nat;
    if magnitude.Some? {
      m := magnitude.value;
    } else {
      var firstNonZero: Option<nat> := None;
      var i := |bs|;
      while i > 0
        invariant 0 <= i <= |bs|
        invariant DerivedMagnitude(bs) == DerivedMagnitude(bs[..i])
        invariant firstNonZero.None?
      {
        assert bs[..i][..i - 1] == bs[..i - 1];
        if bs[i - 1] != 0 {
          firstNonZero := Some(i - 1);
          break;
        }
        i := i - 1;
      }
      if firstNonZero.None? {
        assert bs[..i] == [];
        m := 1;
      } else {
        var k := firstNonZero.value;
        assert k == i - 1 && bs[..i][k] == bs[k] != 0;
        m := k * 3 + NumDigits(bs[k]);
      }
      assert m == DerivedMagnitude(bs);
    }
    if m > MAX_SUPPORTED_MAGNITUDE {
      r := Inf(sign);
    } else {
      r := Finite(sign, bs, m);
    }
    if magnitude.None? && AllSmall(blocks) && |blocks| >= 1 {
      NormalizedIsFromVal(sign, blocks);
    }
    if |blocks| == 0 {
      assert Val(blocks) == 0 && bs == [];
    } else if AllSmall(blocks) {
      TrimFacts(blocks);
    }
  }

  /**
   * normalize_number applied to a number that already carries a magnitude
   * (the first step of add and subtract).  An infinity has an infinite
   * magnitude, which exceeds the cap, so it comes back as the infinity of its
   * sign.
   */
  function Norm(n: Num): Num
  {
    if n.Inf? then Inf(n.sign) else Normalized(n.sign, n.blocks, Some(n.magnitude))
  }

  lemma TrimIdempotent(bs: seq<nat>)
    ensures Trim(Trim(bs)) == Trim(bs)
  {
    if |bs| >= 1 {
      TrimShape(bs);
    }
  }

  /** Renormalising changes nothing: the sign is kept, the blocks stay trimmed, valid numbers are fixed points. */
  lemma NormFacts(n: Num)
    ensures Norm(n).sign == n.sign
    ensures Norm(Norm(n)) == Norm(n)
    ensures Valid(n) ==> Norm(n) == n
    ensures WellFormed(n) ==> WellFormed(Norm(n))
    ensures Norm(n).Finite? ==> Val(Norm(n).blocks) == Val(n.blocks)
    ensures Norm(n).Finite? && |n.blocks| >= 1 ==> NoTopZero(Norm(n).blocks)
  {
    if n.Finite? {
      TrimIdempotent(n.blocks);
      TrimKeeps(n.blocks);
      if |n.blocks| >= 1 {
        TrimFacts(n.blocks);
      }
      if Valid(n) {
        NormalizedIdempotent(n);
      }
    }
  }

  /** normalize_number on a number that carries its magnitude. */
  method NormalizeNum(n: Num) returns (r: Num)
    ensures r == Norm(n)
    ensures Valid(n) ==> r == n
  {
    match n
    case Inf(s) =>
      r := Inf(s);
    case Finite(s, bs, m) =>
      r := Normalize(s, bs, Some(m));
      NormFacts(n);
  }
}
