/**
 * The decimal string bridge.  to_decimal_string prints a number: the top
 * block in full, every lower block padded to three digits, leading zeros
 * stripped, and a '-' only in front of a nonzero value.  string_to_number
 * reads one: it drops whitespace and commas, reads a leading '-' and the
 * words inf and infinity, concatenates the digit groups on both sides of a
 * '.', and in scientific notation shifts the digits by the exponent,
 * truncating when they move right of the point.
 */
module Strings {
  import opened Numbers
  import opened Normalization
  import opened Division

  // ---------------------------------------------------------------------
  // Digit strings

  predicate IsDigit(c: char)
  {
    '0' <= c <= '9'
  }

  predicate AllDigits(s: string)
  {
    forall i :: 0 <= i < |s| ==> IsDigit(s[i])
  }

  /** The character of the digit d. */
  function DigitChar(d: nat): (c: char)
    requires d < 10
    ensures IsDigit(c)
  {
    (48 + d) as char
  }

  /** The value of a digit character, 0 for any other character. */
  function DigitOf(c: char): (d: nat)
    ensures d < 10
    ensures IsDigit(c) ==> DigitChar(d) == c
  {
    if IsDigit(c) then c as int - 48 else 0
  }

  /** The number a digit string spells, most significant digit first (int() on ASCII digits). */
  function DigitsVal(s: string): nat
  {
    if |s| == 0 then 0 else DigitsVal(s[..|s| - 1]) * 10 + DigitOf(s[|s| - 1])
  }

  /** str(x): the decimal digits of x without leading zeros. */
  function NatToString(x: nat): string
  {
    if x < 10 then [DigitChar(x)] else NatToString(x / 10) + [DigitChar(x % 10)]
  }

  /** str(x) for an integer. */
  function IntToString(x: int): string
  {
    if x < 0 then "-" + NatToString(-x) else NatToString(x)
  }

  /** re.sub(r'^0+', '', s) */
  function StripZeros(s: string): string
  {
    if |s| > 0 && s[0] == '0' then StripZeros(s[1..]) else s
  }

  /** '0' * k */
  function Zeros(k: nat): string
  {
    seq(k, _ => '0')
  }

  /** f"{b:03d}": b with zeros in front up to three characters (wider numbers are printed whole). */
  function Pad3(b: nat): string
  {
    if b >= 100 then NatToString(b) else if b >= 10 then "0" + NatToString(b) else "00" + NatToString(b)
  }

  lemma {:induction false} DigitsConcat(a: string, b: string)
    ensures DigitsVal(a + b) == DigitsVal(a) * Pow10(|b|) + DigitsVal(b)
    decreases |b|
  {
    if |b| == 0 {
      assert a + b == a;
    } else {
      var b' := b[..|b| - 1];
      assert (a + b)[..|a + b| - 1] == a + b';
      DigitsConcat(a, b');
      var x, p, y, d := DigitsVal(a), Pow10(|b'|), DigitsVal(b'), DigitOf(b[|b| - 1]);
      assert DigitsVal(a + b) == (x * p + y) * 10 + d;
      assert DigitsVal(b) == y * 10 + d;
      assert Pow10(|b|) == 10 * p;
      AppendDigitArith(x, p, y, d);
    }
  }

  lemma AppendDigitArith(x: int, p: int, y: int, d: int)
    ensures (x * p + y) * 10 + d == x * (10 * p) + (y * 10 + d)
  {
  }

  /** A digit string of length k spells a number below 10^k. */
  lemma {:induction false} DigitsBound(s: string)
    ensures DigitsVal(s) < Pow10(|s|)
    decreases |s|
  {
    if |s| > 0 {
      DigitsBound(s[..|s| - 1]);
    }
  }

  /** A string of zeros spells 0. */
  lemma {:induction false} ZerosVal(k: nat)
    ensures DigitsVal(Zeros(k)) == 0 && AllDigits(Zeros(k)) && |Zeros(k)| == k
    decreases k
  {
    if k > 0 {
      assert Zeros(k)[..k - 1] == Zeros(k - 1);
      ZerosVal(k - 1);
    }
  }

  /** str(x) is a digit string of NumDigits(x) characters spelling x, with no leading zero unless it is "0". */
  lemma {:induction false} NatToStringFacts(x: nat)
    ensures AllDigits(NatToString(x)) && |NatToString(x)| == NumDigits(x)
    ensures DigitsVal(NatToString(x)) == x
    ensures NatToString(x)[0] != '0' || x == 0
    ensures x == 0 ==> NatToString(x) == "0"
    decreases x
  {
    if x >= 10 {
      var s := NatToString(x / 10);
      NatToStringFacts(x / 10);
      assert NatToString(x)[..|s|] == s;
    }
  }

  /** A digit string whose first digit is not 0 spells a positive number. */
  lemma LeadingDigitPositive(t: string)
    requires AllDigits(t) && |t| >= 1 && t[0] != '0'
    ensures DigitsVal(t) >= 1
  {
    assert t == [t[0]] + t[1..];
    DigitsConcat([t[0]], t[1..]);
    assert [t[0]][..0] == [];
    assert DigitsVal([t[0]]) >= 1;
    MulLe(1, DigitsVal([t[0]]), Pow10(|t| - 1));
  }

  /** A digit string without a leading zero (or the string "0") is str of its own value. */
  lemma {:induction false} ShowParse(t: string)
    requires AllDigits(t) && |t| >= 1 && (t[0] != '0' || |t| == 1)
    ensures NatToString(DigitsVal(t)) == t
    decreases |t|
  {
    var t' := t[..|t| - 1];
    var d := DigitOf(t[|t| - 1]);
    if |t| == 1 {
      assert t' == [];
    } else {
      ShowParse(t');
      LeadingDigitPositive(t');
      var v := DigitsVal(t);
      assert v == DigitsVal(t') * 10 + d;
      assert v / 10 == DigitsVal(t') && v % 10 == d;
      assert t == t' + [t[|t| - 1]];
    }
  }

  /** A digit string without a leading zero has as many characters as its value has digits. */
  lemma DigitCount(t: string)
    requires AllDigits(t) && |t| >= 1 && t[0] != '0'
    ensures NumDigits(DigitsVal(t)) == |t| && DigitsVal(t) >= 1
  {
    ShowParse(t);
    NatToStringFacts(DigitsVal(t));
    LeadingDigitPositive(t);
  }

  /** Stripping leading zeros keeps a suffix with the same value and no leading zero. */
  lemma {:induction false} StripZerosFacts(s: string)
    ensures |StripZeros(s)| <= |s| && StripZeros(s) == s[|s| - |StripZeros(s)|..]
    ensures DigitsVal(StripZeros(s)) == DigitsVal(s)
    ensures |StripZeros(s)| > 0 ==> StripZeros(s)[0] != '0'
    ensures AllDigits(s) ==> AllDigits(StripZeros(s))
    decreases |s|
  {
    if |s| > 0 && s[0] == '0' {
      StripZerosFacts(s[1..]);
      assert s == [s[0]] + s[1..];
      DigitsConcat([s[0]], s[1..]);
      assert [s[0]][..0] == [];
    }
  }

  /** Stripping leading zeros from a digit string leaves str of its value, or nothing for zero. */
  lemma CanonicalDigits(t: string)
    requires AllDigits(t)
    ensures StripZeros(t) == (if DigitsVal(t) == 0 then "" else NatToString(DigitsVal(t)))
  {
    StripZerosFacts(t);
    var r := StripZeros(t);
    if r != "" {
      LeadingDigitPositive(r);
      ShowParse(r);
    }
  }

  // ---------------------------------------------------------------------
  // to_decimal_string

  /** The lower blocks in to_decimal_string's order (highest index first), each padded to three digits. */
  function LowerDigits(bs: seq<nat>): string
  {
    if |bs| == 0 then "" else Pad3(bs[|bs| - 1]) + LowerDigits(bs[..|bs| - 1])
  }

  /** ''.join(parts): the top block in full, then every lower block padded to three digits. */
  function BlockDigits(bs: seq<nat>): string
  {
    if |bs| == 0 then "" else NatToString(bs[|bs| - 1]) + LowerDigits(bs[..|bs| - 1])
  }

  /** to_decimal_string(num) */
  function ToDecimalString(n: Num): string
  {
    if n.Inf? then (if n.sign > 0 then "Infinity" else "-Infinity")
    else if |n.blocks| == 0 then "0"
    else
      var s := StripZeros(BlockDigits(n.blocks));
      if s == "" then "0"
      else if n.sign < 0 && s != "0" then "-" + s
      else s
  }

  /** A block below 1000 pads to three digits that spell it. */
  lemma Pad3Facts(b: nat)
    requires b < BLOCK_BASE
    ensures |Pad3(b)| == 3 && AllDigits(Pad3(b)) && DigitsVal(Pad3(b)) == b
  {
    NatToStringFacts(b);
    var s := NatToString(b);
    if b >= 100 {
      assert NumDigits(b) == 1 + NumDigits(b / 10);
      assert NumDigits(b / 10) == 1 + NumDigits(b / 100);
    } else if b >= 10 {
      assert NumDigits(b) == 1 + NumDigits(b / 10);
      DigitsConcat("0", s);
      assert "0"[..0] == [];
    } else {
      DigitsConcat("00", s);
      assert "00"[..1] == "0" && "0"[..0] == [];
    }
  }

  /** The padded lower blocks are three digits per block and spell the blocks' value. */
  lemma {:induction false} LowerDigitsFacts(bs: seq<nat>)
    requires AllSmall(bs)
    ensures |LowerDigits(bs)| == 3 * |bs| && AllDigits(LowerDigits(bs))
    ensures DigitsVal(LowerDigits(bs)) == Val(bs)
    decreases |bs|
  {
    if |bs| > 0 {
      var init, top := bs[..|bs| - 1], bs[|bs| - 1];
      assert AllSmall(init);
      LowerDigitsFacts(init);
      Pad3Facts(top);
      DigitsConcat(Pad3(top), LowerDigits(init));
      Pow1000IsPow10(|init|);
    }
  }

  /** The joined parts are a digit string spelling the blocks' value. */
  lemma BlockDigitsFacts(bs: seq<nat>)
    requires AllSmall(bs)
    ensures AllDigits(BlockDigits(bs)) && DigitsVal(BlockDigits(bs)) == Val(bs)
  {
    if |bs| > 0 {
      var init, top := bs[..|bs| - 1], bs[|bs| - 1];
      assert AllSmall(init);
      LowerDigitsFacts(init);
      NatToStringFacts(top);
      DigitsConcat(NatToString(top), LowerDigits(init));
      Pow1000IsPow10(|init|);
    }
  }

  /** On a finite number whose blocks are below 1000, to_decimal_string prints str of its value. */
  lemma ToDecimalStringValue(n: Num)
    requires n.Finite? && WellFormed(n) && |n.blocks| >= 1
    ensures ToDecimalString(n) == IntToString(Value(n))
  {
    BlockDigitsFacts(n.blocks);
    CanonicalDigits(BlockDigits(n.blocks));
    NatToStringFacts(Val(n.blocks));
    if n.sign == 1 {
      assert Value(n) == Val(n.blocks);
    } else {
      assert Value(n) == -(Val(n.blocks) as int);
    }
  }

  /**
   * The parts loop of to_decimal_string (and of decode_number): walking the
   * blocks from the most significant down, the top block is appended in full
   * and every other one padded to three digits.
   */
  method JoinBlocks(bs: seq<nat>) returns (s: string)
    ensures s == BlockDigits(bs)
  {
    s := "";
    var k := |bs|;
    while k > 0
      invariant 0 <= k <= |bs|
      invariant k == |bs| ==> s == ""
      invariant k < |bs| ==> s + LowerDigits(bs[..k]) == BlockDigits(bs)
    {
      var i := k - 1;
      LowerDigitsStep(bs, k);
      if i == |bs| - 1 {
        assert bs[..i] == bs[..|bs| - 1];
        s := s + NatToString(bs[i]);
      } else {
        var p, rest := Pad3(bs[i]), LowerDigits(bs[..i]);
        assert (s + p) + rest == s + (p + rest);
        s := s + p;
      }
      k := i;
    }
    assert bs[..0] == [];
  }

  /** The lowest k blocks spell the block k - 1, padded, before the blocks below it. */
  lemma LowerDigitsStep(bs: seq<nat>, k: nat)
    requires 1 <= k <= |bs|
    ensures LowerDigits(bs[..k]) == Pad3(bs[k - 1]) + LowerDigits(bs[..k - 1])
  {
    assert bs[..k][..k - 1] == bs[..k - 1];
  }

  // ---------------------------------------------------------------------
  // string_to_number

  /** What re.sub(r'[\s,]', '', s) removes: ASCII whitespace and the comma. */
  predicate IsSpaceOrComma(c: char)
  {
    c == ',' || 9 <= c as int <= 13 || 28 <= c as int <= 32
  }

  /** re.sub(r'[\s,]', '', s) */
  function Clean(s: string): string
  {
    if |s| == 0 then "" else (if IsSpaceOrComma(s[0]) then "" else [s[0]]) + Clean(s[1..])
  }

  /** ASCII lower case, as str.lower() acts on ASCII letters. */
  function LowerChar(c: char): char
  {
    if 'A' <= c <= 'Z' then (c as int + 32) as char else c
  }

  function Lower(s: string): string
  {
    seq(|s|, i requires 0 <= i < |s| => LowerChar(s[i]))
  }

  /** s.lower() is 'inf' or 'infinity'. */
  predicate IsInfWord(s: string)
  {
    Lower(s) == "inf" || Lower(s) == "infinity"
  }

  /** The index of the first occurrence of a character satisfying the test, or |s|. */
  function FindExponent(s: string): (i: nat)
    ensures i <= |s|
  {
    if |s| == 0 || s[0] == 'e' || s[0] == 'E' then 0 else 1 + FindExponent(s[1..])
  }

  function FindDot(s: string): (i: nat)
    ensures i <= |s|
  {
    if |s| == 0 || s[0] == '.' then 0 else 1 + FindDot(s[1..])
  }

  /** The groups of re.match(r'^(\d*)\.?(\d*)$', s), or ('', '') when it does not match. */
  function SplitDecimal(s: string): (string, string)
  {
    var i := FindDot(s);
    if i == |s| then (if AllDigits(s) then (s, "") else ("", ""))
    else if AllDigits(s[..i]) && AllDigits(s[i + 1..]) then (s[..i], s[i + 1..])
    else ("", "")
  }

  /** int(s) on the exponent: an optional sign then digits; anything else raises ValueError, read as 0.  The 4300-digit limit of int() is not modelled. */
  function ParseExponent(s: string): int
  {
    if |s| >= 2 && (s[0] == '+' || s[0] == '-') && AllDigits(s[1..]) then
      (if s[0] == '-' then -(DigitsVal(s[1..]) as int) else DigitsVal(s[1..]))
    else if |s| >= 1 && AllDigits(s) then DigitsVal(s)
    else 0
  }

  /** The blocks digits_string_to_normalized cuts from a digit string: groups of three from the right. */
  function Chunks(t: string): seq<nat>
    decreases |t|
  {
    if |t| <= 3 then [DigitsVal(t)] else [DigitsVal(t[|t| - 3..])] + Chunks(t[..|t| - 3])
  }

  /** digits_string_to_normalized(s, sgn) */
  function DigitsToNumber(s: string, sgn: Sign): Num
  {
    var t := StripZeros(s);
    if t == "" then Normalized(1, [0], None)
    else if |t| > MAX_SUPPORTED_MAGNITUDE then Inf(sgn)
    else Normalized(sgn, Chunks(t), None)
  }

  /** The digits on both sides of the '.' (whole + fractional). */
  function Mantissa(basePart: string): string
  {
    SplitDecimal(basePart).0 + SplitDecimal(basePart).1
  }

  /** The number of fractional digits. */
  function FractionDigits(basePart: string): nat
  {
    |SplitDecimal(basePart).1|
  }

  /** The scientific-notation branch of string_to_number, on the text before and after the e. */
  function Scientific(basePart: string, expPart: string, sign: Sign): Num
  {
    var combined := Mantissa(basePart);
    var total := ParseExponent(expPart) - FractionDigits(basePart);
    if total < 0 then
      (if -total >= |combined| then Normalized(1, [0], None)
       else DigitsToNumber(combined[..|combined| + total], sign))
    else if |combined| + total > MAX_SUPPORTED_MAGNITUDE then Inf(sign)
    else DigitsToNumber(combined + Zeros(total), sign)
  }

  /** The sign string_to_number reads from the cleaned input. */
  function ReadSign(s0: string): Sign
  {
    if |s0| >= 1 && s0[0] == '-' then -1 else 1
  }

  /** The cleaned input without its leading '-'. */
  function WithoutSign(s0: string): string
  {
    if |s0| >= 1 && s0[0] == '-' then s0[1..] else s0
  }

  /** string_to_number(str_) */
  function StringToNumber(input: string): Num
  {
    var s0 := Clean(input);
    var sign := ReadSign(s0);
    var s := WithoutSign(s0);
    if IsInfWord(s) then Inf(sign)
    else
      var e := FindExponent(s);
      if e < |s| then Scientific(s[..e], s[e + 1..], sign)
      else DigitsToNumber(Mantissa(s), sign)
  }

  // ---------------------------------------------------------------------
  // Facts about reading

  /** The groups of the decimal pattern are digit strings. */
  lemma SplitDecimalDigits(s: string)
    ensures AllDigits(SplitDecimal(s).0) && AllDigits(SplitDecimal(s).1) && AllDigits(Mantissa(s))
  {
  }

  /** A string with nothing to remove is its own cleaned form. */
  lemma {:induction false} CleanKeeps(s: string)
    requires forall i :: 0 <= i < |s| ==> !IsSpaceOrComma(s[i])
    ensures Clean(s) == s
    decreases |s|
  {
    if |s| > 0 {
      CleanKeeps(s[1..]);
      assert s == [s[0]] + s[1..];
    }
  }

  /** A string whose first letter is not an i is no infinity word. */
  lemma NotInfWord(s: string)
    requires |s| >= 1 && LowerChar(s[0]) != 'i'
    ensures !IsInfWord(s)
  {
    assert Lower(s)[0] != 'i';
  }

  /** A digit string has no e, no '.', and is not an infinity word. */
  lemma {:induction false} DigitsPlain(s: string)
    requires AllDigits(s)
    ensures FindExponent(s) == |s| && FindDot(s) == |s| && !IsInfWord(s)
    ensures SplitDecimal(s) == (s, "") && Mantissa(s) == s
    decreases |s|
  {
    if |s| > 0 {
      DigitsPlain(s[1..]);
      assert Lower(s)[0] == s[0];
    }
  }

  /** The cut blocks are below 1000 and spell the digit string's value. */
  lemma {:induction false} ChunksFacts(t: string)
    ensures AllSmall(Chunks(t)) && |Chunks(t)| >= 1 && Val(Chunks(t)) == DigitsVal(t)
    decreases |t|
  {
    if |t| <= 3 {
      ChunkLast(t);
    } else {
      var hi, lo := t[..|t| - 3], t[|t| - 3..];
      var c, l := Chunks(hi), DigitsVal(lo);
      assert Chunks(t) == [l] + c;
      ChunksFacts(hi);
      ChunkLast(lo);
      assert DigitsVal(t) == DigitsVal(hi) * 1000 + l by {
        assert t == hi + lo;
        DigitsConcat(hi, lo);
        assert Pow10(3) == 1000;
      }
      ValCons(l, c);
      SmallCons(l, c);
    }
  }

  /** A digit string of at most three characters is one block. */
  lemma ChunkLast(t: string)
    requires |t| <= 3
    ensures Chunks(t) == [DigitsVal(t)] && DigitsVal(t) < BLOCK_BASE
    ensures AllSmall(Chunks(t)) && Val(Chunks(t)) == DigitsVal(t)
  {
    var v := DigitsVal(t);
    assert v < BLOCK_BASE by {
      DigitsBound(t);
      Pow10Mono(|t|, 3);
      assert Pow10(3) == 1000;
    }
    ValSingle(v);
  }

  /** Putting a block below 1000 in front keeps every block below 1000. */
  lemma SmallCons(l: nat, c: seq<nat>)
    requires l < BLOCK_BASE && AllSmall(c)
    ensures AllSmall([l] + c)
  {
  }

  /** digits_string_to_normalized gives the canonical number of the digits' value; a zero always gets the sign +. */
  lemma DigitsToNumberValue(s: string, sgn: Sign)
    requires AllDigits(s)
    ensures DigitsToNumber(s, sgn) == FromVal(if DigitsVal(s) == 0 then 1 else sgn, DigitsVal(s))
  {
    StripZerosFacts(s);
    var t := StripZeros(s);
    if t == "" {
      NormalizedIsFromVal(1, [0]);
      assert [0] == [] + [0];
      ValAppend([], 0);
    } else {
      DigitCount(t);
      if |t| <= MAX_SUPPORTED_MAGNITUDE {
        ChunksFacts(t);
        NormalizedIsFromVal(sgn, Chunks(t));
      }
    }
  }

  /** No number string_to_number gives is a zero with a minus sign. */
  predicate SignedZeroFree(n: Num)
  {
    n.Finite? && Val(n.blocks) == 0 ==> n.sign == 1
  }

  /** The number digits_string_to_normalized gives is canonical, and its zero is +0. */
  lemma ReadCanonical(s: string, sgn: Sign)
    requires AllDigits(s)
    ensures Valid(DigitsToNumber(s, sgn)) && SignedZeroFree(DigitsToNumber(s, sgn))
  {
    DigitsToNumberValue(s, sgn);
    FromValValid(if DigitsVal(s) == 0 then 1 else sgn, DigitsVal(s));
  }

  /** The scientific branch gives a canonical number, and its zero is +0. */
  lemma ScientificValid(b: string, x: string, sign: Sign)
    ensures Valid(Scientific(b, x, sign)) && SignedZeroFree(Scientific(b, x, sign))
  {
    SplitDecimalDigits(b);
    var combined := Mantissa(b);
    var total := ParseExponent(x) - FractionDigits(b);
    if total < 0 {
      if -total >= |combined| {
        ReadCanonical("", 1);
      } else {
        ReadCanonical(combined[..|combined| + total], sign);
      }
    } else if |combined| + total <= MAX_SUPPORTED_MAGNITUDE {
      ZerosVal(total);
      ReadCanonical(combined + Zeros(total), sign);
    }
  }

  /** Everything string_to_number gives is a canonical number, and its zero is +0. */
  lemma StringToNumberValid(input: string)
    ensures Valid(StringToNumber(input)) && SignedZeroFree(StringToNumber(input))
  {
    var s := WithoutSign(Clean(input));
    var e := FindExponent(s);
    if !IsInfWord(s) {
      if e < |s| {
        ScientificValid(s[..e], s[e + 1..], ReadSign(Clean(input)));
      } else {
        SplitDecimalDigits(s);
        ReadCanonical(Mantissa(s), ReadSign(Clean(input)));
      }
    }
  }

  // ---------------------------------------------------------------------
  // Round trips

  /** Digits and '-' are kept by the cleaning step. */
  lemma CleanKeepsNumeral(d: string, neg: bool)
    requires AllDigits(d)
    ensures Clean((if neg then "-" else "") + d) == (if neg then "-" else "") + d
  {
    var s := (if neg then "-" else "") + d;
    forall i | 0 <= i < |s| ensures !IsSpaceOrComma(s[i]) {
      if !neg || i > 0 {
        assert IsDigit(d[i - (if neg then 1 else 0)]);
      }
    }
    CleanKeeps(s);
  }

  /**
   * A string of digits with an optional leading '-', spaces and commas
   * anywhere, reads as the canonical number of the digits' value; the '-'
   * survives only on a nonzero value.
   */
  lemma ReadPlain(input: string, d: string, neg: bool)
    requires AllDigits(d) && Clean(input) == (if neg then "-" else "") + d
    ensures StringToNumber(input) == FromVal(if neg && DigitsVal(d) != 0 then -1 else 1, DigitsVal(d))
  {
    var s0 := Clean(input);
    if neg {
      assert s0[0] == '-' && s0[1..] == d;
    } else if |d| > 0 {
      assert s0[0] == d[0];
    }
    assert WithoutSign(s0) == d;
    DigitsPlain(d);
    DigitsToNumberValue(d, ReadSign(s0));
  }

  /**
   * Printing what such a string reads as gives its digits without leading
   * zeros, with the '-' only in front of a nonzero value, or the signed
   * Infinity past 3003 significant digits.
   */
  lemma PrintRead(input: string, d: string, neg: bool)
    requires AllDigits(d) && Clean(input) == (if neg then "-" else "") + d
    ensures ToDecimalString(StringToNumber(input)) ==
      (var t := StripZeros(d);
       if |t| > MAX_SUPPORTED_MAGNITUDE then (if neg then "-Infinity" else "Infinity")
       else if t == "" then "0"
       else (if neg then "-" else "") + t)
  {
    ReadPlain(input, d, neg);
    PrintDigits(d, neg);
  }

  /** The number read from the digits d (with a '-' when neg) prints as the stripped digits. */
  lemma PrintDigits(d: string, neg: bool)
    requires AllDigits(d)
    ensures ToDecimalString(FromVal(if neg && DigitsVal(d) != 0 then -1 else 1, DigitsVal(d))) ==
      (var t := StripZeros(d);
       if |t| > MAX_SUPPORTED_MAGNITUDE then (if neg then "-Infinity" else "Infinity")
       else if t == "" then "0"
       else (if neg then "-" else "") + t)
  {
    StripZerosFacts(d);
    var t := StripZeros(d);
    var v := DigitsVal(d);
    var sg: Sign := if neg && v != 0 then -1 else 1;
    FromValFacts(sg, v);
    if t == "" {
      assert v == 0;
      PrintedFinite(FromVal(sg, v));
      NatToStringFacts(0);
    } else {
      assert v == DigitsVal(t) >= 1 && NumDigits(v) == |t| by {
        DigitCount(t);
      }
      if |t| <= MAX_SUPPORTED_MAGNITUDE {
        PrintedStripped(sg, t);
      }
    }
  }

  /** A value spelled by t, short enough to be finite, prints as t with its sign. */
  lemma PrintedStripped(sg: Sign, t: string)
    requires AllDigits(t) && 1 <= |t| <= MAX_SUPPORTED_MAGNITUDE && t[0] != '0'
    ensures ToDecimalString(FromVal(sg, DigitsVal(t))) == (if sg < 0 then "-" else "") + t
  {
    var v := DigitsVal(t);
    DigitCount(t);
    FromValFacts(sg, v);
    NumDigitsAtMost(v, MAX_SUPPORTED_MAGNITUDE);
    var n := FromVal(sg, v);
    assert n.Finite? && Val(n.blocks) == v;
    PrintedFinite(n);
    ShowParse(t);
  }

  /** "Infinity" and "-Infinity" read back as the infinities. */
  lemma ReadInfinity(s: Sign)
    ensures StringToNumber(ToDecimalString(Inf(s))) == Inf(s)
  {
    if s > 0 {
      ReadPositiveInfinity();
    } else {
      ReadNegativeInfinity();
    }
  }

  /** "Infinity" is an infinity word. */
  lemma InfinityWord()
    ensures IsInfWord("Infinity")
  {
    assert Lower("Infinity") == "infinity";
  }

  /** "Infinity" has nothing for Clean to remove. */
  lemma PositiveInfinityClean()
    ensures Clean("Infinity") == "Infinity"
  {
    var w := "Infinity";
    forall i | 0 <= i < |w|
      ensures !IsSpaceOrComma(w[i])
    {
    }
    CleanKeeps(w);
  }

  /** "-Infinity" has nothing for Clean to remove, and without its sign it is "Infinity". */
  lemma NegativeInfinityClean()
    ensures Clean("-Infinity") == "-Infinity" && WithoutSign("-Infinity") == "Infinity"
  {
    var w := "-Infinity";
    forall i | 0 <= i < |w|
      ensures !IsSpaceOrComma(w[i])
    {
    }
    CleanKeeps(w);
    assert w[1..] == "Infinity";
  }

  lemma ReadPositiveInfinity()
    ensures StringToNumber("Infinity") == Inf(1) && ToDecimalString(Inf(1)) == "Infinity"
  {
    InfinityWord();
    PositiveInfinityClean();
    ReadsInfWord("Infinity", 1);
  }

  lemma ReadNegativeInfinity()
    ensures StringToNumber("-Infinity") == Inf(-1) && ToDecimalString(Inf(-1)) == "-Infinity"
  {
    InfinityWord();
    NegativeInfinityClean();
    ReadsInfWord("-Infinity", -1);
  }

  /** A cleaned input whose unsigned part is an infinity word reads as the infinity of its sign. */
  lemma ReadsInfWord(input: string, sign: Sign)
    requires Clean(input) == input && ReadSign(input) == sign && IsInfWord(WithoutSign(input))
    ensures StringToNumber(input) == Inf(sign)
  {
  }

  /** What to_decimal_string prints for a valid finite number: a '-' on a nonzero negative value, then str of the magnitude. */
  lemma PrintedFinite(n: Num)
    requires Valid(n) && n.Finite?
    ensures ToDecimalString(n) == (if n.sign < 0 && Val(n.blocks) != 0 then "-" else "") + NatToString(Val(n.blocks))
  {
    assert WellFormed(n) && |n.blocks| >= 1 by {
      ValidFacts(n);
    }
    ToDecimalStringValue(n);
    var v := Val(n.blocks);
    if n.sign < 0 {
      assert Value(n) == -(v as int);
    } else {
      assert Value(n) == v;
    }
  }

  /** Reading what to_decimal_string prints gives the number back, except that -0 comes back as +0. */
  lemma ReadPrinted(n: Num)
    requires Valid(n)
    ensures StringToNumber(ToDecimalString(n)) == (if n.Finite? && Val(n.blocks) == 0 then FromVal(1, 0) else n)
  {
    if n.Inf? {
      ReadInfinity(n.sign);
    } else {
      var v := Val(n.blocks);
      var neg := n.sign < 0 && v != 0;
      PrintedFinite(n);
      NatToStringFacts(v);
      CleanKeepsNumeral(NatToString(v), neg);
      ReadPlain(ToDecimalString(n), NatToString(v), neg);
    }
  }

  // ---------------------------------------------------------------------
  // Scientific notation

  /** m shifted by k decimal places: multiplied by 10^k, or divided by 10^-k and truncated. */
  function Shifted(m: nat, k: int): nat
  {
    var p := Pow10(if k >= 0 then k else -k);
    if k >= 0 then NatProduct(m, p) else NatQuotientOf(m, p)
  }

  /** m / p, a natural number. */
  function NatQuotientOf(m: nat, p: nat): (r: nat)
    requires p >= 1
    ensures r == m / p
  {
    m / p
  }

  /** m * p, a natural number. */
  function NatProduct(m: nat, p: nat): (r: nat)
    ensures r == m * p
  {
    MulLe(0, m, p);
    m * p
  }

  /** Appending k zeros to a digit string without a leading zero multiplies it by 10^k and adds k digits. */
  lemma ZerosShift(t: string, k: nat)
    requires AllDigits(t) && |t| >= 1 && t[0] != '0'
    ensures DigitsVal(t + Zeros(k)) == DigitsVal(t) * Pow10(k)
    ensures NumDigits(DigitsVal(t) * Pow10(k)) == |t| + k && DigitsVal(t) * Pow10(k) >= 1
  {
    ZerosVal(k);
    DigitsConcat(t, Zeros(k));
    assert (t + Zeros(k))[0] == t[0];
    DigitCount(t + Zeros(k));
  }

  /** With fewer exponent places than fractional digits, the digits move right of the point and are truncated. */
  lemma ScientificTruncates(b: string, x: string, sign: Sign)
    requires ParseExponent(x) < FractionDigits(b)
    ensures var q := Shifted(DigitsVal(Mantissa(b)), ParseExponent(x) - FractionDigits(b));
      Scientific(b, x, sign) == FromVal(if q == 0 then 1 else sign, q)
  {
    SplitDecimalDigits(b);
    var c := Mantissa(b);
    var k: nat := FractionDigits(b) - ParseExponent(x);
    assert Scientific(b, x, sign) ==
      if k >= |c| then Normalized(1, [0], None) else DigitsToNumber(c[..|c| - k], sign);
    assert Shifted(DigitsVal(c), ParseExponent(x) - FractionDigits(b)) == NatQuotientOf(DigitsVal(c), Pow10(k));
    TruncatedDigits(c, k, sign);
  }

  /** Dropping the last k digits of a digit string reads as its value divided by 10^k. */
  lemma TruncatedDigits(c: string, k: nat, sign: Sign)
    requires AllDigits(c)
    ensures var q := NatQuotientOf(DigitsVal(c), Pow10(k));
      (if k >= |c| then Normalized(1, [0], None) else DigitsToNumber(c[..|c| - k], sign)) ==
        FromVal(if q == 0 then 1 else sign, q)
  {
    var m := DigitsVal(c);
    if k >= |c| {
      DigitsBound(c);
      Pow10Mono(|c|, k);
      DivideExact(m, Pow10(k), 0, m);
      DigitsToNumberValue("", 1);
    } else {
      var hi := c[..|c| - k];
      DigitsSplit(c, k);
      DivideExact(m, Pow10(k), DigitsVal(hi), DigitsVal(c[|c| - k..]));
      DigitsToNumberValue(hi, sign);
    }
  }

  /** Cutting the last k digits off a digit string divides its value by 10^k, the cut digits being the remainder. */
  lemma {:induction false} DigitsSplit(c: string, k: nat)
    requires AllDigits(c) && k <= |c|
    ensures AllDigits(c[..|c| - k])
    ensures DigitsVal(c) == DigitsVal(c[..|c| - k]) * Pow10(k) + DigitsVal(c[|c| - k..])
    ensures DigitsVal(c[|c| - k..]) < Pow10(k)
  {
    var hi, lo := c[..|c| - k], c[|c| - k..];
    assert c == hi + lo;
    DigitsConcat(hi, lo);
    DigitsBound(lo);
  }

  /** a == q * b + r with 0 <= r < b pins down the quotient. */
  lemma DivideExact(a: nat, b: nat, q: nat, r: nat)
    requires b > 0 && a == q * b + r && r < b
    ensures a / b == q
  {
    assert q * b == b * q;
    DivModUnique(a, b, q, r);
  }

  /**
   * With at least as many exponent places as fractional digits, whatever the
   * mantissa (empty, or with leading zeros, as in "0.5e3" or "e5"): the
   * signed infinity when the mantissa's length plus the shift exceeds 3003,
   * and otherwise the digits times the power of ten, with +0 for zero.  When
   * the mantissa does not start with 0 this is the saturated value itself.
   */
  lemma ScientificScales(b: string, x: string, sign: Sign)
    requires ParseExponent(x) >= FractionDigits(b)
    ensures var k := ParseExponent(x) - FractionDigits(b);
      var q := Shifted(DigitsVal(Mantissa(b)), k);
      Scientific(b, x, sign) ==
        if |Mantissa(b)| + k > MAX_SUPPORTED_MAGNITUDE then Inf(sign) else FromVal(if q == 0 then 1 else sign, q)
    ensures |Mantissa(b)| >= 1 && Mantissa(b)[0] != '0' ==>
      Scientific(b, x, sign) == FromVal(sign, Shifted(DigitsVal(Mantissa(b)), ParseExponent(x) - FractionDigits(b)))
  {
    SplitDecimalDigits(b);
    var c := Mantissa(b);
    var k: nat := ParseExponent(x) - FractionDigits(b);
    assert Scientific(b, x, sign) ==
      if |c| + k > MAX_SUPPORTED_MAGNITUDE then Inf(sign) else DigitsToNumber(c + Zeros(k), sign);
    assert Shifted(DigitsVal(c), ParseExponent(x) - FractionDigits(b)) == NatProduct(DigitsVal(c), Pow10(k));
    ZerosRead(c, k, sign);
    if |c| >= 1 && c[0] != '0' {
      ScientificSignificant(b, x, sign);
    }
  }

  /** Any digit string followed by k zeros reads as its value times 10^k, +0 for zero. */
  lemma ZerosRead(c: string, k: nat, sign: Sign)
    requires AllDigits(c)
    ensures var q := NatProduct(DigitsVal(c), Pow10(k));
      DigitsToNumber(c + Zeros(k), sign) == FromVal(if q == 0 then 1 else sign, q)
  {
    ZerosVal(k);
    DigitsConcat(c, Zeros(k));
    DigitsToNumberValue(c + Zeros(k), sign);
  }

  /**
   * With at least as many exponent places as fractional digits, and digits
   * that do not start with 0, the result is the digits times the power of
   * ten, saturated to the signed infinity past 3003 digits.
   */
  lemma ScientificSignificant(b: string, x: string, sign: Sign)
    requires ParseExponent(x) >= FractionDigits(b)
    requires |Mantissa(b)| >= 1 && Mantissa(b)[0] != '0'
    ensures Scientific(b, x, sign) == FromVal(sign, Shifted(DigitsVal(Mantissa(b)), ParseExponent(x) - FractionDigits(b)))
  {
    SplitDecimalDigits(b);
    var c := Mantissa(b);
    var k := ParseExponent(x) - FractionDigits(b);
    ZerosShift(c, k);
    ZerosVal(k);
    DigitsToNumberValue(c + Zeros(k), sign);
  }

  /** "0e" followed by str(k) is read by the scientific branch, on mantissa "0" and exponent text str(k). */
  lemma ZeroScientificRead(k: nat)
    ensures StringToNumber("0e" + NatToString(k)) == Scientific("0", NatToString(k), 1)
    ensures StringToNumberExact("0e" + NatToString(k)) == ScientificExact("0", NatToString(k), 1)
  {
    var e := NatToString(k);
    NatToStringFacts(k);
    var s := "0e" + e;
    assert Clean(s) == s by {
      forall i | 0 <= i < |s| ensures !IsSpaceOrComma(s[i]) {
        if i >= 2 {
          assert IsDigit(e[i - 2]);
        }
      }
      CleanKeeps(s);
    }
    assert ReadSign(s) == 1 && WithoutSign(s) == s;
    assert !IsInfWord(s) by {
      assert Lower(s)[0] == '0';
    }
    assert FindExponent(s) == 1 by {
      assert s[1..][0] == 'e';
    }
    assert s[..1] == "0" && s[2..] == e;
  }

  /** The exponent text str(k) reads as k, and the mantissa "0" has no fraction. */
  lemma ZeroMantissaParts(k: nat)
    ensures ParseExponent(NatToString(k)) == k
    ensures Mantissa("0") == "0" && FractionDigits("0") == 0
  {
    NatToStringFacts(k);
    DigitsPlain("0");
    var e := NatToString(k);
    assert e[0] != '+' && e[0] != '-' by {
      assert IsDigit(e[0]);
    }
  }

  /** As written, "0e" followed by an exponent of 3003 or more reads as +Infinity, though the mantissa is zero. */
  lemma ZeroScientificSaturates(k: nat)
    requires k >= MAX_SUPPORTED_MAGNITUDE
    ensures StringToNumber("0e" + NatToString(k)) == POS_INF
    ensures Shifted(DigitsVal("0"), k) == 0
  {
    ZeroScientificRead(k);
    ZeroMantissaParts(k);
    var e := NatToString(k);
    var total := ParseExponent(e) - FractionDigits("0");
    assert total == k && |Mantissa("0")| + total > MAX_SUPPORTED_MAGNITUDE;
    assert Scientific("0", e, 1) == Inf(1);
    assert DigitsVal("0") == 0;
  }

  /** The scientific branch with its magnitude check made on the significant digits of the mantissa. */
  function ScientificExact(basePart: string, expPart: string, sign: Sign): Num
  {
    var combined := Mantissa(basePart);
    var total := ParseExponent(expPart) - FractionDigits(basePart);
    var significant := StripZeros(combined);
    if total < 0 then
      (if -total >= |combined| then Normalized(1, [0], None)
       else DigitsToNumber(combined[..|combined| + total], sign))
    else if significant == "" then Normalized(1, [0], None)
    else if |significant| + total > MAX_SUPPORTED_MAGNITUDE then Inf(sign)
    else DigitsToNumber(combined + Zeros(total), sign)
  }

  /** string_to_number with the corrected scientific branch. */
  function StringToNumberExact(input: string): Num
  {
    var s0 := Clean(input);
    var sign := ReadSign(s0);
    var s := WithoutSign(s0);
    if IsInfWord(s) then Inf(sign)
    else
      var e := FindExponent(s);
      if e < |s| then ScientificExact(s[..e], s[e + 1..], sign)
      else DigitsToNumber(Mantissa(s), sign)
  }

  /**
   * The corrected scientific branch gives, for every mantissa, the digits
   * shifted by the exponent (truncated toward zero), as a canonical number
   * saturated past 3003 digits, with +0 for zero.
   */
  lemma ScientificExactValue(b: string, x: string, sign: Sign)
    ensures var q := Shifted(DigitsVal(Mantissa(b)), ParseExponent(x) - FractionDigits(b));
      ScientificExact(b, x, sign) == FromVal(if q == 0 then 1 else sign, q)
  {
    if ParseExponent(x) < FractionDigits(b) {
      ScientificTruncates(b, x, sign);
    } else {
      ScientificExactScales(b, x, sign);
    }
  }

  /** The corrected branch with a nonnegative shift: zero stays +0, and the shifted digits saturate past 3003 significant digits. */
  lemma ScientificExactScales(b: string, x: string, sign: Sign)
    requires ParseExponent(x) >= FractionDigits(b)
    ensures var q := Shifted(DigitsVal(Mantissa(b)), ParseExponent(x) - FractionDigits(b));
      ScientificExact(b, x, sign) == FromVal(if q == 0 then 1 else sign, q)
  {
    SplitDecimalDigits(b);
    var c := Mantissa(b);
    var k: nat := ParseExponent(x) - FractionDigits(b);
    var t := StripZeros(c);
    assert ScientificExact(b, x, sign) ==
      if t == "" then Normalized(1, [0], None)
      else if |t| + k > MAX_SUPPORTED_MAGNITUDE then Inf(sign)
      else DigitsToNumber(c + Zeros(k), sign);
    assert Shifted(DigitsVal(c), ParseExponent(x) - FractionDigits(b)) == NatProduct(DigitsVal(c), Pow10(k));
    ScaledDigits(c, k, sign);
  }

  /** Appending k zeros to a digit string reads as its value times 10^k, saturated on its significant digits. */
  lemma ScaledDigits(c: string, k: nat, sign: Sign)
    requires AllDigits(c)
    ensures var t := StripZeros(c);
      var q := NatProduct(DigitsVal(c), Pow10(k));
      (if t == "" then Normalized(1, [0], None)
       else if |t| + k > MAX_SUPPORTED_MAGNITUDE then Inf(sign)
       else DigitsToNumber(c + Zeros(k), sign)) == FromVal(if q == 0 then 1 else sign, q)
  {
    StripZerosFacts(c);
    var t := StripZeros(c);
    if t == "" {
      assert DigitsVal(c) == 0;
      DigitsToNumberValue("", 1);
    } else {
      ScaledSignificant(c, t, k, sign);
    }
  }

  /** Digits with a significant part t, times 10^k: saturated exactly when t and the zeros exceed 3003 digits. */
  lemma ScaledSignificant(c: string, t: string, k: nat, sign: Sign)
    requires AllDigits(c) && t == StripZeros(c) && t != ""
    ensures var q := NatProduct(DigitsVal(c), Pow10(k));
      q >= 1 &&
      (if |t| + k > MAX_SUPPORTED_MAGNITUDE then Inf(sign) else DigitsToNumber(c + Zeros(k), sign)) == FromVal(sign, q)
  {
    StripZerosFacts(c);
    var q := NatProduct(DigitsVal(c), Pow10(k));
    assert NumDigits(q) == |t| + k && q >= 1 by {
      ZerosShift(t, k);
    }
    if |t| + k <= MAX_SUPPORTED_MAGNITUDE {
      assert DigitsVal(c + Zeros(k)) == q by {
        ZerosVal(k);
        DigitsConcat(c, Zeros(k));
      }
      DigitsToNumberValue(c + Zeros(k), sign);
    }
  }

  /** With the correction, "0e" followed by any exponent reads as +0. */
  lemma ZeroScientificExact(k: nat)
    ensures StringToNumberExact("0e" + NatToString(k)) == FromVal(1, 0)
  {
    ZeroScientificRead(k);
    ZeroMantissaParts(k);
    ScientificExactValue("0", NatToString(k), 1);
  }
}
