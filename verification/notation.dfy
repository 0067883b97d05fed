/**
 * notation_to_string: reading a number written with a magnitude suffix
 * ("1.5K", "-4.2Qa") as the plain integer numeral it stands for. The suffix
 * table is a parameter (the library's NOTATION list); entry i scales by
 * 10^(3i).
 */
module Notation {
  import opened Numbers
  import opened Strings
  import Division

  // ---------------------------------------------------------------------
  // The pattern r'^([\d\.]+)([a-zA-Z]*)$'

  predicate IsNumberChar(c: char)
  {
    IsDigit(c) || c == '.'
  }

  predicate IsLetter(c: char)
  {
    'a' <= c <= 'z' || 'A' <= c <= 'Z'
  }

  predicate AllNumberChars(s: string)
  {
    forall i :: 0 <= i < |s| ==> IsNumberChar(s[i])
  }

  predicate AllLetters(s: string)
  {
    forall i :: 0 <= i < |s| ==> IsLetter(s[i])
  }

  /** The length of the longest prefix of digits and dots. */
  function NumberLength(s: string): (n: nat)
    ensures n <= |s|
  {
    if |s| == 0 || !IsNumberChar(s[0]) then 0 else 1 + NumberLength(s[1..])
  }

  /** The groups (number part, suffix) of the pattern, or None when it does not match. */
  function SplitSuffix(s: string): Option<(string, string)>
  {
    var n := NumberLength(s);
    if n > 0 && AllLetters(s[n..]) then Some((s[..n], s[n..])) else None
  }

  /** s.replace('.', '') */
  function RemoveDots(s: string): string
  {
    if |s| == 0 then "" else RemoveDots(s[..|s| - 1]) + (if s[|s| - 1] == '.' then "" else [s[|s| - 1]])
  }

  /** The index of the first table entry equal to the (lower-case) suffix when lowered, or None. */
  function SuffixIndex(notation: seq<string>, suffix: string): Option<nat>
  {
    if |notation| == 0 then None
    else if Lower(notation[0]) == suffix then Some(0)
    else match SuffixIndex(notation[1..], suffix)
      case None => None
      case Some(i) => Some(i + 1)
  }

  // ---------------------------------------------------------------------
  // Placing the decimal point

  /** The number of '0' characters at the end of s. */
  function TrailingZeros(s: string): (z: nat)
    ensures z <= |s|
  {
    if |s| > 0 && s[|s| - 1] == '0' then 1 + TrailingZeros(s[..|s| - 1]) else 0
  }

  /** re.sub(r'\.?0+$', '', s) */
  function TrimZeroTail(s: string): string
  {
    var z := TrailingZeros(s);
    if z == 0 then s
    else if |s| - z >= 1 && s[|s| - z - 1] == '.' then s[..|s| - z - 1]
    else s[..|s| - z]
  }

  /** The trailing zeros (and the point before them) removed, then a final '.' dropped. */
  function Tidy(s: string): string
  {
    var t := TrimZeroTail(s);
    if |t| > 0 && t[|t| - 1] == '.' then t[..|t| - 1] else t
  }

  /** The significant digits with the point moved 'effective' places to the right. */
  function PlacePoint(combined: string, effective: int): string
  {
    if effective < 0 then
      var position := |combined| + effective;
      var placed :=
        if position <= 0 then "0." + Zeros(-position) + combined
        else combined[..position] + "." + combined[position..];
      Tidy(placed)
    else combined + Zeros(effective)
  }

  /** notation_to_string(str_) with the suffix table 'notation' */
  function NotationToString(notation: seq<string>, input: string): string
  {
    var s0 := Clean(input);
    if s0 == "" then "0"
    else
      var sign := if s0[0] == '-' then "-" else "";
      var s := if s0[0] == '-' then s0[1..] else s0;
      match SplitSuffix(s)
      case None => sign + s
      case Some((numberPart, suffix)) =>
        if suffix == "" then sign + RemoveDots(numberPart)
        else match SuffixIndex(notation, Lower(suffix))
          case None => sign + s
          case Some(index) =>
            var exponent := index * 3;
            var (integerPart, fractionalPart) := SplitDecimal(numberPart);
            var effective := exponent - |fractionalPart|;
            var combined := StripZeros(integerPart + fractionalPart);
            if combined == "" then "0"
            else sign + PlacePoint(combined, effective)
  }

  // ---------------------------------------------------------------------
  // Reference definitions

  /** m % p, a natural number below p. */
  function NatRemainderOf(m: nat, p: nat): (r: nat)
    requires p >= 1
    ensures r < p
  {
    m % p
  }

  /** The k lowest decimal digits of r, zeros in front. */
  function PadDigits(r: nat, k: nat): string
  {
    if k == 0 then "" else PadDigits(r / 10, k - 1) + [DigitChar(r % 10)]
  }

  /**
   * The shortest decimal numeral of m / 10^k: the whole part, then, unless
   * the fraction is zero, a point and the fraction's digits without
   * trailing zeros.
   */
  function DecimalText(m: nat, k: nat): string
    decreases k
  {
    if k == 0 then NatToString(m)
    else if m % 10 == 0 then DecimalText(m / 10, k - 1)
    else NatToString(NatQuotientOf(m, Pow10(k))) + "." + PadDigits(NatRemainderOf(m, Pow10(k)), k)
  }

  // ---------------------------------------------------------------------
  // Facts about the pieces

  /** The first match in the table is the first entry whose lower case equals the suffix. */
  lemma {:induction false} SuffixIndexFirst(notation: seq<string>, suffix: string)
    ensures SuffixIndex(notation, suffix).Some? <==> exists i :: 0 <= i < |notation| && Lower(notation[i]) == suffix
    ensures SuffixIndex(notation, suffix).Some? ==>
      var i := SuffixIndex(notation, suffix).value;
      i < |notation| && Lower(notation[i]) == suffix &&
      forall j :: 0 <= j < i ==> Lower(notation[j]) != suffix
    decreases |notation|
  {
    if |notation| > 0 && Lower(notation[0]) != suffix {
      var rest := notation[1..];
      SuffixIndexFirst(rest, suffix);
      if exists i :: 0 <= i < |notation| && Lower(notation[i]) == suffix {
        var i :| 0 <= i < |notation| && Lower(notation[i]) == suffix;
        assert Lower(rest[i - 1]) == suffix;
      }
      if SuffixIndex(rest, suffix).Some? {
        var i := SuffixIndex(rest, suffix).value;
        assert notation[i + 1] == rest[i];
        forall j | 0 <= j < i + 1
          ensures Lower(notation[j]) != suffix
        {
          if j > 0 {
            assert notation[j] == rest[j - 1];
          }
        }
      }
    }
  }

  /** A string of digits and dots is its own number part. */
  lemma {:induction false} NumberLengthAll(s: string)
    requires AllNumberChars(s)
    ensures NumberLength(s) == |s|
    decreases |s|
  {
    if |s| > 0 {
      NumberLengthAll(s[1..]);
    }
  }

  /** A string of digits and dots followed by letters splits exactly there. */
  lemma {:induction false} NumberLengthStops(t: string, suffix: string)
    requires AllNumberChars(t) && AllLetters(suffix)
    ensures NumberLength(t + suffix) == |t|
    decreases |t|
  {
    if |t| == 0 {
      assert |suffix| > 0 ==> !IsNumberChar(suffix[0]);
    } else {
      assert (t + suffix)[1..] == t[1..] + suffix;
      NumberLengthStops(t[1..], suffix);
    }
  }

  /** Removing the dots keeps exactly the digits, in order. */
  lemma {:induction false} RemoveDotsDigits(s: string)
    requires AllNumberChars(s)
    ensures AllDigits(RemoveDots(s))
    ensures |RemoveDots(s)| <= |s|
    decreases |s|
  {
    if |s| > 0 {
      RemoveDotsDigits(s[..|s| - 1]);
    }
  }

  /** The trailing zeros of a concatenation. */
  lemma {:induction false} TrailingZerosAppend(a: string, b: string)
    ensures TrailingZeros(a + b) == if TrailingZeros(b) < |b| then TrailingZeros(b) else |b| + TrailingZeros(a)
    decreases |b|
  {
    if |b| == 0 {
      assert a + b == a;
    } else {
      assert (a + b)[..|a + b| - 1] == a + b[..|b| - 1];
      if b[|b| - 1] == '0' {
        TrailingZerosAppend(a, b[..|b| - 1]);
      }
    }
  }

  /** Tidying "I.F" removes the fraction's trailing zeros, and the point with them when nothing is left. */
  lemma TidyDecimal(whole: string, fraction: string)
    requires AllDigits(whole) && |whole| >= 1 && AllDigits(fraction)
    ensures var z := TrailingZeros(fraction);
      Tidy(whole + "." + fraction) ==
        if z == |fraction| then whole else whole + "." + fraction[..|fraction| - z]
  {
    var z := TrailingZeros(fraction);
    assert TrailingZeros(whole + "." + fraction) == z by {
      assert TrailingZeros(whole + ".") == 0;
      TrailingZerosAppend(whole + ".", fraction);
    }
    if z == 0 {
      TidyNoZeros(whole, fraction);
    } else if z < |fraction| {
      TidySomeZeros(whole, fraction, z);
    } else {
      TidyAllZeros(whole, fraction, z);
    }
  }

  lemma TidyNoZeros(whole: string, fraction: string)
    requires AllDigits(whole) && |whole| >= 1 && AllDigits(fraction)
    requires TrailingZeros(whole + "." + fraction) == 0
    ensures Tidy(whole + "." + fraction) == if |fraction| == 0 then whole else whole + "." + fraction
  {
    var s := whole + "." + fraction;
    assert TrimZeroTail(s) == s;
    if |fraction| == 0 {
      assert s[..|s| - 1] == whole;
    } else {
      PointIndex(whole, fraction, |fraction| - 1);
    }
  }

  lemma TidySomeZeros(whole: string, fraction: string, z: nat)
    requires AllDigits(whole) && |whole| >= 1 && AllDigits(fraction)
    requires 0 < z < |fraction| && TrailingZeros(whole + "." + fraction) == z
    ensures Tidy(whole + "." + fraction) == whole + "." + fraction[..|fraction| - z]
  {
    var s := whole + "." + fraction;
    var j := |fraction| - z - 1;
    PointIndex(whole, fraction, j);
    PointPrefix(whole, fraction, |fraction| - z);
    assert TrimZeroTail(s) == s[..|s| - z];
    assert s[|s| - z - 1] == s[..|s| - z][|s| - z - 1];
  }

  lemma TidyAllZeros(whole: string, fraction: string, z: nat)
    requires AllDigits(whole) && |whole| >= 1
    requires 0 < z == |fraction| && TrailingZeros(whole + "." + fraction) == z
    ensures Tidy(whole + "." + fraction) == whole
  {
    var s := whole + "." + fraction;
    assert s == (whole + ".") + fraction;
    assert s[..|s| - z - 1] == whole;
    assert IsDigit(whole[|whole| - 1]);
  }

  lemma PointIndex(whole: string, fraction: string, j: nat)
    requires j < |fraction| && AllDigits(fraction)
    ensures (whole + "." + fraction)[|whole| + 1 + j] == fraction[j] != '.'
  {
  }

  lemma PointPrefix(whole: string, fraction: string, j: nat)
    requires j <= |fraction|
    ensures (whole + "." + fraction)[..|whole| + 1 + j] == whole + "." + fraction[..j]
  {
  }

  /** A digit string is the zero-padded numeral of its own value, at its own width. */
  lemma {:induction false} PadDigitsOf(t: string)
    requires AllDigits(t)
    ensures t == PadDigits(DigitsVal(t), |t|)
    decreases |t|
  {
    if |t| > 0 {
      var t' := t[..|t| - 1];
      var d := DigitOf(t[|t| - 1]);
      PadDigitsOf(t');
      var v := DigitsVal(t);
      assert v == DigitsVal(t') * 10 + d;
      assert v / 10 == DigitsVal(t') && v % 10 == d;
      assert t == t' + [t[|t| - 1]];
    }
  }

  /** The last digit of the padded numeral is the last digit of the number. */
  lemma PadDigitsLast(r: nat, k: nat)
    requires k >= 1
    ensures |PadDigits(r, k)| == k && PadDigits(r, k)[k - 1] == DigitChar(r % 10)
  {
    PadDigitsLength(r / 10, k - 1);
  }

  lemma {:induction false} PadDigitsLength(r: nat, k: nat)
    ensures |PadDigits(r, k)| == k && AllDigits(PadDigits(r, k))
    decreases k
  {
    if k > 0 {
      PadDigitsLength(r / 10, k - 1);
    }
  }

  /** m = 10a + b and a = Q c + d give m / (10 Q) = c and m % (10 Q) = 10 d + b. */
  lemma TenfoldDivMod(m: nat, q: nat)
    requires q >= 1
    ensures m / (10 * q) == (m / 10) / q
    ensures (m % (10 * q)) / 10 == (m / 10) % q && (m % (10 * q)) % 10 == m % 10
  {
    var a, b := m / 10, m % 10;
    var c, d := a / q, a % q;
    assert m == 10 * a + b;
    assert a == q * c + d;
    assert m == (10 * q) * c + (10 * d + b) by {
      assert 10 * a == 10 * (q * c) + 10 * d;
      assert 10 * (q * c) == (10 * q) * c;
    }
    assert 10 * d + b < 10 * q by {
      assert d <= q - 1;
      assert 10 * d <= 10 * (q - 1);
    }
    Division.DivModUnique(m, 10 * q, c, 10 * d + b);
    Division.DivModUnique(10 * d + b, 10, d, b);
  }

  /** One more place with a zero last digit: the fraction gains a trailing zero and the whole part is unchanged. */
  lemma DecimalStep(m: nat, k: nat)
    requires k >= 1 && m % 10 == 0
    ensures NatQuotientOf(m, Pow10(k + 1)) == NatQuotientOf(m / 10, Pow10(k))
    ensures PadDigits(NatRemainderOf(m, Pow10(k + 1)), k + 1) == PadDigits(NatRemainderOf(m / 10, Pow10(k)), k) + "0"
  {
    var q := Pow10(k);
    assert Pow10(k + 1) == 10 * q;
    TenfoldDivMod(m, q);
    assert DigitChar(0) == '0';
  }

  /** The shortest numeral of m / 10^k, in terms of the k-digit fraction and its trailing zeros. */
  lemma {:induction false} DecimalTextTrimmed(m: nat, k: nat)
    requires k >= 1
    ensures var f := PadDigits(NatRemainderOf(m, Pow10(k)), k);
      var z := TrailingZeros(f);
      DecimalText(m, k) ==
        if z == |f| then NatToString(NatQuotientOf(m, Pow10(k)))
        else NatToString(NatQuotientOf(m, Pow10(k))) + "." + f[..|f| - z]
    decreases k, 1
  {
    if m % 10 != 0 {
      TrimmedNonzeroLast(m, k);
    } else if k == 1 {
      TrimmedOnePlace(m);
    } else {
      TrimmedStep(m, k);
    }
  }

  /** The fraction's last digit is the number's last digit. */
  lemma FractionLast(m: nat, k: nat)
    requires k >= 1
    ensures var f := PadDigits(NatRemainderOf(m, Pow10(k)), k);
      |f| == k && f[k - 1] == DigitChar(m % 10)
  {
    PadDigitsLast(NatRemainderOf(m, Pow10(k)), k);
    assert Pow10(k) == 10 * Pow10(k - 1);
    TenfoldDivMod(m, Pow10(k - 1));
  }

  /** A last digit other than 0: the whole fraction is printed. */
  lemma TrimmedNonzeroLast(m: nat, k: nat)
    requires k >= 1 && m % 10 != 0
    ensures var f := PadDigits(NatRemainderOf(m, Pow10(k)), k);
      var z := TrailingZeros(f);
      DecimalText(m, k) ==
        if z == |f| then NatToString(NatQuotientOf(m, Pow10(k)))
        else NatToString(NatQuotientOf(m, Pow10(k))) + "." + f[..|f| - z]
  {
    var f := PadDigits(NatRemainderOf(m, Pow10(k)), k);
    FractionLast(m, k);
    assert f[k - 1] != '0';
    assert TrailingZeros(f) == 0;
    assert f[..|f|] == f;
  }

  /** One place and a last digit 0: the fraction is "0" and only the whole part is printed. */
  lemma TrimmedOnePlace(m: nat)
    requires m % 10 == 0
    ensures var f := PadDigits(NatRemainderOf(m, Pow10(1)), 1);
      var z := TrailingZeros(f);
      DecimalText(m, 1) ==
        if z == |f| then NatToString(NatQuotientOf(m, Pow10(1)))
        else NatToString(NatQuotientOf(m, Pow10(1))) + "." + f[..|f| - z]
  {
    var f := PadDigits(NatRemainderOf(m, Pow10(1)), 1);
    FractionLast(m, 1);
    assert f == [DigitChar(0)];
    assert TrailingZeros(f) == 1 by {
      assert f[..0] == "";
    }
    assert NatQuotientOf(m, Pow10(1)) == m / 10 && Pow10(0) == 1;
  }

  /** More places and a last digit 0: one fewer place on m / 10, whose fraction lacks that trailing zero. */
  lemma {:induction false} TrimmedStep(m: nat, k: nat)
    requires k >= 2 && m % 10 == 0
    ensures var f := PadDigits(NatRemainderOf(m, Pow10(k)), k);
      var z := TrailingZeros(f);
      DecimalText(m, k) ==
        if z == |f| then NatToString(NatQuotientOf(m, Pow10(k)))
        else NatToString(NatQuotientOf(m, Pow10(k))) + "." + f[..|f| - z]
    decreases k, 0
  {
    var f := PadDigits(NatRemainderOf(m, Pow10(k)), k);
    var f' := PadDigits(NatRemainderOf(m / 10, Pow10(k - 1)), k - 1);
    DecimalStep(m, k - 1);
    DecimalTextTrimmed(m / 10, k - 1);
    PadDigitsLength(NatRemainderOf(m / 10, Pow10(k - 1)), k - 1);
    assert f == f' + "0";
    TrailingZerosAppend(f', "0");
    var z' := TrailingZeros(f');
    if z' < |f'| {
      assert f[..|f| - (z' + 1)] == f'[..|f'| - z'];
    }
  }

  /** a == q * b + r with 0 <= r < b makes q the quotient and r the remainder. */
  lemma QuotientRemainder(a: nat, b: nat, q: nat, r: nat)
    requires b >= 1 && a == q * b + r && r < b
    ensures NatQuotientOf(a, b) == q && NatRemainderOf(a, b) == r
  {
    assert q * b == b * q;
    Division.DivModUnique(a, b, q, r);
  }

  /** Zeros in front change neither the value nor the digits. */
  lemma ZerosPrefix(j: nat, c: string)
    requires AllDigits(c)
    ensures AllDigits(Zeros(j) + c) && |Zeros(j) + c| == j + |c| && DigitsVal(Zeros(j) + c) == DigitsVal(c)
  {
    ZerosVal(j);
    var p := Pow10(|c|);
    DigitsConcat(Zeros(j), c);
    assert DigitsVal(Zeros(j)) * p == 0;
  }

  /** The significant digits cut into a whole part and a k-digit fraction. */
  lemma PointSplit(c: string, k: nat)
    requires AllDigits(c) && |c| >= 1 && c[0] != '0' && k >= 1
    ensures var placed :=
        if |c| - k <= 0 then "0." + Zeros(k - |c|) + c
        else c[..|c| - k] + "." + c[|c| - k..];
      placed == NatToString(NatQuotientOf(DigitsVal(c), Pow10(k))) + "." + PadDigits(NatRemainderOf(DigitsVal(c), Pow10(k)), k)
  {
    if |c| - k <= 0 {
      PointSplitShort(c, k);
    } else {
      PointSplitLong(c, k);
    }
  }

  /** With no more digits than places, the whole part is 0 and the fraction is padded with zeros. */
  lemma PointSplitShort(c: string, k: nat)
    requires AllDigits(c) && k >= |c|
    ensures "0." + Zeros(k - |c|) + c ==
      NatToString(NatQuotientOf(DigitsVal(c), Pow10(k))) + "." + PadDigits(NatRemainderOf(DigitsVal(c), Pow10(k)), k)
  {
    ShortParts(c, k);
    ShortFraction(c, k);
    assert NatToString(0) == "0";
    assert "0." + Zeros(k - |c|) + c == "0" + "." + (Zeros(k - |c|) + c);
  }

  /** No more digits than places: the quotient by 10^k is 0 and the remainder is the whole value. */
  lemma ShortParts(c: string, k: nat)
    requires AllDigits(c) && k >= |c|
    ensures NatQuotientOf(DigitsVal(c), Pow10(k)) == 0 && NatRemainderOf(DigitsVal(c), Pow10(k)) == DigitsVal(c)
  {
    DigitsBound(c);
    Pow10Mono(|c|, k);
    QuotientRemainder(DigitsVal(c), Pow10(k), 0, DigitsVal(c));
  }

  /** Padding the value of c to k places puts k - |c| zeros in front of c. */
  lemma ShortFraction(c: string, k: nat)
    requires AllDigits(c) && k >= |c|
    ensures PadDigits(DigitsVal(c), k) == Zeros(k - |c|) + c
  {
    var f := Zeros(k - |c|) + c;
    ZerosPrefix(k - |c|, c);
    assert |f| == k && DigitsVal(f) == DigitsVal(c) && AllDigits(f);
    PadDigitsOf(f);
  }

  /** With more digits than places, the point goes between them. */
  lemma PointSplitLong(c: string, k: nat)
    requires AllDigits(c) && 1 <= k < |c| && c[0] != '0'
    ensures c[..|c| - k] + "." + c[|c| - k..] ==
      NatToString(NatQuotientOf(DigitsVal(c), Pow10(k))) + "." + PadDigits(NatRemainderOf(DigitsVal(c), Pow10(k)), k)
  {
    var m := DigitsVal(c);
    var hi, lo := c[..|c| - k], c[|c| - k..];
    assert NatQuotientOf(m, Pow10(k)) == DigitsVal(hi) && NatRemainderOf(m, Pow10(k)) == DigitsVal(lo) by {
      DigitsSplit(c, k);
      QuotientRemainder(m, Pow10(k), DigitsVal(hi), DigitsVal(lo));
    }
    assert NatToString(DigitsVal(hi)) == hi by {
      assert hi[0] == c[0];
      ShowParse(hi);
    }
    assert PadDigits(DigitsVal(lo), k) == lo by {
      PadDigitsOf(lo);
    }
  }

  /** Moving the point right: the digits followed by zeros, str of the scaled value. */
  lemma PlacePointWhole(c: string, e: nat)
    requires AllDigits(c) && |c| >= 1 && c[0] != '0'
    ensures PlacePoint(c, e) == NatToString(DigitsVal(c) * Pow10(e))
  {
    ZerosShift(c, e);
    ZerosVal(e);
    assert (c + Zeros(e))[0] == c[0];
    ShowParse(c + Zeros(e));
  }

  /** Moving the point left: the shortest numeral of the value divided by 10^k. */
  lemma PlacePointFraction(c: string, k: nat)
    requires AllDigits(c) && |c| >= 1 && c[0] != '0' && k >= 1
    ensures PlacePoint(c, -(k as int)) == DecimalText(DigitsVal(c), k)
  {
    var m := DigitsVal(c);
    var whole, fraction := NatToString(NatQuotientOf(m, Pow10(k))), PadDigits(NatRemainderOf(m, Pow10(k)), k);
    assert PlacePoint(c, -(k as int)) == Tidy(whole + "." + fraction) by {
      PointSplit(c, k);
    }
    var z := TrailingZeros(fraction);
    assert Tidy(whole + "." + fraction) == if z == |fraction| then whole else whole + "." + fraction[..|fraction| - z] by {
      NatToStringFacts(NatQuotientOf(m, Pow10(k)));
      PadDigitsLength(NatRemainderOf(m, Pow10(k)), k);
      TidyDecimal(whole, fraction);
    }
    DecimalTextTrimmed(m, k);
  }

  // ---------------------------------------------------------------------
  // What notation_to_string returns

  /** The '-' notation_to_string keeps in front of the cleaned input, if any. */
  function SignPrefix(s0: string): string
  {
    if |s0| >= 1 && s0[0] == '-' then "-" else ""
  }

  /** The number part of the pattern is made of digits and dots and stops at the first other character. */
  lemma {:induction false} NumberLengthPrefix(s: string)
    ensures AllNumberChars(s[..NumberLength(s)])
    ensures NumberLength(s) < |s| ==> !IsNumberChar(s[NumberLength(s)])
    decreases |s|
  {
    if |s| > 0 && IsNumberChar(s[0]) {
      NumberLengthPrefix(s[1..]);
      assert s[..NumberLength(s)] == [s[0]] + s[1..][..NumberLength(s[1..])];
    }
  }

  /** The pattern matches exactly the digits and dots (at least one) followed by letters only. */
  lemma SplitSuffixMatches(s: string)
    ensures SplitSuffix(s).Some? <==> exists n :: 1 <= n <= |s| && AllNumberChars(s[..n]) && AllLetters(s[n..])
    ensures forall n :: 1 <= n <= |s| && AllNumberChars(s[..n]) && AllLetters(s[n..]) ==>
      SplitSuffix(s) == Some((s[..n], s[n..]))
  {
    NumberLengthPrefix(s);
    forall n | 1 <= n <= |s| && AllNumberChars(s[..n]) && AllLetters(s[n..])
      ensures SplitSuffix(s) == Some((s[..n], s[n..]))
    {
      assert s == s[..n] + s[n..];
      NumberLengthStops(s[..n], s[n..]);
    }
  }

  /** Cleaned text that is not digits and dots followed by letters comes back as it is; nothing at all reads as "0". */
  lemma NotationUnmatched(notation: seq<string>, input: string)
    requires var s := WithoutSign(Clean(input));
      !exists n :: 1 <= n <= |s| && AllNumberChars(s[..n]) && AllLetters(s[n..])
    ensures NotationToString(notation, input) == if Clean(input) == "" then "0" else Clean(input)
  {
    var s0 := Clean(input);
    SplitSuffixMatches(WithoutSign(s0));
    if s0 != "" && s0[0] == '-' {
      assert s0 == "-" + s0[1..];
    }
  }

  /** A number without a suffix keeps its sign and digits and loses its points. */
  lemma NotationPlain(notation: seq<string>, input: string, t: string)
    requires WithoutSign(Clean(input)) == t && |t| >= 1 && AllNumberChars(t)
    ensures NotationToString(notation, input) == SignPrefix(Clean(input)) + RemoveDots(t)
    ensures AllDigits(RemoveDots(t))
  {
    assert IsNumberChar(t[0]);
    SplitSuffixMatches(t);
    assert t[..|t|] == t && t[|t|..] == "";
    RemoveDotsDigits(t);
  }

  /** A suffix the table does not hold leaves the cleaned input as it is. */
  lemma NotationUnknownSuffix(notation: seq<string>, input: string, t: string, suffix: string)
    requires WithoutSign(Clean(input)) == t + suffix
    requires |t| >= 1 && AllNumberChars(t) && |suffix| >= 1 && AllLetters(suffix)
    requires forall i :: 0 <= i < |notation| ==> Lower(notation[i]) != Lower(suffix)
    ensures NotationToString(notation, input) == Clean(input)
  {
    var s0 := Clean(input);
    var s := t + suffix;
    assert IsNumberChar(s[0]);
    assert s[..|t|] == t && s[|t|..] == suffix;
    SplitSuffixMatches(s);
    SuffixIndexFirst(notation, Lower(suffix));
    if s0[0] == '-' {
      assert s0 == "-" + s;
    }
  }

  /** A known suffix scales the significant digits by 10^(3 * index), placing the point where it falls. */
  lemma NotationPlaced(notation: seq<string>, input: string, t: string, suffix: string, index: nat)
    requires WithoutSign(Clean(input)) == t + suffix
    requires |t| >= 1 && AllNumberChars(t) && |suffix| >= 1 && AllLetters(suffix)
    requires SuffixIndex(notation, Lower(suffix)) == Some(index)
    ensures var (w, f) := SplitDecimal(t);
      var combined := StripZeros(w + f);
      NotationToString(notation, input) ==
        if combined == "" then "0" else SignPrefix(Clean(input)) + PlacePoint(combined, 3 * index - |f|)
  {
    var s := t + suffix;
    assert IsNumberChar(s[0]);
    assert s[..|t|] == t && s[|t|..] == suffix;
    SplitSuffixMatches(s);
  }

  /**
   * A known suffix at position index of the table: the result is the
   * numeral of the digits of the number part times 10^(3 * index) over
   * 10^(fractional digits), negative when the input is, with the point
   * only where the division leaves a fraction; "0" when the digits spell 0.
   */
  lemma NotationScaled(notation: seq<string>, input: string, t: string, suffix: string, index: nat)
    requires WithoutSign(Clean(input)) == t + suffix
    requires |t| >= 1 && AllNumberChars(t) && |suffix| >= 1 && AllLetters(suffix)
    requires index < |notation| && Lower(notation[index]) == Lower(suffix)
    requires forall j :: 0 <= j < index ==> Lower(notation[j]) != Lower(suffix)
    ensures var (w, f) := SplitDecimal(t);
      var m := DigitsVal(w + f);
      var e := 3 * index - |f|;
      NotationToString(notation, input) ==
        if m == 0 then "0"
        else if e >= 0 then SignPrefix(Clean(input)) + NatToString(m * Pow10(e))
        else SignPrefix(Clean(input)) + DecimalText(m, -e)
  {
    var (w, f) := SplitDecimal(t);
    var combined := StripZeros(w + f);
    var m := DigitsVal(w + f);
    var e := 3 * index - |f|;
    assert NotationToString(notation, input) ==
      if combined == "" then "0" else SignPrefix(Clean(input)) + PlacePoint(combined, e) by {
      SuffixIndexFirst(notation, Lower(suffix));
      SuffixIndexUnique(notation, Lower(suffix), index);
      NotationPlaced(notation, input, t, suffix, index);
    }
    assert AllDigits(combined) && DigitsVal(combined) == m && (combined != "" ==> combined[0] != '0') by {
      SplitDecimalDigits(t);
      StripZerosFacts(w + f);
    }
    ScaledPlaced(combined, m, e, SignPrefix(Clean(input)));
  }

  /** Placing the point in the stripped digits of m gives m scaled by 10^e, printed. */
  lemma ScaledPlaced(combined: string, m: nat, e: int, prefix: string)
    requires AllDigits(combined) && DigitsVal(combined) == m && (combined != "" ==> combined[0] != '0')
    ensures (if combined == "" then "0" else prefix + PlacePoint(combined, e)) ==
      if m == 0 then "0"
      else if e >= 0 then prefix + NatToString(m * Pow10(e))
      else prefix + DecimalText(m, -e)
  {
    if combined == "" {
      assert m == 0;
    } else {
      LeadingDigitPositive(combined);
      if e >= 0 {
        PlacePointWhole(combined, e);
      } else {
        PlacePointNegative(combined, e);
      }
    }
  }

  /** PlacePointFraction, stated for a negative exponent. */
  lemma PlacePointNegative(c: string, e: int)
    requires AllDigits(c) && |c| >= 1 && c[0] != '0' && e < 0
    ensures PlacePoint(c, e) == DecimalText(DigitsVal(c), -e)
  {
    var k: nat := -e;
    assert -(k as int) == e;
    PlacePointFraction(c, k);
  }

  /** The first matching entry is the one SuffixIndex finds. */
  lemma SuffixIndexUnique(notation: seq<string>, suffix: string, index: nat)
    requires index < |notation| && Lower(notation[index]) == suffix
    requires forall j :: 0 <= j < index ==> Lower(notation[j]) != suffix
    ensures SuffixIndex(notation, suffix) == Some(index)
  {
    SuffixIndexFirst(notation, suffix);
  }
}
