/**
 * is_valid_number: the syntactic check of a numeral. It accepts the
 * infinity words, and otherwise an optional '-', then digits with at most
 * one point (not a lone point), then optionally an exponent letter with an
 * optionally signed run of digits.
 */
module Validation {
  import opened Numbers
  import opened Strings
  import Notation

  /** re.match(r'^\d*\.?\d*$', s): digits, at most one point, digits. */
  predicate DecimalShape(s: string)
  {
    var i := FindDot(s);
    if i == |s| then AllDigits(s) else AllDigits(s[..i]) && AllDigits(s[i + 1..])
  }

  /** The exponent without one leading '+' or '-'. */
  function ExponentDigits(x: string): string
  {
    if |x| >= 1 && (x[0] == '+' || x[0] == '-') then x[1..] else x
  }

  /** is_valid_number(str_) on a string */
  predicate IsValidNumber(input: string)
  {
    var s0 := Clean(input);
    if s0 == "" then false
    else if IsInfWord(s0) || s0 == "∞" then true
    else
      var s := WithoutSign(s0);
      if s == "" then false
      else
        var e := FindExponent(s);
        if e < |s| then
          var basePart := s[..e];
          DecimalShape(basePart) && basePart != "" && basePart != "." &&
          var digits := ExponentDigits(s[e + 1..]);
          |digits| >= 1 && AllDigits(digits)
        else DecimalShape(s) && s != "."
  }

  /** int() accepts x: an optional sign, then one or more digits. */
  predicate IntAccepts(x: string)
  {
    (|x| >= 2 && (x[0] == '+' || x[0] == '-') && AllDigits(x[1..])) || (|x| >= 1 && AllDigits(x))
  }

  /** The decimal pattern matches a string of its shape, so no digit is dropped. */
  lemma {:induction false} DecimalShapeKeeps(s: string)
    requires DecimalShape(s)
    ensures Mantissa(s) == Notation.RemoveDots(s)
  {
    var i := FindDot(s);
    FindDotFacts(s);
    if i == |s| {
      RemoveDotsDigits(s);
    } else {
      assert s == s[..i] + "." + s[i + 1..];
      RemoveDotsJoin(s[..i], s[i + 1..]);
    }
  }

  /** FindDot finds the first '.', or the end. */
  lemma {:induction false} FindDotFacts(s: string)
    ensures forall j :: 0 <= j < FindDot(s) ==> s[j] != '.'
    ensures FindDot(s) < |s| ==> s[FindDot(s)] == '.'
    decreases |s|
  {
    if |s| > 0 && s[0] != '.' {
      FindDotFacts(s[1..]);
      forall j | 1 <= j < FindDot(s)
        ensures s[j] != '.'
      {
        assert s[j] == s[1..][j - 1];
      }
    }
  }

  /** A string without points keeps all its characters. */
  lemma {:induction false} RemoveDotsDigits(s: string)
    requires AllDigits(s)
    ensures Notation.RemoveDots(s) == s
    decreases |s|
  {
    if |s| > 0 {
      RemoveDotsDigits(s[..|s| - 1]);
      assert s == s[..|s| - 1] + [s[|s| - 1]];
    }
  }

  /** Removing the points from "a.b" joins the digits on both sides. */
  lemma RemoveDotsJoin(a: string, b: string)
    requires AllDigits(a) && AllDigits(b)
    ensures Notation.RemoveDots(a + "." + b) == a + b
  {
    RemoveDotsAppend(a + ".", b);
    RemoveDotsDigits(b);
    assert (a + ".")[..|a|] == a;
    RemoveDotsDigits(a);
  }

  /** RemoveDots distributes over concatenation. */
  lemma {:induction false} RemoveDotsAppend(a: string, b: string)
    ensures Notation.RemoveDots(a + b) == Notation.RemoveDots(a) + Notation.RemoveDots(b)
    decreases |b|
  {
    if |b| == 0 {
      assert a + b == a;
    } else {
      assert (a + b)[..|a + b| - 1] == a + b[..|b| - 1];
      RemoveDotsAppend(a, b[..|b| - 1]);
    }
  }

  /**
   * What the check promises string_to_number: a valid finite numeral is
   * read using every one of its digits (the decimal pattern matches), and
   * its exponent is one int() accepts.
   */
  lemma ValidReadsEverything(input: string)
    requires IsValidNumber(input)
    requires !IsInfWord(Clean(input)) && Clean(input) != "∞"
    ensures var s := WithoutSign(Clean(input));
      var e := FindExponent(s);
      if e < |s| then
        Mantissa(s[..e]) == Notation.RemoveDots(s[..e]) && |Mantissa(s[..e])| >= 1 && IntAccepts(s[e + 1..])
      else
        Mantissa(s) == Notation.RemoveDots(s) && |Mantissa(s)| >= 1
  {
    var s := WithoutSign(Clean(input));
    var e := FindExponent(s);
    if e < |s| {
      DecimalShapeKeeps(s[..e]);
      OneDigit(s[..e]);
    } else {
      DecimalShapeKeeps(s);
      OneDigit(s);
    }
  }

  /** A nonempty string of the decimal shape other than "." holds a digit. */
  lemma OneDigit(s: string)
    requires DecimalShape(s) && s != "" && s != "."
    ensures |Notation.RemoveDots(s)| >= 1
  {
    DecimalShapeKeeps(s);
    FindDotFacts(s);
    var i := FindDot(s);
    if i < |s| {
      assert s == s[..i] + "." + s[i + 1..];
      assert |s| == i + 1 + |s[i + 1..]|;
      assert i >= 1 || |s[i + 1..]| >= 1;
    }
  }

  /** A digit string has neither an exponent letter nor a point. */
  lemma {:induction false} DigitsHaveNoMarks(d: string)
    requires AllDigits(d)
    ensures FindExponent(d) == |d| && FindDot(d) == |d|
    decreases |d|
  {
    if |d| > 0 {
      DigitsHaveNoMarks(d[1..]);
    }
  }

  /** An optional '-' followed by str of a natural number passes the check. */
  lemma ValidNumeral(negative: bool, x: nat)
    ensures IsValidNumber((if negative then "-" else "") + NatToString(x))
  {
    var d := NatToString(x);
    var s0 := (if negative then "-" else "") + d;
    NatToStringFacts(x);
    CleanKeepsNumeral(d, negative);
    assert IsDigit(d[0]);
    assert WithoutSign(s0) == d;
    assert s0[0] == '-' || IsDigit(s0[0]);
    NotInfWord(s0);
    assert s0 != "∞";
    DigitsHaveNoMarks(d);
  }

  /** Every finite number to_decimal_string prints passes the check. */
  lemma ValidPrinted(n: Num)
    requires Valid(n) && n.Finite?
    ensures IsValidNumber(ToDecimalString(n))
  {
    PrintedFinite(n);
    ValidNumeral(n.sign < 0 && Val(n.blocks) != 0, Val(n.blocks));
  }

  /** What the infinity words are made of. */
  lemma InfinityWords()
    ensures IsInfWord("Infinity") && !IsInfWord("-Infinity")
    ensures Clean("Infinity") == "Infinity" && Clean("-Infinity") == "-Infinity"
    ensures WithoutSign("-Infinity") == "Infinity"
  {
    InfinityWordsLower();
    PositiveInfinityClean();
    NegativeInfinityClean();
  }

  lemma InfinityWordsLower()
    ensures IsInfWord("Infinity") && !IsInfWord("-Infinity")
  {
    assert Lower("Infinity") == "infinity";
    assert Lower("-Infinity")[0] == '-';
  }

  /** A nonempty string of the decimal shape starts with a digit or the point. */
  lemma ShapeStart(b: string)
    requires DecimalShape(b) && |b| >= 1
    ensures IsDigit(b[0]) || b[0] == '.'
  {
    FindDotFacts(b);
    var i := FindDot(b);
    if i > 0 {
      assert b[..i][0] == b[0];
    }
  }

  /** The check refuses "-Infinity", which to_decimal_string prints for negative infinity and string_to_number reads back. */
  lemma NegativeInfinityRejected()
    ensures ToDecimalString(Inf(-1)) == "-Infinity"
    ensures StringToNumber("-Infinity") == Inf(-1)
    ensures !IsValidNumber("-Infinity")
  {
    ReadInfinity(-1);
    NoLetterWord("Infinity");
    InfinityWords();
  }

  /** An unsigned word starting with a letter other than e is refused, whatever follows. */
  lemma NoLetterWord(word: string)
    requires |word| >= 1 && !IsDigit(word[0]) && word[0] !in ".eE"
    ensures var e := FindExponent(word);
      !(DecimalShape(word[..e]) && word[..e] != "") && !DecimalShape(word)
  {
    var e := FindExponent(word);
    if e > 0 {
      assert word[..e][0] == word[0];
      if DecimalShape(word[..e]) {
        ShapeStart(word[..e]);
      }
    }
    if DecimalShape(word) {
      ShapeStart(word);
    }
  }


  /**
   * The check with the sign read before the infinity words, as
   * string_to_number reads them: it accepts what the original accepts
   * and the negative infinity words besides.
   */
  predicate IsValidNumberSigned(input: string)
  {
    var s0 := Clean(input);
    s0 != "" && (IsInfWord(WithoutSign(s0)) || IsValidNumber(input))
  }

  /** With the corrected check, everything to_decimal_string prints passes, the infinities included. */
  lemma ValidPrintedSigned(n: Num)
    requires Valid(n)
    ensures IsValidNumberSigned(ToDecimalString(n))
  {
    if n.Finite? {
      ValidPrinted(n);
    } else {
      InfinityWords();
    }
  }

  /** The corrected check still accepts everything the original accepts. */
  lemma SignedAcceptsMore(input: string)
    ensures IsValidNumber(input) ==> IsValidNumberSigned(input)
    ensures IsValidNumberSigned(input) && !IsValidNumber(input) ==>
      IsInfWord(WithoutSign(Clean(input))) && StringToNumber(input).Inf?
  {
  }

  /** The check accepts "∞", which string_to_number reads as zero. */
  lemma InfinitySymbolReadsZero()
    ensures IsValidNumber("∞")
    ensures StringToNumber("∞").Finite? && Val(StringToNumber("∞").blocks) == 0
  {
    var s := "∞";
    assert Clean(s) == s by {
      CleanKeeps(s);
    }
    assert !IsInfWord(s) by {
      assert |Lower(s)| == 1;
    }
    assert WithoutSign(s) == s && FindExponent(s) == 1 && FindDot(s) == 1;
    assert SplitDecimal(s) == ("", "");
    assert Mantissa(s) == "";
    DigitsToNumberValue("", 1);
  }
}
