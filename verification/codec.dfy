/**
 * The base-90 codec.  encode_number reads a decimal string, and writes the
 * magnitude in base 90 over a fixed alphabet of 90 printable symbols, most
 * significant symbol first, by dividing the block sequence by 90 again and
 * again; zero is "0" and the infinities are "∞" and "-∞".  decode_number
 * multiplies a block sequence by 90 and adds each symbol's value with
 * carries, then prints the result as to_decimal_string does.
 */
module Codec {
  import opened Numbers
  import opened Strings
  import Arithmetic

  const BASE: nat := 90

  // ---------------------------------------------------------------------
  // The alphabet

  /** The punctuation marks that end CHARACTERS, by position in their run. */
  function PunctuationAt(p: nat): char
    requires p < 28
  {
    if p == 0 then '!'
    else if p < 10 then (35 + p - 1) as char
    else if p < 12 then (46 + p - 10) as char
    else if p < 19 then (58 + p - 12) as char
    else if p == 19 then '['
    else if p < 24 then (93 + p - 20) as char
    else if p == 24 then '{'
    else if p == 25 then '}'
    else if p == 26 then '|'
    else '~'
  }

  /** Symbol d of CHARACTERS: ten digits, the lower-case then the upper-case letters, then 28 punctuation marks. */
  function SymbolAt(d: nat): char
    requires d < BASE
  {
    if d < 10 then (48 + d) as char
    else if d < 36 then (97 + d - 10) as char
    else if d < 62 then (65 + d - 36) as char
    else PunctuationAt(d - 62)
  }

  /** CHARACTERS, the 90 symbols of the codec (CharactersListed spells them out). */
  function Characters(): (s: string)
    ensures |s| == BASE
  {
    seq(BASE, d requires 0 <= d < BASE => SymbolAt(d))
  }

  /** CHARACTERS is the list of the source, symbol for symbol. */
  lemma CharactersListed()
    ensures Characters() == "0123456789" + "abcdefghijklmnopqrstuvwxyz" + "ABCDEFGHIJKLMNOPQRSTUVWXYZ" + "!#$%&'()*+./:;<=>?@[]^_`{}|~"
  {
    var cs := Characters();
    DigitSymbols();
    LowerSymbols();
    UpperSymbols();
    PunctuationSymbols();
    assert cs == cs[..10] + cs[10..36] + cs[36..62] + cs[62..];
  }

  lemma DigitSymbols()
    ensures Characters()[..10] == "0123456789"
  {
    var cs := Characters();
    assert forall i :: 0 <= i < 10 ==> cs[..10][i] == SymbolAt(i);
  }

  lemma LowerSymbols()
    ensures Characters()[10..36] == "abcdefghijklmnopqrstuvwxyz"
  {
    var cs := Characters();
    assert forall i :: 0 <= i < 26 ==> cs[10..36][i] == SymbolAt(i + 10);
  }

  lemma UpperSymbols()
    ensures Characters()[36..62] == "ABCDEFGHIJKLMNOPQRSTUVWXYZ"
  {
    var cs := Characters();
    assert forall i :: 0 <= i < 26 ==> cs[36..62][i] == SymbolAt(i + 36);
  }

  lemma PunctuationSymbols()
    ensures Characters()[62..] == "!#$%&'()*+./:;<=>?@[]^_`{}|~"
  {
    var cs := Characters();
    assert forall i :: 0 <= i < 28 ==> cs[62..][i] == PunctuationAt(i);
  }

  /** The position of a punctuation mark in its run, by character code. */
  function PunctuationValue(c: char): Option<nat>
  {
    var k := c as int;
    if c == '!' then Some(0)
    else if '#' <= c <= '+' then Some(k - 35 + 1)
    else if '.' <= c <= '/' then Some(k - 46 + 10)
    else if ':' <= c <= '@' then Some(k - 58 + 12)
    else if c == '[' then Some(19)
    else if ']' <= c <= '`' then Some(k - 93 + 20)
    else if c == '{' then Some(24)
    else if c == '}' then Some(25)
    else if c == '|' then Some(26)
    else if c == '~' then Some(27)
    else None
  }

  /** char_lookup.get(c): the value of a symbol, or None for a character outside the alphabet. */
  function CharValue(c: char): Option<nat>
  {
    var k := c as int;
    if '0' <= c <= '9' then Some(k - 48)
    else if 'a' <= c <= 'z' then Some(k - 97 + 10)
    else if 'A' <= c <= 'Z' then Some(k - 65 + 36)
    else match PunctuationValue(c)
      case Some(p) => Some(62 + p)
      case None => None
  }

  predicate InAlphabet(c: char)
  {
    CharValue(c).Some?
  }

  lemma LookupPunctuation(p: nat)
    requires p < 28
    ensures PunctuationValue(PunctuationAt(p)) == Some(p)
  {
  }

  /** Looking up symbol d gives d back. */
  lemma Lookup(d: nat)
    requires d < BASE
    ensures |Characters()| == BASE && CharValue(Characters()[d]) == Some(d)
  {
    if d >= 62 {
      LookupPunctuation(d - 62);
    }
  }

  lemma PunctuationBack(c: char)
    ensures PunctuationValue(c).Some? ==>
      PunctuationValue(c).value < 28 && PunctuationAt(PunctuationValue(c).value) == c
  {
  }

  /** A character with a value is the symbol at that position. */
  lemma LookupBack(c: char)
    ensures CharValue(c).Some? ==> CharValue(c).value < BASE && Characters()[CharValue(c).value] == c
  {
    PunctuationBack(c);
  }

  /** The lookup is exactly "the position of c in CHARACTERS": the 90 symbols are distinct, and '-' and '∞' are not among them. */
  lemma CharValueIsPosition(c: char, d: nat)
    ensures CharValue(c) == Some(d) <==> d < BASE && |Characters()| == BASE && Characters()[d] == c
    ensures !InAlphabet('-') && !InAlphabet('∞')
  {
    LookupBack(c);
    if d < BASE {
      Lookup(d);
    }
  }

  // ---------------------------------------------------------------------
  // Reference definitions

  /** The base-90 symbols of x, most significant first; none for 0. */
  function Digits90(x: nat): string
    decreases x
  {
    if x == 0 then "" else Digits90(x / BASE) + [Characters()[x % BASE]]
  }

  /** Reading symbols most significant first; the first symbol outside the alphabet is the error. */
  function DecodeDigits(s: string): Result<nat>
  {
    if |s| == 0 then Ok(0)
    else match DecodeDigits(s[..|s| - 1])
      case Err(e) => Err(e)
      case Ok(v) =>
        match CharValue(s[|s| - 1])
          case None => Err(InvalidCharacter(s[|s| - 1]))
          case Some(d) => Ok(v * BASE + d)
  }

  /** What encode_number(value) returns for the number value reads as. */
  function EncodeSpec(n: Num): string
  {
    if n.Inf? then (if n.sign > 0 then "∞" else "-∞")
    else if |n.blocks| == 0 || (n.blocks[0] == 0 && |n.blocks| == 1) then "0"
    else (if n.sign < 0 then "-" else "") + Digits90(Val(n.blocks))
  }

  /** What decode_number(encoded) returns: the decimal text of the symbols' value, signed when nonzero. */
  function DecodeSpec(encoded: string): Result<string>
  {
    if encoded == "0" then Ok("0")
    else if encoded == "∞" then Ok("Infinity")
    else if encoded == "-∞" then Ok("-Infinity")
    else
      var negative := |encoded| >= 1 && encoded[0] == '-';
      var body := if negative then encoded[1..] else encoded;
      match DecodeDigits(body)
        case Err(e) => Err(e)
        case Ok(v) => Ok((if negative && v != 0 then "-" else "") + NatToString(v))
  }

  /** s[::-1] */
  function Reversed<T>(s: seq<T>): (r: seq<T>)
    ensures |r| == |s|
  {
    if |s| == 0 then [] else [s[|s| - 1]] + Reversed(s[..|s| - 1])
  }

  lemma {:induction false} ReversedIndex<T>(s: seq<T>, k: nat)
    requires k < |s|
    ensures Reversed(s)[k] == s[|s| - 1 - k]
    decreases |s|
  {
    if k > 0 {
      ReversedIndex(s[..|s| - 1], k - 1);
    }
  }

  lemma ReversedSnoc<T>(s: seq<T>, x: T)
    ensures Reversed(s + [x]) == [x] + Reversed(s)
  {
    assert (s + [x])[..|s|] == s;
  }

  /** No zero block at the most-significant end (the empty sequence included). */
  predicate Trimmed(bs: seq<nat>)
  {
    |bs| == 0 || bs[|bs| - 1] != 0
  }

  lemma TrimmedPositive(bs: seq<nat>)
    requires Trimmed(bs) && |bs| > 0
    ensures Val(bs) > 0
  {
    ValTop(bs);
  }

  // ---------------------------------------------------------------------
  // Facts about the reference definitions

  /** The symbols of x are in the alphabet, there is at least one exactly when x > 0, and the first is never "0". */
  lemma {:induction false} Digits90Facts(x: nat)
    ensures forall i :: 0 <= i < |Digits90(x)| ==> InAlphabet(Digits90(x)[i])
    ensures |Digits90(x)| > 0 <==> x > 0
    ensures x > 0 ==> Digits90(x)[0] != '0'
    decreases x
  {
    if x > 0 {
      var s := Digits90(x);
      var d := x % BASE;
      Digits90Facts(x / BASE);
      Lookup(d);
      if x / BASE == 0 {
        Lookup(0);
        assert Characters()[0] == '0';
        assert s == [Characters()[d]] && d != 0;
      }
    }
  }

  /** Reading the symbols of x gives x: decoding inverts the reference encoding. */
  lemma {:induction false} DecodeDigits90(x: nat)
    ensures DecodeDigits(Digits90(x)) == Ok(x)
    decreases x
  {
    if x > 0 {
      var s := Digits90(x);
      var q, d := x / BASE, x % BASE;
      DecodeDigits90(q);
      Lookup(d);
      assert s[..|s| - 1] == Digits90(q) && s[|s| - 1] == Characters()[d];
      assert q * BASE + d == x;
    }
  }

  /** DecodeDigits succeeds exactly on strings of alphabet symbols. */
  lemma {:induction false} DecodeDigitsOk(s: string)
    ensures DecodeDigits(s).Ok? <==> forall i :: 0 <= i < |s| ==> InAlphabet(s[i])
    decreases |s|
  {
    if |s| > 0 {
      var p := s[..|s| - 1];
      DecodeDigitsOk(p);
      assert forall i :: 0 <= i < |p| ==> p[i] == s[i];
    }
  }

  /** The error names the first character outside the alphabet. */
  lemma {:induction false} DecodeDigitsRejects(s: string, k: nat)
    requires k < |s| && !InAlphabet(s[k])
    requires forall i :: 0 <= i < k ==> InAlphabet(s[i])
    ensures DecodeDigits(s) == Err(InvalidCharacter(s[k]))
    decreases |s|
  {
    var p := s[..|s| - 1];
    if k < |s| - 1 {
      DecodeDigitsRejects(p, k);
    } else {
      assert forall i :: 0 <= i < |p| ==> InAlphabet(p[i]);
      DecodeDigitsOk(p);
    }
  }

  /** An error in a prefix is the error of the whole string. */
  lemma {:induction false} DecodeDigitsErrorPrefix(s: string, k: nat)
    requires k <= |s| && DecodeDigits(s[..k]).Err?
    ensures DecodeDigits(s) == DecodeDigits(s[..k])
    decreases |s| - k
  {
    if k < |s| {
      assert s[..k + 1][..k] == s[..k];
      DecodeDigitsErrorPrefix(s, k + 1);
    } else {
      assert s[..k] == s;
    }
  }

  /**
   * Encoding the value of a symbol string with no leading "0" gives the
   * string back: with DecodeDigits90, the base-90 symbols of the positive
   * integers are in one-to-one correspondence with those strings.
   */
  lemma {:induction false} Digits90OfDecoded(s: string)
    requires forall i :: 0 <= i < |s| ==> InAlphabet(s[i])
    requires |s| == 0 || s[0] != '0'
    ensures DecodeDigits(s).Ok? && Digits90(DecodeDigits(s).value) == s
    decreases |s|
  {
    DecodeDigitsOk(s);
    if |s| > 0 {
      var p, c := s[..|s| - 1], s[|s| - 1];
      assert forall i :: 0 <= i < |p| ==> InAlphabet(p[i]) by {
        assert forall i :: 0 <= i < |p| ==> p[i] == s[i];
      }
      Digits90OfDecoded(p);
      assert s == p + [c];
      DecodedStep(p, c, DecodeDigits(p).value);
    }
  }

  /** Appending a symbol of value d to a string that decodes to v. */
  lemma DecodeSnoc(p: string, c: char, v: nat, d: nat, x: nat)
    requires DecodeDigits(p) == Ok(v) && CharValue(c) == Some(d) && x == v * BASE + d
    ensures DecodeDigits(p + [c]) == Ok(x)
  {
    var s := p + [c];
    assert s[..|s| - 1] == p;
  }

  /** One more symbol c after a decoded prefix p that encodes back to itself. */
  lemma DecodedStep(p: string, c: char, vp: nat)
    requires DecodeDigits(p) == Ok(vp) && Digits90(vp) == p && CharValue(c).Some?
    requires |p| > 0 || c != '0'
    ensures DecodeDigits(p + [c]).Ok? && Digits90(DecodeDigits(p + [c]).value) == p + [c]
  {
    var d := CharValue(c).value;
    assert d < BASE && Characters()[d] == c by {
      LookupBack(c);
    }
    assert vp > 0 || d > 0 by {
      if |p| == 0 {
        Lookup(0);
      } else {
        Digits90Facts(vp);
      }
    }
    var x := vp * BASE + d;
    DecodeSnoc(p, c, vp, d, x);
    Digits90Snoc(vp, d, c, x);
  }

  /** The symbols of v * 90 + d are those of v then c, symbol d, unless both are zero. */
  lemma Digits90Snoc(v: nat, d: nat, c: char, x: nat)
    requires d < BASE && Characters()[d] == c && (v > 0 || d > 0) && x == v * BASE + d
    ensures Digits90(x) == Digits90(v) + [c]
  {
    assert x / BASE == v && x % BASE == d;
    Digits90Last(x);
  }

  /** What encode_number writes for a valid nonzero finite number: a '-' for a negative one, then symbols of the alphabet, none of them '-', the first not "0". */
  lemma EncodedShape(n: Num)
    requires Valid(n) && n.Finite? && Val(n.blocks) != 0
    ensures var body := Digits90(Val(n.blocks));
      EncodeSpec(n) == (if n.sign < 0 then "-" else "") + body &&
      |body| > 0 && body[0] != '0' &&
      forall i :: 0 <= i < |body| ==> InAlphabet(body[i]) && body[i] != '-'
  {
    ValidFacts(n);
    Digits90Facts(Val(n.blocks));
    CharValueIsPosition('-', 0);
  }

  /** Decoding an optional '-' followed by alphabet symbols that do not start with "0". */
  lemma DecodeSigned(body: string, negative: bool, v: nat)
    requires |body| > 0 && body[0] != '0' && DecodeDigits(body) == Ok(v)
    requires forall i :: 0 <= i < |body| ==> InAlphabet(body[i]) && body[i] != '-'
    ensures DecodeSpec((if negative then "-" else "") + body) == Ok((if negative && v != 0 then "-" else "") + NatToString(v))
  {
    var e := (if negative then "-" else "") + body;
    CharValueIsPosition('∞', 0);
    assert InAlphabet(body[0]) && body[0] != '-';
    if negative {
      assert e[0] == '-' && e[1] == body[0] && e[1..] == body;
      assert e != "0" && e != "∞" && e != "-∞";
    } else {
      assert e == body;
      assert e != "0" && e != "∞" && e != "-∞";
    }
  }

  /** decode_number(encode_number(n)) is to_decimal_string(n) for every valid number. */
  lemma EncodeDecode(n: Num)
    requires Valid(n)
    ensures DecodeSpec(EncodeSpec(n)) == Ok(ToDecimalString(n))
  {
    if n.Finite? {
      var v := Val(n.blocks);
      assert v == 0 <==> n.blocks == [0] by {
        ValidFacts(n);
      }
      PrintedFinite(n);
      if v != 0 {
        EncodedShape(n);
        DecodeDigits90(v);
        DecodeSigned(Digits90(v), n.sign < 0, v);
      } else {
        NatToStringFacts(0);
      }
    }
  }

  /** The codec round trip of encode_number and decode_number on a decimal string. */
  lemma CodecRoundTrip(value: string)
    ensures DecodeSpec(EncodeSpec(StringToNumber(value))) == Ok(ToDecimalString(StringToNumber(value)))
  {
    StringToNumberValid(value);
    EncodeDecode(StringToNumber(value));
  }

  /** Decoding raises at the first symbol outside the alphabet, after an optional leading '-'. */
  lemma DecodeRejects(encoded: string, k: nat)
    requires var body := if |encoded| >= 1 && encoded[0] == '-' then encoded[1..] else encoded;
      k < |body| && !InAlphabet(body[k]) && forall i :: 0 <= i < k ==> InAlphabet(body[i])
    ensures var body := if |encoded| >= 1 && encoded[0] == '-' then encoded[1..] else encoded;
      encoded != "∞" && encoded != "-∞" ==> DecodeSpec(encoded) == Err(InvalidCharacter(body[k]))
  {
    var body := if |encoded| >= 1 && encoded[0] == '-' then encoded[1..] else encoded;
    Lookup(0);
    DecodeDigitsRejects(body, k);
  }

  // ---------------------------------------------------------------------
  // encode_number

  lemma DivideArith(c: int, r: int, q: int, r2: int, big: int)
    requires 0 <= c < BLOCK_BASE && 0 <= r < BASE && 0 <= r2 < BASE && q >= 0
    requires c + r * 1000 == BASE * q + r2
    ensures q < BLOCK_BASE
    ensures c + 1000 * (big * BASE + r) == (q + 1000 * big) * BASE + r2
  {
  }

  /**
   * One pass of encode_number's inner loop: divides the blocks by 90 from the
   * most significant end, keeping quotient blocks from the first nonzero one
   * on, and returns the reversed quotient list and the final remainder.
   */
  method DivideBy90(current: seq<nat>) returns (next: seq<nat>, remainder: nat)
    requires AllSmall(current)
    ensures AllSmall(next) && Trimmed(next)
    ensures Val(next) == Val(current) / BASE && remainder == Val(current) % BASE
  {
    remainder := 0;
    var newBlocks: seq<nat> := [];
    var hasNonZero := false;
    var i := |current|;
    assert current[i..] == [];
    while i > 0
      invariant 0 <= i <= |current|
      invariant remainder < BASE && AllSmall(newBlocks)
      invariant hasNonZero <==> |newBlocks| > 0
      invariant |newBlocks| > 0 ==> newBlocks[0] != 0
      invariant Val(Reversed(newBlocks)) * BASE + remainder == Val(current[i..])
    {
      i := i - 1;
      var value := current[i] + remainder * BLOCK_BASE;
      var quotient := value / BASE;
      ghost var big := Val(Reversed(newBlocks));
      DivideArith(current[i], remainder, quotient, value % BASE, big);
      assert current[i..] == [current[i]] + current[i + 1..];
      ValCons(current[i], current[i + 1..]);
      remainder := value % BASE;
      if quotient > 0 || hasNonZero {
        ReversedSnoc(newBlocks, quotient);
        ValCons(quotient, Reversed(newBlocks));
        newBlocks := newBlocks + [quotient];
        hasNonZero := true;
      }
    }
    next := Reversed(newBlocks);
    assert current[0..] == current;
    forall k | 0 <= k < |next| ensures next[k] < BLOCK_BASE {
      ReversedIndex(newBlocks, k);
    }
    if |next| > 0 {
      ReversedIndex(newBlocks, |next| - 1);
    }
    DivModUniqueBase(Val(next), remainder, Val(current));
  }

  lemma DivModUniqueBase(q: nat, r: nat, x: nat)
    requires r < BASE && q * BASE + r == x
    ensures q == x / BASE && r == x % BASE
  {
  }

  /** The last symbol of a positive value is its remainder's. */
  lemma Digits90Last(v: nat)
    requires v > 0
    ensures Digits90(v) == Digits90(v / BASE) + [Characters()[v % BASE]]
  {
  }

  /** One pass of encode_number's outer loop: the remainder's symbol moves from the value to the collected symbols. */
  lemma EncodeStep(x: nat, v: nat, chars: string, q: nat, remainder: nat)
    requires v > 0 && q == v / BASE && remainder == v % BASE
    requires Digits90(x) == Digits90(v) + Reversed(chars)
    ensures Digits90(x) == Digits90(q) + Reversed(chars + [Characters()[remainder]])
  {
    var c := Characters()[remainder];
    var d, rc := Digits90(q), Reversed(chars);
    Digits90Last(v);
    ReversedSnoc(chars, c);
    assert (d + [c]) + rc == d + ([c] + rc);
  }

  /** encode_number(value) */
  method Encode(value: string) returns (encoded: string)
    ensures encoded == EncodeSpec(StringToNumber(value))
  {
    var num := StringToNumber(value);
    if num.Inf? {
      return if num.sign > 0 then "∞" else "-∞";
    }
    if |num.blocks| == 0 || (num.blocks[0] == 0 && |num.blocks| == 1) {
      return "0";
    }
    assert AllSmall(num.blocks) && NoTopZero(num.blocks) by {
      StringToNumberValid(value);
      ValidFacts(num);
    }
    var chars: string := [];
    var current := num.blocks;
    ghost var x := Val(current);
    while |current| > 0 && !(|current| == 1 && current[0] == 0)
      invariant AllSmall(current) && Trimmed(current)
      invariant Digits90(x) == Digits90(Val(current)) + Reversed(chars)
      decreases Val(current)
    {
      TrimmedPositive(current);
      var next, remainder := DivideBy90(current);
      EncodeStep(x, Val(current), chars, Val(next), remainder);
      current := next;
      chars := chars + [Characters()[remainder]];
    }
    assert Val(current) == 0;
    assert Digits90(x) == Reversed(chars);
    encoded := (if num.sign < 0 then "-" else "") + Reversed(chars);
  }

  // ---------------------------------------------------------------------
  // decode_number

  lemma ScaleArith(done: int, src: int, carry: int, lo: int, hi: int, b: int, p: int)
    requires done + carry * p == BASE * src
    requires lo + 1000 * hi == b * BASE + carry
    ensures done + lo * p + hi * (1000 * p) == BASE * (src + b * p)
  {
    assert lo * p + hi * (1000 * p) == (lo + 1000 * hi) * p;
    assert (b * BASE + carry) * p == BASE * (b * p) + carry * p;
  }

  /** One round of the multiply-by-90 loop: the processed blocks with the carry on top hold 90 times the source prefix. */
  lemma ScaleStep(done: seq<nat>, src: seq<nat>, b: nat, carry: nat, lo: nat, hi: nat)
    requires |done| == |src|
    requires Val(done + [carry]) == BASE * Val(src)
    requires lo + 1000 * hi == b * BASE + carry
    ensures Val(done + [lo] + [hi]) == BASE * Val(src + [b])
  {
    var p := Pow1000(|done|);
    ValAppend(done, carry);
    ValAppend(done, lo);
    ValAppend(done + [lo], hi);
    ValAppend(src, b);
    assert Pow1000(|done| + 1) == 1000 * p;
    ScaleArith(Val(done), Val(src), carry, lo, hi, b, p);
  }

  /** Splitting a carry into a block and the carry above it keeps the value. */
  lemma CarrySplit(bs: seq<nat>, carry: nat)
    ensures Val(bs + [carry % BLOCK_BASE] + [carry / BLOCK_BASE]) == Val(bs + [carry])
  {
    var p := Pow1000(|bs|);
    var lo, hi := carry % BLOCK_BASE, carry / BLOCK_BASE;
    ValAppend(bs, carry);
    ValAppend(bs, lo);
    ValAppend(bs + [lo], hi);
    assert Pow1000(|bs| + 1) == 1000 * p;
    assert lo * p + hi * (1000 * p) == (lo + 1000 * hi) * p;
  }

  /** One round of the multiply-by-base loop, on the whole block list. */
  lemma TimesBaseStep(r: seq<nat>, blocks: seq<nat>, j: nat, carry: nat, lo: nat, hi: nat)
    requires |r| == |blocks| && j < |r| && r[j..] == blocks[j..] && AllSmall(blocks)
    requires Val(r[..j] + [carry]) == BASE * Val(blocks[..j]) && carry < BASE
    requires lo + 1000 * hi == r[j] * BASE + carry && lo < BLOCK_BASE
    ensures r[j := lo][j + 1..] == blocks[j + 1..] && hi < BASE
    ensures Val(r[j := lo][..j + 1] + [hi]) == BASE * Val(blocks[..j + 1])
  {
    assert r[j] == blocks[j];
    ScaleStep(r[..j], blocks[..j], blocks[j], carry, lo, hi);
    assert r[j := lo][..j + 1] == r[..j] + [lo];
    assert blocks[..j + 1] == blocks[..j] + [blocks[j]];
    assert r[j := lo][j + 1..] == r[j + 1..];
  }

  /** The multiply-by-base loop of decode_number and the carry blocks appended after it. */
  method TimesBase(blocks: seq<nat>) returns (r: seq<nat>)
    requires AllSmall(blocks)
    ensures AllSmall(r) && |r| >= |blocks|
    ensures Val(r) == BASE * Val(blocks)
  {
    r := blocks;
    var carry: nat := 0;
    ValAppend([], 0);
    for j := 0 to |r|
      invariant |r| == |blocks| && r[j..] == blocks[j..]
      invariant AllSmall(r) && carry < BASE
      invariant Val(r[..j] + [carry]) == BASE * Val(blocks[..j])
    {
      var product := r[j] * BASE + carry;
      var lo, hi := product % BLOCK_BASE, product / BLOCK_BASE;
      TimesBaseStep(r, blocks, j, carry, lo, hi);
      r := r[j := lo];
      carry := hi;
    }
    assert r[..|r|] == r && blocks[..|blocks|] == blocks;
    while carry > 0
      invariant AllSmall(r) && |r| >= |blocks|
      invariant Val(r + [carry]) == BASE * Val(blocks)
      decreases carry
    {
      CarrySplit(r, carry);
      r := r + [carry % BLOCK_BASE];
      carry := carry / BLOCK_BASE;
    }
    ValAppend(r, 0);
  }

  /** The add-the-digit loop of decode_number, with the final carry block. */
  method AddDigit(blocks: seq<nat>, value: nat) returns (r: seq<nat>)
    requires AllSmall(blocks) && value < BASE
    ensures AllSmall(r) && |r| >= |blocks|
    ensures Val(r) == Val(blocks) + value
  {
    r := blocks;
    var carry: nat := value;
    var j := 0;
    while carry > 0 && j < |r|
      invariant 0 <= j <= |r| == |blocks|
      invariant AllSmall(r) && carry < BASE
      invariant Val(r) + carry * Pow1000(j) == Val(blocks) + value
    {
      var sum := r[j] + carry;
      var lo, hi := sum % BLOCK_BASE, sum / BLOCK_BASE;
      Arithmetic.CarryPassStep(r, j, carry, lo, hi, Val(blocks) + value);
      r := r[j := lo];
      carry := hi;
      j := j + 1;
    }
    if carry > 0 {
      ValAppend(r, carry);
      r := r + [carry];
    }
  }

  /**
   * The symbol loop of decode_number: for each symbol, the blocks are
   * multiplied by 90 and the symbol's value is added; the first symbol
   * outside the alphabet stops it with the error.
   */
  method ReadSymbols(s: string) returns (r: Result<seq<nat>>)
    ensures r.Err? ==> DecodeDigits(s) == Err(r.error)
    ensures r.Ok? ==> AllSmall(r.value) && DecodeDigits(s) == Ok(Val(r.value))
  {
    var blocks: seq<nat> := [0];
    for i := 0 to |s|
      invariant AllSmall(blocks)
      invariant DecodeDigits(s[..i]) == Ok(Val(blocks))
    {
      var value := CharValue(s[i]);
      assert s[..i + 1][..i] == s[..i];
      if value.None? {
        DecodeDigitsErrorPrefix(s, i + 1);
        return Err(InvalidCharacter(s[i]));
      }
      LookupBack(s[i]);
      blocks := TimesBase(blocks);
      blocks := AddDigit(blocks, value.value);
    }
    assert s[..|s|] == s;
    return Ok(blocks);
  }

  /** What decode_number prints for the blocks it built: str of their value. */
  lemma PrintedBlocks(blocks: seq<nat>)
    requires AllSmall(blocks)
    ensures var t := StripZeros(BlockDigits(blocks));
      (if t == "" then "0" else t) == NatToString(Val(blocks)) &&
      (NatToString(Val(blocks)) != "0" <==> Val(blocks) != 0)
  {
    BlockDigitsFacts(blocks);
    CanonicalDigits(BlockDigits(blocks));
    NatToStringFacts(Val(blocks));
  }

  /** A lone '-' decodes as "0". */
  lemma DecodeLoneMinus()
    ensures DecodeSpec("-") == Ok("0")
  {
    var e := "-";
    assert e != "0" && e != "∞" && e != "-∞" by {
      assert e[0] == '-' && |e| == 1;
    }
    assert e[1..] == "";
    assert "" + NatToString(0) == "0" by {
      NatToStringFacts(0);
    }
  }

  /** decode_number(encoded_str); the ValueError for a character outside the alphabet is an Err. */
  method Decode(encoded: string) returns (r: Result<string>)
    ensures r == DecodeSpec(encoded)
  {
    if encoded == "0" {
      return Ok("0");
    }
    if encoded == "∞" {
      return Ok("Infinity");
    } else if encoded == "-∞" {
      return Ok("-Infinity");
    }
    var sign := 1;
    var s := encoded;
    if |s| >= 1 && s[0] == '-' {
      sign := -1;
      s := s[1..];
      if s == "" {
        DecodeLoneMinus();
        return Ok("0");
      }
    }
    var read := ReadSymbols(s);
    if read.Err? {
      return Err(read.error);
    }
    var blocks := read.value;
    var numberStr := JoinBlocks(blocks);
    numberStr := StripZeros(numberStr);
    if numberStr == "" {
      numberStr := "0";
    }
    PrintedBlocks(blocks);
    r := Ok((if sign == -1 && numberStr != "0" then "-" else "") + numberStr);
  }
}
