/**
 * Decimal text of unsigned integers: Rust's rendering of an integer with `{}`
 * and Rust's `u8::from_str`, which the address parser applies to every octet
 * and to the mask length.
 */
module Decimal {
  import opened Wrappers

  predicate IsDigit(ch: char)
  {
    '0' <= ch <= '9'
  }

  predicate AllDigits(s: string)
  {
    forall i :: 0 <= i < |s| ==> IsDigit(s[i])
  }

  function DigitValue(ch: char): nat
    requires IsDigit(ch)
  {
    ch as int - '0' as int
  }

  function DigitChar(d: nat): (ch: char)
    requires d < 10
    ensures IsDigit(ch) && DigitValue(ch) == d
  {
    ('0' as int + d) as char
  }

  /** The number a string of decimal digits denotes, most significant digit first. */
  function DigitsValue(s: string): nat
    requires AllDigits(s)
  {
    if s == [] then 0 else 10 * DigitsValue(s[..|s| - 1]) + DigitValue(s[|s| - 1])
  }

  /** The shortest decimal text of n: the way Rust's `{}` renders an unsigned integer. */
  function ToDecimal(n: nat): string
  {
    if n < 10 then [DigitChar(n)] else ToDecimal(n / 10) + [DigitChar(n % 10)]
  }

  /** The text consists of digits that denote n, without a leading zero. */
  lemma {:induction false} ToDecimalMeaning(n: nat)
    ensures var s := ToDecimal(n);
            1 <= |s| && AllDigits(s) && DigitsValue(s) == n && (s[0] == '0' ==> s == "0")
  {
    if n >= 10 {
      ToDecimalMeaning(n / 10);
      var p := ToDecimal(n / 10);
      var s := ToDecimal(n);
      assert s[..|s| - 1] == p;
      assert forall i :: 0 <= i < |p| ==> s[i] == p[i];
    }
  }

  /**
   * The digit loop of Rust's integer parser for `u8`: digits are consumed from
   * the left, the running value is multiplied by ten and the digit added, and a
   * non-digit or a value above 255 stops the parse.
   */
  function Accumulate(s: string): Option<nat>
  {
    if s == [] then
      Some(0)
    else
      var p := s[..|s| - 1];
      var last := s[|s| - 1];
      match Accumulate(p)
      case None => None
      case Some(v) =>
        if !IsDigit(last) || 10 * v + DigitValue(last) > 255 then None
        else Some(10 * v + DigitValue(last))
  }

  /** The loop accepts exactly the digit strings denoting at most 255, and computes what they denote. */
  lemma {:induction false} AccumulateMeaning(s: string)
    ensures Accumulate(s).Some? <==> AllDigits(s) && DigitsValue(s) <= 255
    ensures Accumulate(s).Some? ==> Accumulate(s).value == DigitsValue(s)
  {
    if s != [] {
      var p := s[..|s| - 1];
      assert forall i :: 0 <= i < |p| ==> p[i] == s[i];
      AccumulateMeaning(p);
    }
  }

  /** The digits of an octet text: a single leading '+' is allowed and dropped. */
  function UnsignedDigits(s: string): string
  {
    if |s| > 0 && s[0] == '+' then s[1..] else s
  }

  /** Rust's `u8::from_str`: an optional '+' and one or more decimal digits denoting at most 255. */
  function ParseU8(s: string): Option<bv8>
  {
    if s == [] then
      None
    else
      var digits := UnsignedDigits(s);
      if digits == [] then None
      else
        match Accumulate(digits)
        case None => None
        case Some(v) => Some(ByteOf(v))
  }

  /** What `u8::from_str` accepts, and the octet it denotes. */
  lemma ParseU8Meaning(s: string)
    ensures var d := UnsignedDigits(s);
            ParseU8(s).Some? <==> |d| > 0 && AllDigits(d) && DigitsValue(d) <= 255
    ensures var d := UnsignedDigits(s);
            ParseU8(s).Some? ==> AllDigits(d) && ParseU8(s).value as int == DigitsValue(d)
  {
    var d := UnsignedDigits(s);
    AccumulateMeaning(d);
    if s != [] && d != [] && Accumulate(d).Some? {
      ByteOfValue(Accumulate(d).value);
    }
  }

  /** The byte holding a number below 256, counted up from zero. */
  function ByteOf(v: nat): bv8
    requires v <= 255
  {
    if v == 0 then 0 else ByteOf(v - 1) + 1
  }

  lemma SuccByte(x: bv8)
    requires x as int < 255
    ensures (x + 1) as int == x as int + 1
  {
  }

  lemma {:induction false} ByteOfValue(v: nat)
    requires v <= 255
    ensures ByteOf(v) as int == v
  {
    if v > 0 {
      ByteOfValue(v - 1);
      SuccByte(ByteOf(v - 1));
    }
  }

  /** A text whose digits denote the octet b parses as b. */
  lemma ParsesAs(s: string, b: bv8)
    requires var d := UnsignedDigits(s); |d| > 0 && AllDigits(d) && DigitsValue(d) == b as int
    ensures ParseU8(s) == Some(b)
  {
    ParseU8Meaning(s);
    SameByte(ParseU8(s).value, b);
  }

  /** Parsing the decimal text of an octet gives the octet back. */
  lemma ParseU8ToDecimal(b: bv8)
    ensures ParseU8(ToDecimal(b as int)) == Some(b)
  {
    var s := ToDecimal(b as int);
    ToDecimalMeaning(b as int);
    assert IsDigit(s[0]);
    assert UnsignedDigits(s) == s;
    ParsesAs(s, b);
  }

  lemma SameByte(x: bv8, y: bv8)
    requires x as int == y as int
    ensures x == y
  {
  }

  /** A leading '+' and leading zeros are accepted. */
  lemma ParseU8AcceptsSignAndZeros()
    ensures ParseU8("+7") == Some(7)
    ensures ParseU8("007") == Some(7)
  {
    assert UnsignedDigits("+7") == "7";
    ParsesAs("+7", 7);
    assert "00"[..1] == "0";
    assert DigitsValue("00") == 0;
    assert "007"[..2] == "00";
    assert DigitsValue("007") == 7;
    ParsesAs("007", 7);
  }

  /** 255 is the largest octet. */
  lemma ParseU8Bound()
    ensures ParseU8("255") == Some(255)
    ensures ParseU8("256") == None
  {
    assert "25"[..1] == "2";
    assert DigitsValue("25") == 25;
    assert "255"[..2] == "25" && "256"[..2] == "25";
    assert DigitsValue("255") == 255;
    assert DigitsValue("256") == 256;
    ParsesAs("255", 255);
    ParseU8Meaning("256");
  }

  /** Empty text, a lone sign, a minus sign and a non-digit are rejected. */
  lemma ParseU8Rejects()
    ensures ParseU8("") == None
    ensures ParseU8("+") == None
    ensures ParseU8("-1") == None
    ensures ParseU8("1a") == None
  {
    assert !IsDigit("-1"[0]);
    assert !IsDigit("1a"[1]);
  }
}
