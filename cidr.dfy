/**
 * Networks from text of the form `A.B.C.D/len` (snet/src/ipv4.rs,
 * `TryFrom<&str> for Network`), with Rust's `str::split` modelled on
 * character sequences.
 */
module Cidr {
  import opened Wrappers
  import opened Decimal
  import opened Address
  import opened Networks
  import Errors

  // ---------------------------------------------------------------------------
  // Splitting and joining

  /**
   * Rust's `str::split(sep)`: the pieces between the separators, one more
   * piece than there are separators, and none of them containing sep.
   */
  function Split(s: string, sep: char): (r: seq<string>)
    ensures |r| >= 1
    ensures forall i :: 0 <= i < |r| ==> sep !in r[i]
  {
    if s == [] then
      [""]
    else
      var rest := Split(s[1..], sep);
      if s[0] == sep then [""] + rest else [[s[0]] + rest[0]] + rest[1..]
  }

  /** The pieces put back together with sep between neighbours. */
  function Join(parts: seq<string>, sep: char): string
    requires |parts| >= 1
  {
    if |parts| == 1 then parts[0] else parts[0] + [sep] + Join(parts[1..], sep)
  }

  /** Splitting loses nothing: joining the pieces gives the text back. */
  lemma {:induction false} JoinSplit(s: string, sep: char)
    ensures Join(Split(s, sep), sep) == s
  {
    if s != [] {
      var rest := Split(s[1..], sep);
      JoinSplit(s[1..], sep);
      if s[0] != sep {
        var r := Split(s, sep);
        if |rest| == 1 {
          assert r == [[s[0]] + rest[0]];
        } else {
          assert r[1..] == rest[1..];
          assert Join(r, sep) == [s[0]] + rest[0] + [sep] + Join(rest[1..], sep);
        }
      }
    }
  }

  /** A piece free of the separator followed by the separator splits off as the first piece. */
  lemma {:induction false} SplitAfter(a: string, sep: char, b: string)
    requires sep !in a
    ensures Split(a + [sep] + b, sep) == [a] + Split(b, sep)
  {
    if a == [] {
      assert a + [sep] + b == [sep] + b;
      assert ([sep] + b)[1..] == b;
    } else {
      var s := a + [sep] + b;
      assert s[0] == a[0] && s[1..] == a[1..] + [sep] + b;
      SplitAfter(a[1..], sep, b);
      assert [a[0]] + a[1..] == a;
    }
  }

  /** A text free of the separator is a single piece. */
  lemma {:induction false} SplitWhole(a: string, sep: char)
    requires sep !in a
    ensures Split(a, sep) == [a]
  {
    if a != [] {
      SplitWhole(a[1..], sep);
      assert [a[0]] + a[1..] == a;
    }
  }

  /** Pieces free of the separator are recovered by splitting their join. */
  lemma {:induction false} SplitJoin(parts: seq<string>, sep: char)
    requires |parts| >= 1
    requires forall i :: 0 <= i < |parts| ==> sep !in parts[i]
    ensures Split(Join(parts, sep), sep) == parts
  {
    if |parts| == 1 {
      SplitWhole(parts[0], sep);
    } else {
      SplitJoin(parts[1..], sep);
      SplitAfter(parts[0], sep, Join(parts[1..], sep));
      assert [parts[0]] + parts[1..] == parts;
    }
  }

  // ---------------------------------------------------------------------------
  // Parsing

  /**
   * `map(parse).collect::<Result<Vec<_>, _>>()` over the octet texts: every
   * text parsed as an octet, or nothing as soon as one is not.
   */
  function ParseOctets(tokens: seq<string>): (r: Option<seq<bv8>>)
    ensures r.Some? <==> forall i :: 0 <= i < |tokens| ==> ParseU8(tokens[i]).Some?
    ensures r.Some? ==> |r.value| == |tokens|
    ensures r.Some? ==> forall i :: 0 <= i < |tokens| ==> ParseU8(tokens[i]) == Some(r.value[i])
  {
    if tokens == [] then
      Some([])
    else
      match ParseU8(tokens[0])
      case None => None
      case Some(x) =>
        match ParseOctets(tokens[1..])
        case None =>
          assert forall i :: 1 <= i < |tokens| ==> tokens[i] == tokens[1..][i - 1];
          None
        case Some(xs) =>
          assert forall i :: 1 <= i < |tokens| ==> tokens[i] == tokens[1..][i - 1];
          Some([x] + xs)
  }

  /**
   * `Network::try_from(&str)`: the text before the first '/' is split at '.'
   * and every piece parsed as an octet, the text between the first and a
   * second '/' is parsed as the mask length, and anything after a second '/'
   * is ignored. A missing '/', a piece that is no octet and a number of pieces
   * other than four are an invalid address; otherwise the octets and the mask
   * length are handed to `from_dotted_decimal_parts`.
   */
  function ParseNetwork(text: string): Result<ValidNetwork, Errors.Error>
  {
    var parts := Split(text, '/');
    var tokens := Split(parts[0], '.');
    if |parts| < 2 || !WellFormed(tokens, parts[1]) then
      Err(Errors.InvalidAddress)
    else
      Build(tokens, parts[1])
  }

  /** `from_dotted_decimal_parts` of the parsed octets and mask length. */
  function Build(tokens: seq<string>, mask: string): Result<ValidNetwork, Errors.Error>
    requires WellFormed(tokens, mask)
  {
    var octets := ParseOctets(tokens).value;
    FromParts(octets[0], octets[1], octets[2], octets[3], ParseU8(mask).value)
  }

  /** Four octet texts and a mask-length text, each of them a decimal octet. */
  predicate WellFormed(tokens: seq<string>, mask: string)
  {
    |tokens| == 4 && ParseOctets(tokens).Some? && ParseU8(mask).Some?
  }

  /** The text of the octets and a mask length: `a.b.c.d/len`. */
  function CidrText(a: bv8, b: bv8, c: bv8, d: bv8, len: bv8): string
  {
    Join(OctetTexts(a, b, c, d), '.') + "/" + ToDecimal(len as int)
  }

  /** A piece of text with neither separator in it. */
  predicate Plain(t: string)
  {
    '.' !in t && '/' !in t
  }

  lemma DecimalHasNoSeparators(n: nat)
    ensures Plain(ToDecimal(n))
  {
    var s := ToDecimal(n);
    ToDecimalMeaning(n);
    assert forall i :: 0 <= i < |s| ==> IsDigit(s[i]);
  }

  /** Text with exactly one '/' splits into the address text and the mask text. */
  lemma SplitAtMask(address: string, mask: string)
    requires '/' !in address && '/' !in mask
    ensures Split(address + "/" + mask, '/') == [address, mask]
  {
    assert address + "/" + mask == address + ['/'] + mask;
    SplitAfter(address, '/', mask);
    SplitWhole(mask, '/');
  }

  /** Four pieces free of '.' and '/' joined with '.' split back into themselves, and have no '/'. */
  lemma SplitDotted(tokens: seq<string>)
    requires |tokens| == 4 && forall i :: 0 <= i < 4 ==> Plain(tokens[i])
    ensures Split(Join(tokens, '.'), '.') == tokens && '/' !in Join(tokens, '.')
  {
    SplitJoin(tokens, '.');
    JoinFree(tokens, '.', '/');
  }

  /** The decimal texts of four octets. */
  function OctetTexts(a: bv8, b: bv8, c: bv8, d: bv8): seq<string>
  {
    [ToDecimal(a as int), ToDecimal(b as int), ToDecimal(c as int), ToDecimal(d as int)]
  }

  /** The octet texts are free of separators and parse back as the octets. */
  lemma OctetTextsParse(a: bv8, b: bv8, c: bv8, d: bv8)
    ensures var tokens := OctetTexts(a, b, c, d);
            |tokens| == 4 && forall i :: 0 <= i < 4 ==> Plain(tokens[i])
    ensures var tokens := OctetTexts(a, b, c, d);
            ParseU8(tokens[0]) == Some(a) && ParseU8(tokens[1]) == Some(b)
              && ParseU8(tokens[2]) == Some(c) && ParseU8(tokens[3]) == Some(d)
  {
    DecimalHasNoSeparators(a as int);
    DecimalHasNoSeparators(b as int);
    DecimalHasNoSeparators(c as int);
    DecimalHasNoSeparators(d as int);
    ParseU8ToDecimal(a);
    ParseU8ToDecimal(b);
    ParseU8ToDecimal(c);
    ParseU8ToDecimal(d);
  }

  /** Parsing the text of octets and a mask length is building the network from them. */
  lemma ParseCidrText(a: bv8, b: bv8, c: bv8, d: bv8, len: bv8)
    ensures ParseNetwork(CidrText(a, b, c, d, len)) == FromParts(a, b, c, d, len)
  {
    var tokens, mask := OctetTexts(a, b, c, d), ToDecimal(len as int);
    OctetTextsParse(a, b, c, d);
    SplitDotted(tokens);
    DecimalHasNoSeparators(len as int);
    SplitAtMask(Join(tokens, '.'), mask);
    BuildOfTexts(a, b, c, d, len);
    ParsePieces(Join(tokens, '.') + "/" + mask, Join(tokens, '.'), mask, tokens);
  }

  /** The texts of octets and a mask length are well formed and denote those octets and that length. */
  lemma BuildOfTexts(a: bv8, b: bv8, c: bv8, d: bv8, len: bv8)
    ensures WellFormed(OctetTexts(a, b, c, d), ToDecimal(len as int))
    ensures Build(OctetTexts(a, b, c, d), ToDecimal(len as int)) == FromParts(a, b, c, d, len)
  {
    ParseOctetTexts(a, b, c, d);
    ParseU8ToDecimal(len);
  }

  /** The decimal texts of four octets parse as those octets. */
  lemma ParseOctetTexts(a: bv8, b: bv8, c: bv8, d: bv8)
    ensures ParseOctets(OctetTexts(a, b, c, d)) == Some([a, b, c, d])
  {
    var tokens := OctetTexts(a, b, c, d);
    OctetTextsParse(a, b, c, d);
    ParseOctetsOf(tokens, [a, b, c, d]);
  }

  /** Texts that each parse as an octet parse together as those octets. */
  lemma {:induction false} ParseOctetsOf(tokens: seq<string>, octets: seq<bv8>)
    requires |tokens| == |octets|
    requires forall i :: 0 <= i < |tokens| ==> ParseU8(tokens[i]) == Some(octets[i])
    ensures ParseOctets(tokens) == Some(octets)
  {
    if tokens != [] {
      assert ParseU8(tokens[0]) == Some(octets[0]);
      assert forall i :: 0 <= i < |tokens| - 1 ==> tokens[1..][i] == tokens[i + 1] && octets[1..][i] == octets[i + 1];
      ParseOctetsOf(tokens[1..], octets[1..]);
      assert [octets[0]] + octets[1..] == octets;
    }
  }

  /** Four pieces joined with '.'. */
  lemma JoinFour(t: seq<string>)
    requires |t| == 4
    ensures Join(t, '.') == t[0] + "." + t[1] + "." + t[2] + "." + t[3]
  {
    assert t[1..][1..] == t[2..] && t[2..][1..] == t[3..];
    assert Join(t[2..], '.') == t[2] + ['.'] + t[3];
  }

  /** The display of an address is the join of its octet texts. */
  lemma DottedDecimalJoin(x: bv32)
    ensures DottedDecimal(x) == Join(OctetTexts(Octet(x, 3), Octet(x, 2), Octet(x, 1), Octet(x, 0)), '.')
  {
    var a, b, c, d := Octet(x, 3), Octet(x, 2), Octet(x, 1), Octet(x, 0);
    var t := OctetTexts(a, b, c, d);
    JoinFour(t);
    assert t == [ToDecimal(a as int), ToDecimal(b as int), ToDecimal(c as int), ToDecimal(d as int)];
  }

  /**
   * Parsing what a network displays as, its address in dotted decimal, a '/'
   * and its mask length, gives the network back.
   */
  lemma ParseDisplayed(net: ValidNetwork)
    ensures ParseNetwork(DottedDecimal(net.address) + "/" + ToDecimal(net.subnetMaskLen as int)) == Ok(net)
  {
    var x := net.address;
    DottedDecimalJoin(x);
    ParseCidrText(Octet(x, 3), Octet(x, 2), Octet(x, 1), Octet(x, 0), net.subnetMaskLen);
    FromOwnParts(net);
  }

  /** Parsing text already known to split into well-formed pieces. */
  lemma ParsePieces(text: string, address: string, mask: string, tokens: seq<string>)
    requires Split(text, '/') == [address, mask] && Split(address, '.') == tokens && WellFormed(tokens, mask)
    ensures ParseNetwork(text) == Build(tokens, mask)
  {
  }

  /** Joining pieces free of a character other than the separator gives a text free of it. */
  lemma {:induction false} JoinFree(parts: seq<string>, sep: char, ch: char)
    requires |parts| >= 1 && sep != ch
    requires forall i :: 0 <= i < |parts| ==> ch !in parts[i]
    ensures ch !in Join(parts, sep)
  {
    if |parts| > 1 {
      JoinFree(parts[1..], sep, ch);
    }
  }

  /** Whatever follows a second '/' does not change the result. */
  lemma ParseIgnoresRest(address: string, mask: string, rest: string)
    requires '/' !in address && '/' !in mask
    ensures ParseNetwork(address + "/" + mask + "/" + rest) == ParseNetwork(address + "/" + mask)
  {
    SplitAfter(address, '/', mask + "/" + rest);
    assert address + "/" + mask + "/" + rest == address + ['/'] + (mask + ['/'] + rest);
    SplitAfter(mask, '/', rest);
    SplitAfter(address, '/', mask);
    SplitWhole(mask, '/');
    assert address + "/" + mask == address + ['/'] + mask;
  }

  /**
   * With one '/', the text is an invalid address exactly when the address
   * part does not have four dot-separated pieces, one of them is no octet,
   * or the mask length is no octet; the other errors come from the parts.
   */
  lemma ParseInvalidAddress(address: string, mask: string)
    requires '/' !in address && '/' !in mask
    ensures var tokens := Split(address, '.');
            ParseNetwork(address + "/" + mask) == Err(Errors.InvalidAddress)
            <==> |tokens| != 4 || (exists i :: 0 <= i < |tokens| && ParseU8(tokens[i]).None?) || ParseU8(mask).None?
  {
    SplitAtMask(address, mask);
  }

  /**
   * Text with one '/' whose address part splits into four octets and whose
   * mask part is an octet denotes the network `from_dotted_decimal_parts`
   * builds from them; each piece is read as Rust's `u8` parser reads it.
   */
  lemma ParseWellFormed(address: string, mask: string)
    requires '/' !in address && '/' !in mask
    requires var tokens := Split(address, '.');
             |tokens| == 4 && (forall i :: 0 <= i < 4 ==> ParseU8(tokens[i]).Some?) && ParseU8(mask).Some?
    ensures var t := Split(address, '.');
            ParseNetwork(address + "/" + mask)
            == FromParts(ParseU8(t[0]).value, ParseU8(t[1]).value, ParseU8(t[2]).value, ParseU8(t[3]).value,
                         ParseU8(mask).value)
  {
    SplitAtMask(address, mask);
  }

  /** Text without a '/' is an invalid address. */
  lemma ParseNeedsMask(address: string)
    requires '/' !in address
    ensures ParseNetwork(address) == Err(Errors.InvalidAddress)
  {
    SplitWhole(address, '/');
  }

  /**
   * A mask length that is no octet (256 and above, or not a number) makes the
   * address invalid, while 33 to 255 are a valid octet and an invalid subnet mask.
   */
  lemma ParseMaskLength(a: bv8, b: bv8, c: bv8, d: bv8, mask: string)
    requires '/' !in mask
    ensures ParseU8(mask).None? ==>
              ParseNetwork(Join(OctetTexts(a, b, c, d), '.') + "/" + mask) == Err(Errors.InvalidAddress)
    ensures ParseU8(mask).Some? && ParseU8(mask).value > 32 ==>
              ParseNetwork(Join(OctetTexts(a, b, c, d), '.') + "/" + mask) == Err(Errors.InvalidSubnetMask)
  {
    var tokens := OctetTexts(a, b, c, d);
    OctetTextsParse(a, b, c, d);
    SplitDotted(tokens);
    SplitAtMask(Join(tokens, '.'), mask);
  }
}
