/**
 * IPv4 addresses as 32-bit words: assembly from octets, dotted-decimal and
 * binary text, and the roles an address plays in a network listing
 * (snet/src/ipv4.rs, `Address` and `AddressType`).
 */
module Address {
  import opened Words
  import opened Decimal
  import opened Classes

  /** The word a.b.c.d: `a << 24 | b << 16 | c << 8 | d`. */
  function Assemble(a: bv8, b: bv8, c: bv8, d: bv8): bv32
  {
    ((a as bv32) << 24) | ((b as bv32) << 16) | ((c as bv32) << 8) | (d as bv32)
  }

  /** Octet k of an address, 3 being the most significant: `address >> 8k & 0xFF`. */
  function Octet(address: bv32, k: bv8): bv8
    requires k < 4
  {
    ((address >> (8 * k)) & 0xFF) as bv8
  }

  /** The octets read back from an assembled address are the ones it was assembled from. */
  lemma OctetsOfAssemble(a: bv8, b: bv8, c: bv8, d: bv8)
    ensures var x := Assemble(a, b, c, d);
            Octet(x, 3) == a && Octet(x, 2) == b && Octet(x, 1) == c && Octet(x, 0) == d
  {
  }

  /** Reassembling the four octets of an address gives the address back. */
  lemma AssembleOctets(x: bv32)
    ensures Assemble(Octet(x, 3), Octet(x, 2), Octet(x, 1), Octet(x, 0)) == x
  {
  }

  /** The leading octet decides the reserved blocks: 127.x.x.x is 127/8. */
  lemma LeadingOctet(a: bv8, b: bv8, c: bv8, d: bv8)
    ensures Assemble(a, b, c, d) >> 24 == a as bv32
    ensures Assemble(a, b, c, d) == 0xFFFF_FFFF <==> a == 255 && b == 255 && c == 255 && d == 255
  {
  }

  /** Display of an address: its four octets in decimal, separated by dots. */
  function DottedDecimal(x: bv32): string
  {
    ToDecimal(Octet(x, 3) as int) + "." + ToDecimal(Octet(x, 2) as int) + "."
      + ToDecimal(Octet(x, 1) as int) + "." + ToDecimal(Octet(x, 0) as int)
  }

  /** The k low binary digits of n, most significant first, padded with zeros. */
  function BinaryDigits(n: nat, k: nat): (s: string)
    ensures |s| == k
  {
    if k == 0 then "" else BinaryDigits(n / 2, k - 1) + [if n % 2 == 1 then '1' else '0']
  }

  /** Rust's `{:032b}` of an address: its value in base 2, zero-padded to 32 digits. */
  function Binary(x: bv32): (s: string)
    ensures |s| == 32
  {
    BinaryDigits(Value(x), 32)
  }

  /** Digit i of BinaryDigits(n, k) is the binary digit of n of weight 2^(k - 1 - i). */
  lemma {:induction false} BinaryDigitsMeaning(n: nat, k: nat)
    ensures forall i :: 0 <= i < k ==>
              BinaryDigits(n, k)[i] == (if n / Pow2(k - 1 - i) % 2 == 1 then '1' else '0')
  {
    if k > 0 {
      BinaryDigitsMeaning(n / 2, k - 1);
      forall i | 0 <= i < k
        ensures BinaryDigits(n, k)[i] == (if n / Pow2(k - 1 - i) % 2 == 1 then '1' else '0')
      {
        if i < k - 1 {
          DivDiv(n, 2, Pow2(k - 2 - i));
        }
      }
    }
  }

  /** Digit 31 - i of the binary text of an address is its bit i. */
  lemma BinaryBits(x: bv32, i: bv8)
    requires i < 32
    ensures Binary(x)[31 - i] == (if Bit(x, i) then '1' else '0')
  {
    var j := (31 - i) as int;
    assert 32 - 1 - j == i as int;
    BinaryDigitsMeaning(Value(x), 32);
    ValueShr(x, i);
    var v := x >> i;
    ValueUnfold(v);
    ModUnique(Value(v), 2, Value(v >> 1), LowBit(v));
  }

  /** The number a string of binary digits denotes, most significant digit first. */
  function BinaryValue(s: string): nat
  {
    if s == [] then 0 else 2 * BinaryValue(s[..|s| - 1]) + (if s[|s| - 1] == '1' then 1 else 0)
  }

  /** The word a string of binary digits denotes. */
  function FromBinary(s: string): bv32
  {
    Word(BinaryValue(s))
  }

  lemma {:induction false} BinaryValueDigits(n: nat, k: nat)
    requires n < Pow2(k)
    ensures BinaryValue(BinaryDigits(n, k)) == n
  {
    if k > 0 {
      var s := BinaryDigits(n, k);
      assert s[..|s| - 1] == BinaryDigits(n / 2, k - 1);
      BinaryValueDigits(n / 2, k - 1);
    }
  }

  /** The binary text of an address determines the address. */
  lemma FromBinaryBinary(x: bv32)
    ensures FromBinary(Binary(x)) == x
  {
    ValueBound(x);
    WordCountPower();
    BinaryValueDigits(Value(x), 32);
    WordValue(x);
  }

  /** The role of an address in the listing of a network. */
  datatype AddressType =
    | Network(address: bv32, networkClass: Class)
    | Subnet(address: bv32)
    | Host(address: bv32)
    | SubnetBroadcast(address: bv32)
    | NetworkBroadcast(address: bv32)
  {
    /** The label the role is displayed with; a network shows its class. */
    function Label(): string
    {
      match this
      case Network(_, c) => c.Label()
      case Subnet(_) => "subnet"
      case Host(_) => "host"
      case SubnetBroadcast(_) => "subnet broadcast"
      case NetworkBroadcast(_) => "network broadcast"
    }
  }

  /** r and s are roles of the same kind, networks of the same class. */
  predicate SameKind(r: AddressType, s: AddressType)
  {
    match r
    case Network(_, c) => s.Network? && s.networkClass == c
    case Subnet(_) => s.Subnet?
    case Host(_) => s.Host?
    case SubnetBroadcast(_) => s.SubnetBroadcast?
    case NetworkBroadcast(_) => s.NetworkBroadcast?
  }

  /** The label tells the kind of a role apart, and the class of a network. */
  lemma LabelDeterminesKind(r: AddressType, s: AddressType)
    ensures r.Label() == s.Label() <==> SameKind(r, s)
  {
  }
}
