/**
 * The concrete cases the source's unit tests check (snet/src/ipv4.rs, module
 * `test`), derived from the general definitions and lemmas.
 */
module Examples {
  import opened Wrappers
  import opened Words
  import opened Decimal
  import opened Classes
  import opened Reserved
  import opened Address
  import opened Networks
  import opened Enumerations
  import opened Cidr
  import Errors

  // ---------------------------------------------------------------------------
  // Decimal texts used below

  /** The decimal text of a number below 10. */
  lemma Decimal1(n: nat, s: string)
    requires n < 10 && s == [DigitChar(n)]
    ensures ToDecimal(n) == s
  {
  }

  /** The decimal text of a two-digit number. */
  lemma Decimal2(n: nat, s: string)
    requires 10 <= n < 100 && s == [DigitChar(n / 10), DigitChar(n % 10)]
    ensures ToDecimal(n) == s
  {
    Decimal1(n / 10, [DigitChar(n / 10)]);
  }

  /** The decimal text of a three-digit number. */
  lemma Decimal3(n: nat, s: string)
    requires 100 <= n < 1000 && s == [DigitChar(n / 100), DigitChar(n / 10 % 10), DigitChar(n % 10)]
    ensures ToDecimal(n) == s
  {
    assert n / 10 / 10 == n / 100;
    Decimal2(n / 10, [DigitChar(n / 100), DigitChar(n / 10 % 10)]);
  }

  lemma ClassCDecimals()
    ensures ToDecimal(192) == "192" && ToDecimal(168) == "168" && ToDecimal(147) == "147" && ToDecimal(0) == "0"
  {
    Decimal3(192, "192");
    Decimal3(168, "168");
    Decimal3(147, "147");
    Decimal1(0, "0");
  }

  /** The text of four octets and a mask length, written out. */
  lemma CidrTextOf(a: bv8, b: bv8, c: bv8, d: bv8, len: bv8, ta: string, tb: string, tc: string, td: string, tl: string)
    requires ToDecimal(a as int) == ta && ToDecimal(b as int) == tb && ToDecimal(c as int) == tc
    requires ToDecimal(d as int) == td && ToDecimal(len as int) == tl
    ensures CidrText(a, b, c, d, len) == ta + "." + tb + "." + tc + "." + td + "/" + tl
  {
    JoinFour(OctetTexts(a, b, c, d));
  }

  // ---------------------------------------------------------------------------
  // Construction and parsing

  /** 192.168.147.0 with a mask of len bits. */
  function ClassC(len: bv8): ValidNetwork
    requires len <= 32
  {
    assert Detect(0xC0A8_9300).None?;
    Network.Network(0xC0A8_9300, len)
  }

  /** `test_network_from_decimal_parts`: the octets assemble to the expected word. */
  lemma FromPartsExample()
    ensures FromParts(192, 168, 147, 0, 28) == Ok(ClassC(28))
  {
    var r := FromParts(192, 168, 147, 0, 28);
    AssembleOctets(r.value.address);
  }

  /** Parsing "192.168.147.0/len" gives the class C network with that mask length. */
  lemma ParseClassC(len: bv8, tl: string)
    requires len <= 32 && ToDecimal(len as int) == tl
    ensures ParseNetwork("192.168.147.0/" + tl) == Ok(ClassC(len))
  {
    ClassCText(len, tl);
    ParseCidrText(192, 168, 147, 0, len);
    FromPartsClassC(len);
  }

  lemma ClassCText(len: bv8, tl: string)
    requires ToDecimal(len as int) == tl
    ensures CidrText(192, 168, 147, 0, len) == "192.168.147.0/" + tl
  {
    ClassCDecimals();
    CidrTextOf(192, 168, 147, 0, len, "192", "168", "147", "0", tl);
    assert "192" + "." + "168" + "." + "147" + "." + "0" + "/" == "192.168.147.0/";
  }

  lemma FromPartsClassC(len: bv8)
    requires len <= 32
    ensures FromParts(192, 168, 147, 0, len) == Ok(ClassC(len))
  {
    var r := FromParts(192, 168, 147, 0, len);
    AssembleOctets(r.value.address);
  }

  /** `test_network_from_string`: parsing the text equals building from the parts. */
  lemma ParseExample()
    ensures ParseNetwork("192.168.147.0/28") == FromParts(192, 168, 147, 0, 28)
  {
    Decimal2(28, "28");
    ParseClassC(28, "28");
    assert "192.168.147.0/28" == "192.168.147.0/" + "28";
    FromPartsExample();
  }

  /** Leading zeros in an octet and a sign on the mask length are accepted. */
  lemma ParseLenientExample()
    ensures ParseNetwork("192.168.147.00/+28") == FromParts(192, 168, 147, 0, 28)
  {
    assert "192.168.147.00" + "/" + "+28" == "192.168.147.00/+28";
    ParseLenient("192.168.147.00", "+28");
  }

  // The texts are parameters so that the solver does not evaluate the parser on literals.
  lemma ParseLenient(address: string, mask: string)
    requires address == "192.168.147.00" && mask == "+28"
    ensures ParseNetwork(address + "/" + mask) == FromParts(192, 168, 147, 0, 28)
  {
    LenientSplit();
    LenientPieces();
    ParseOfPieces(address, mask, ["192", "168", "147", "00"], 192, 168, 147, 0, 28);
  }

  lemma ParseOfPieces(address: string, mask: string, t: seq<string>, a: bv8, b: bv8, c: bv8, d: bv8, len: bv8)
    requires '/' !in address && '/' !in mask && Split(address, '.') == t && |t| == 4
    requires ParseU8(t[0]) == Some(a) && ParseU8(t[1]) == Some(b) && ParseU8(t[2]) == Some(c)
    requires ParseU8(t[3]) == Some(d) && ParseU8(mask) == Some(len)
    ensures ParseNetwork(address + "/" + mask) == FromParts(a, b, c, d, len)
  {
    forall i | 0 <= i < 4
      ensures ParseU8(t[i]).Some?
    {
      assert i == 0 || i == 1 || i == 2 || i == 3;
    }
    ParseWellFormed(address, mask);
    assert ParseU8(t[0]).value == a && ParseU8(t[1]).value == b;
    assert ParseU8(t[2]).value == c && ParseU8(t[3]).value == d && ParseU8(mask).value == len;
  }

  lemma LenientSplit()
    ensures Split("192.168.147.00", '.') == ["192", "168", "147", "00"]
    ensures '/' !in "192.168.147.00" && '/' !in "+28"
  {
    LenientJoin(["192", "168", "147", "00"]);
  }

  // The pieces are a parameter so that the solver does not evaluate Join and Split on literals.
  lemma LenientJoin(t: seq<string>)
    requires t == ["192", "168", "147", "00"]
    ensures Split("192.168.147.00", '.') == t && '/' !in "192.168.147.00"
  {
    assert Plain(t[0]) && Plain(t[1]) && Plain(t[2]) && Plain(t[3]);
    SplitDotted(t);
    JoinFour(t);
    assert "192" + "." + "168" + "." + "147" + "." + "00" == "192.168.147.00";
  }

  lemma LenientOctets()
    ensures ParseU8("192") == Some(192) && ParseU8("168") == Some(168) && ParseU8("147") == Some(147)
  {
    ClassCDecimals();
    ParseU8ToDecimal(192);
    ParseU8ToDecimal(168);
    ParseU8ToDecimal(147);
  }

  lemma LenientPieces()
    ensures ParseU8("192") == Some(192) && ParseU8("168") == Some(168) && ParseU8("147") == Some(147)
    ensures ParseU8("00") == Some(0) && ParseU8("+28") == Some(28)
  {
    LenientOctets();
    assert "00"[..1] == "0";
    ParsesAs("00", 0);
    assert UnsignedDigits("+28") == "28" && "28"[..1] == "2";
    ParsesAs("+28", 28);
  }

  /** Text of four octets and a mask length parses as the network the octets assemble to. */
  lemma ParsesAsNetwork(a: bv8, b: bv8, c: bv8, d: bv8, len: bv8, text: string, address: bv32)
    requires text == CidrText(a, b, c, d, len)
    requires len <= 32 && address == Assemble(a, b, c, d) && Detect(address).None?
    ensures ParseNetwork(text) == Ok(Network.Network(address, len))
  {
    ParseCidrText(a, b, c, d, len);
    AssembledNetwork(a, b, c, d, len, address);
  }

  lemma AssembledNetwork(a: bv8, b: bv8, c: bv8, d: bv8, len: bv8, address: bv32)
    requires len <= 32 && address == Assemble(a, b, c, d) && Detect(address).None?
    ensures FromParts(a, b, c, d, len) == Ok(Network.Network(address, len))
  {
    LeadingOctet(a, b, c, d);
    var r := FromParts(a, b, c, d, len);
    AssembleOctets(r.value.address);
  }

  /** `test_network_class`, the class A row (its class is in ClassExamples). */
  lemma ParseClassA()
    ensures ParseNetwork("125.0.0.0/0") == Ok(Network.Network(0x7D00_0000, 0))
  {
    TextA();
    ParsesAsNetwork(125, 0, 0, 0, 0, "125.0.0.0/0", 0x7D00_0000);
  }

  /** `test_network_class`, the class B row. */
  lemma ParseClassB()
    ensures ParseNetwork("128.122.0.0/0") == Ok(Network.Network(0x807A_0000, 0))
  {
    TextB();
    ParsesAsNetwork(128, 122, 0, 0, 0, "128.122.0.0/0", 0x807A_0000);
  }

  /** `test_network_class`, the class D row. */
  lemma ParseClassD()
    ensures ParseNetwork("224.12.98.255/0") == Ok(Network.Network(0xE00C_62FF, 0))
  {
    Decimal1(0, "0");
    ParseClassDOf(0, "0");
    assert "224.12.98.255/0" == "224.12.98.255/" + "0";
  }

  /** 224.12.98.255 with any mask length up to 32 parses; a class D address is not reserved. */
  lemma ParseClassDOf(len: bv8, tl: string)
    requires len <= 32 && ToDecimal(len as int) == tl
    ensures ParseNetwork("224.12.98.255/" + tl) == Ok(Network.Network(0xE00C_62FF, len))
  {
    ClassDText(len, tl);
    ParsesAsNetwork(224, 12, 98, 255, len, "224.12.98.255/" + tl, 0xE00C_62FF);
  }

  /** `test_network_class`, the class E row. */
  lemma ParseClassE()
    ensures ParseNetwork("255.255.255.254/32") == Ok(Network.Network(0xFFFF_FFFE, 32))
  {
    Decimal2(32, "32");
    ClassEText(32, "32");
    ParsesAsNetwork(255, 255, 255, 254, 32, "255.255.255.254/" + "32", 0xFFFF_FFFE);
    assert "255.255.255.254/32" == "255.255.255.254/" + "32";
  }

  lemma TextA()
    ensures CidrText(125, 0, 0, 0, 0) == "125.0.0.0/0"
  {
    Decimal3(125, "125");
    Decimal1(0, "0");
    CidrTextOf(125, 0, 0, 0, 0, "125", "0", "0", "0", "0");
    assert "125" + "." + "0" + "." + "0" + "." + "0" + "/" + "0" == "125.0.0.0/0";
  }

  lemma TextB()
    ensures CidrText(128, 122, 0, 0, 0) == "128.122.0.0/0"
  {
    Decimal3(128, "128");
    Decimal3(122, "122");
    Decimal1(0, "0");
    CidrTextOf(128, 122, 0, 0, 0, "128", "122", "0", "0", "0");
    assert "128" + "." + "122" + "." + "0" + "." + "0" + "/" + "0" == "128.122.0.0/0";
  }

  lemma ClassDText(len: bv8, tl: string)
    requires ToDecimal(len as int) == tl
    ensures CidrText(224, 12, 98, 255, len) == "224.12.98.255/" + tl
  {
    Decimal3(224, "224");
    Decimal2(12, "12");
    Decimal2(98, "98");
    Decimal3(255, "255");
    CidrTextOf(224, 12, 98, 255, len, "224", "12", "98", "255", tl);
    assert "224" + "." + "12" + "." + "98" + "." + "255" + "/" == "224.12.98.255/";
  }

  lemma ClassEText(len: bv8, tl: string)
    requires ToDecimal(len as int) == tl
    ensures CidrText(255, 255, 255, 254, len) == "255.255.255.254/" + tl
  {
    Decimal3(255, "255");
    Decimal3(254, "254");
    CidrTextOf(255, 255, 255, 254, len, "255", "255", "255", "254", tl);
    assert "255" + "." + "255" + "." + "255" + "." + "254" + "/" == "255.255.255.254/";
  }

  // ---------------------------------------------------------------------------
  // Reserved addresses

  /** `test_reserved_addresses`: loopback and local broadcast bases are refused. */
  lemma ParseReserved()
    ensures ParseNetwork("127.0.0.1/0") == Err(Errors.ReservedAddress(Loopback))
    ensures ParseNetwork("255.255.255.255/32") == Err(Errors.ReservedAddress(LocalBroadcast))
  {
    ParseLoopback();
    ParseLocalBroadcast();
  }

  lemma ParseLoopback()
    ensures ParseNetwork("127.0.0.1/0") == Err(Errors.ReservedAddress(Loopback))
  {
    Decimal1(0, "0");
    LoopbackText(0, "0");
    ParseCidrText(127, 0, 0, 1, 0);
    assert "127.0.0.1/0" == "127.0.0.1/" + "0";
  }

  lemma ParseLocalBroadcast()
    ensures ParseNetwork("255.255.255.255/32") == Err(Errors.ReservedAddress(LocalBroadcast))
  {
    Decimal2(32, "32");
    LocalBroadcastText(32, "32");
    ParseCidrText(255, 255, 255, 255, 32);
    assert "255.255.255.255/32" == "255.255.255.255/" + "32";
  }

  /** A mask length above 32 is refused before the reserved base is looked at. */
  lemma ParseMaskBeforeReserved()
    ensures ParseNetwork("127.0.0.1/33") == Err(Errors.InvalidSubnetMask)
  {
    Decimal2(33, "33");
    LoopbackText(33, "33");
    ParseCidrText(127, 0, 0, 1, 33);
    assert "127.0.0.1/33" == "127.0.0.1/" + "33";
  }

  lemma LoopbackText(len: bv8, tl: string)
    requires ToDecimal(len as int) == tl
    ensures CidrText(127, 0, 0, 1, len) == "127.0.0.1/" + tl
  {
    Decimal3(127, "127");
    Decimal1(0, "0");
    Decimal1(1, "1");
    CidrTextOf(127, 0, 0, 1, len, "127", "0", "0", "1", tl);
    assert "127" + "." + "0" + "." + "0" + "." + "1" + "/" == "127.0.0.1/";
  }

  lemma LocalBroadcastText(len: bv8, tl: string)
    requires ToDecimal(len as int) == tl
    ensures CidrText(255, 255, 255, 255, len) == "255.255.255.255/" + tl
  {
    Decimal3(255, "255");
    CidrTextOf(255, 255, 255, 255, len, "255", "255", "255", "255", tl);
    assert "255" + "." + "255" + "." + "255" + "." + "255" + "/" == "255.255.255.255/";
  }

  // ---------------------------------------------------------------------------
  // Masks and counts of 192.168.147.0

  lemma SmallPowers()
    ensures Pow2(3) == 8 && Pow2(4) == 16 && Pow2(5) == 32 && Pow2(6) == 64 && Pow2(7) == 128 && Pow2(8) == 256
  {
    assert Pow2(2) == 4;
  }

  /** `test_netmask` and `test_subnet_mask`. */
  lemma MasksExample()
    ensures NetMask(ClassC(28)) == Some(0xFFFF_FF00)
    ensures SubnetMask(ClassC(28)) == 0xFFFF_FFF0
  {
    NetMaskIsPrefix(ClassC(28));
  }

  /** 192.168.147.0 is a class C address, whatever the mask length. */
  lemma ClassCIsC(len: bv8)
    requires len <= 32
    ensures NetworkClass(ClassC(len)) == C
  {
    ClassExamples();
  }

  /** The subnet count of 192.168.147.0 with a mask longer than its 24 network bits. */
  lemma SubnetCountOf(len: bv8, expected: nat)
    requires 24 < len <= 32 && expected == Pow2((len - 24) as int) - 2
    ensures HasSubnetCount(ClassC(len)) && NumSubnets(ClassC(len)).Some?
    ensures Value(NumSubnets(ClassC(len)).value) == expected
  {
    ClassCIsC(len);
  }

  /** `test_num_subnets`: the subnet counts for the mask lengths of the table. */
  lemma SubnetCountTable()
    ensures HasSubnetCount(ClassC(0)) && NumSubnets(ClassC(0)) == Some(0)
    ensures HasSubnetCount(ClassC(27)) && Value(NumSubnets(ClassC(27)).value) == 6
    ensures HasSubnetCount(ClassC(28)) && Value(NumSubnets(ClassC(28)).value) == 14
    ensures HasSubnetCount(ClassC(30)) && Value(NumSubnets(ClassC(30)).value) == 62
    ensures HasSubnetCount(ClassC(31)) && Value(NumSubnets(ClassC(31)).value) == 126
    ensures HasSubnetCount(ClassC(32)) && Value(NumSubnets(ClassC(32)).value) == 254
  {
    SmallPowers();
    ClassCIsC(0);
    SubnetCountOf(27, 6);
    SubnetCountOf(28, 14);
    SubnetCountOf(30, 62);
    SubnetCountOf(31, 126);
    SubnetCountOf(32, 254);
  }

  /** The hosts per subnet of 192.168.147.0 with a mask of 1 to 30 bits. */
  lemma HostCountOf(len: bv8, expected: nat)
    requires 0 < len <= 30 && expected == Pow2((32 - len) as int) - 2
    ensures Value(NumHostsPerSubnet(ClassC(len))) == expected
  {
  }

  /** `test_num_hosts_per_subnet`: the hosts per subnet for the mask lengths of the table. */
  lemma HostCountTable()
    ensures Value(NumHostsPerSubnet(ClassC(0))) == 254
    ensures Value(NumHostsPerSubnet(ClassC(27))) == 30
    ensures Value(NumHostsPerSubnet(ClassC(28))) == 14
    ensures Value(NumHostsPerSubnet(ClassC(30))) == 2
    ensures NumHostsPerSubnet(ClassC(31)) == 0
    ensures NumHostsPerSubnet(ClassC(32)) == 0
  {
    SmallPowers();
    assert Pow2(2) == 4;
    ClassCIsC(0);
    HostCountOf(27, 30);
    HostCountOf(28, 14);
    HostCountOf(30, 2);
  }

  /** `test_network_display`: the class, the subnet count and the hosts per subnet on three lines. */
  lemma SummaryExample()
    ensures Summary(ClassC(28)) == "class C network" + "\nSubnets:      " + "14" + "\nHosts/subnet: " + "14"
  {
    SummaryCounts();
    SummaryLinesExample();
  }

  lemma SummaryCounts()
    ensures Summary(ClassC(28)) == SummaryLines(C, Some(14), 14)
  {
    var net := ClassC(28);
    SubnetCountOf(28, 14) by { SmallPowers(); }
    HostCountOf(28, 14) by { SmallPowers(); }
    ClassCIsC(28);
    assert NumSubnets(net).Map(Value) == Some(14);
  }

  lemma SummaryLinesExample()
    ensures SummaryLines(C, Some(14), 14) == "class C network" + "\nSubnets:      " + "14" + "\nHosts/subnet: " + "14"
  {
    Decimal2(14, "14");
  }

  // ---------------------------------------------------------------------------
  // Address listings

  /**
   * `test_addresses_iter_class_c`: 192.168.147.0/28 lists the network, the
   * 224 addresses of subnets 1 to 14, and the network broadcast.
   */
  lemma AddressesClassCEnds()
    ensures HasAddressList(ClassC(28)) && |Addresses(ClassC(28))| == 226
    ensures Addresses(ClassC(28))[0].Label() == "class C network"
    ensures Addresses(ClassC(28))[225].Label() == "network broadcast"
  {
    AddressesClassCLength();
    ClassCIsC(28);
    MasksExample();
    FramedLabels(Addresses(ClassC(28)), C);
  }

  lemma FramedLabels(r: seq<AddressType>, c: Class)
    requires |r| == 226 && r[0].Network? && r[0].networkClass == c && r[|r| - 1].NetworkBroadcast?
    ensures r[0].Label() == c.Label() && r[225].Label() == "network broadcast"
  {
  }

  lemma AddressesClassCLength()
    ensures HasAddressList(ClassC(28)) && |Addresses(ClassC(28))| == 226
  {
    var net := ClassC(28);
    ClassCIsC(28);
    assert NetworkClass(net).NetworkBits() == Some(24);
    ListingLength(24, 28);
  }

  /**
   * 2^8 - 2 * 2^4 + 2 entries for 24 network bits and a 28-bit subnet mask.
   * The lengths are parameters so that the byte arithmetic stays symbolic.
   */
  lemma ListingLength(n: bv8, len: bv8)
    requires n == 24 && len == 28
    ensures Pow2((32 - n) as int) - 2 * Pow2((32 - len) as int) + 2 == 226
  {
    assert (32 - n) as int == 8 && (32 - len) as int == 4;
    SmallPowers();
  }

  /** `test_addresses_iter_class_c`: the roles of the entries the test looks at. */
  lemma AddressesClassCRoles()
    ensures HasAddressList(ClassC(28)) && |Addresses(ClassC(28))| == 226
    ensures var r := Addresses(ClassC(28));
            r[1].Label() == "subnet" && r[2].Label() == "host" && r[15].Label() == "host"
            && r[16].Label() == "subnet broadcast" && r[17].Label() == "subnet" && r[18].Label() == "host"
            && r[224].Label() == "subnet broadcast"
  {
    AddressesClassCLength();
    MasksExample();
    BaseHasNoHostBits();
    AddressesByPosition(ClassC(28), 0xFFFF_FF00);
    SubnetSize(28);
    LabelsByPosition(Addresses(ClassC(28)), 16);
  }

  /** A 28-bit subnet mask leaves subnets of 2^4 = 16 addresses (a parameter, as in ListingLength). */
  lemma SubnetSize(len: bv8)
    requires len == 28
    ensures Pow2((32 - len) as int) == 16
  {
    assert (32 - len) as int == 4;
    SmallPowers();
  }

  lemma LabelsByPosition(r: seq<AddressType>, p: nat)
    requires |r| == 226 && p == 16
    requires forall j :: 0 < j < |r| - 1 ==> r[j].Label() == PositionLabel(j, p)
    ensures r[1].Label() == "subnet" && r[2].Label() == "host" && r[15].Label() == "host"
            && r[16].Label() == "subnet broadcast" && r[17].Label() == "subnet" && r[18].Label() == "host"
            && r[224].Label() == "subnet broadcast"
  {
    assert r[1].Label() == PositionLabel(1, p);
    assert r[2].Label() == PositionLabel(2, p);
    assert r[15].Label() == PositionLabel(15, p);
    assert r[16].Label() == PositionLabel(16, p);
    assert r[17].Label() == PositionLabel(17, p);
    assert r[18].Label() == PositionLabel(18, p);
    assert r[224].Label() == PositionLabel(224, p);
  }

  lemma BaseHasNoHostBits()
    ensures HostBitsZero(0xC0A8_9300, 0xFFFF_FFF0)
  {
  }

  /** `test_addresses_iter_class_d`: a class D network lists only itself. */
  lemma AddressesClassD()
    ensures var net := Network.Network(0xE00C_62FF, 28);
            HasAddressList(net) && |Addresses(net)| == 1 && Addresses(net)[0].Label() == "class D network"
  {
    ClassExamples();
  }

  /** `test_addresses_iter_class_d`: the text of that network parses. */
  lemma ParseClassDExample()
    ensures ParseNetwork("224.12.98.255/28") == Ok(Network.Network(0xE00C_62FF, 28))
  {
    Decimal2(28, "28");
    ParseClassDOf(28, "28");
    assert "224.12.98.255/28" == "224.12.98.255/" + "28";
  }

  // ---------------------------------------------------------------------------
  // Subnet listing

  lemma SmallWords()
    ensures Word(1) == 1 && Word(2) == 2 && Word(3) == 3 && Word(4) == 4 && Word(5) == 5
    ensures Word(6) == 6 && Word(7) == 7 && Word(8) == 8 && Word(9) == 9 && Word(10) == 10
    ensures Word(11) == 11 && Word(12) == 12 && Word(13) == 13 && Word(14) == 14
  {
    assert Word(1) == 1;
    assert Word(2) == 2;
    assert Word(3) == 3;
    assert Word(4) == 4;
    assert Word(5) == 5;
    assert Word(6) == 6;
    assert Word(7) == 7;
    assert Word(8) == 8;
    assert Word(9) == 9;
    assert Word(10) == 10;
    assert Word(11) == 11;
    assert Word(12) == 12;
    assert Word(13) == 13;
  }

  /** `test_subnet_iter`: the fourteen subnets of 192.168.147.0/28, 192.168.147.16 to 192.168.147.224. */
  lemma SubnetsExample()
    ensures HasSubnetCount(ClassC(28))
    ensures Subnets(ClassC(28))
         == [0xC0A8_9310, 0xC0A8_9320, 0xC0A8_9330, 0xC0A8_9340, 0xC0A8_9350, 0xC0A8_9360, 0xC0A8_9370,
             0xC0A8_9380, 0xC0A8_9390, 0xC0A8_93A0, 0xC0A8_93B0, 0xC0A8_93C0, 0xC0A8_93D0, 0xC0A8_93E0]
  {
    SubnetCountOf(28, 14) by { SmallPowers(); }
    SmallWords();
    var r := Subnets(ClassC(28));
    assert |r| == 14;
    assert r == SubnetList(0xC0A8_9300, 28, NumSubnets(ClassC(28)).value);
    SubnetFields(r);
  }

  /**
   * 192.168.13.160/28, a base whose subnet field is not zero (160 is 1010 in
   * the field): `subnets()` or-s each number onto it, so 1 and 3 both give
   * 192.168.13.176.
   */
  function Unaligned(): ValidNetwork
  {
    assert Detect(0xC0A8_0DA0).None?;
    Network.Network(0xC0A8_0DA0, 28)
  }

  lemma UnalignedSubnetsRepeat()
    ensures HasSubnetCount(Unaligned()) && |Subnets(Unaligned())| == 14
    ensures Subnets(Unaligned())[0] == 0xC0A8_0DB0 && Subnets(Unaligned())[2] == 0xC0A8_0DB0
  {
    assert Classify(0xC0A8_0DA0) == C;
    SmallPowers();
    SmallWords();
    var r := Subnets(Unaligned());
    assert |r| == 14;
    assert r[0] == SubnetAddress(0xC0A8_0DA0, Word(1), 4);
    assert r[2] == SubnetAddress(0xC0A8_0DA0, Word(3), 4);
  }

  lemma SubnetFields(r: seq<bv32>)
    requires |r| == 14
    requires forall j :: 0 <= j < 14 ==> r[j] == SubnetAddress(0xC0A8_9300, Word(j + 1), 4)
    requires Word(1) == 1 && Word(2) == 2 && Word(3) == 3 && Word(4) == 4 && Word(5) == 5
    requires Word(6) == 6 && Word(7) == 7 && Word(8) == 8 && Word(9) == 9 && Word(10) == 10
    requires Word(11) == 11 && Word(12) == 12 && Word(13) == 13 && Word(14) == 14
    ensures r == [0xC0A8_9310, 0xC0A8_9320, 0xC0A8_9330, 0xC0A8_9340, 0xC0A8_9350, 0xC0A8_9360, 0xC0A8_9370,
                  0xC0A8_9380, 0xC0A8_9390, 0xC0A8_93A0, 0xC0A8_93B0, 0xC0A8_93C0, 0xC0A8_93D0, 0xC0A8_93E0]
  {
  }

  /** The first subnet displays as 192.168.147.16. */
  lemma FirstSubnetText()
    ensures DottedDecimal(0xC0A8_9310) == "192" + "." + "168" + "." + "147" + "." + "16"
  {
    ClassCDecimals();
    Decimal2(16, "16");
  }
}
