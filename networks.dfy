/**
 * A network: a base address and a subnet mask length, and the queries on it
 * (snet/src/ipv4.rs, `Network`).
 */
module Networks {
  import opened Wrappers
  import opened Words
  import opened Classes
  import opened Reserved
  import opened Address
  import opened Decimal
  import Errors

  /** The base address and the subnet mask length of a network. */
  datatype Network = Network(address: bv32, subnetMaskLen: bv8) {

    /** What every constructed network satisfies: a mask of at most 32 bits and a base that is not reserved. */
    predicate Valid()
    {
      subnetMaskLen <= 32 && Detect(address).None?
    }
  }

  /** The networks the constructors can produce; the source keeps the fields private. */
  type ValidNetwork = n: Network | n.Valid() witness Network.Network(0, 0)

  // ---------------------------------------------------------------------------
  // Construction

  /**
   * `from_dotted_decimal_parts`: a mask length above 32 is refused first, then
   * a reserved base address, and otherwise the network keeps the assembled
   * address and the mask length unchanged.
   */
  function FromParts(a: bv8, b: bv8, c: bv8, d: bv8, len: bv8): (r: Result<ValidNetwork, Errors.Error>)
    ensures len > 32 ==> r == Err(Errors.InvalidSubnetMask)
    ensures len <= 32 && a == 127 ==> r == Err(Errors.ReservedAddress(Loopback))
    ensures len <= 32 && a == 255 && b == 255 && c == 255 && d == 255 ==> r == Err(Errors.ReservedAddress(LocalBroadcast))
    ensures r.Ok? <==> len <= 32 && a != 127 && !(a == 255 && b == 255 && c == 255 && d == 255)
    ensures r.Ok? ==> r.value.subnetMaskLen == len
    ensures r.Ok? ==> var x := r.value.address;
                      Octet(x, 3) == a && Octet(x, 2) == b && Octet(x, 1) == c && Octet(x, 0) == d
  {
    OctetsOfAssemble(a, b, c, d);
    LeadingOctet(a, b, c, d);
    if len > 32 then
      Err(Errors.InvalidSubnetMask)
    else
      var address := Assemble(a, b, c, d);
      match Detect(address)
      case Some(kind) => Err(Errors.ReservedAddress(kind))
      case None => Ok(Network.Network(address, len))
  }

  /** A network is what building it from its own octets and mask length gives. */
  lemma FromOwnParts(net: ValidNetwork)
    ensures FromParts(Octet(net.address, 3), Octet(net.address, 2), Octet(net.address, 1), Octet(net.address, 0),
                      net.subnetMaskLen) == Ok(net)
  {
    var x := net.address;
    var a, b, c, d := Octet(x, 3), Octet(x, 2), Octet(x, 1), Octet(x, 0);
    AssembleOctets(x);
    LeadingOctet(a, b, c, d);
    var r := FromParts(a, b, c, d, net.subnetMaskLen);
    AssembleOctets(r.value.address);
  }

  // ---------------------------------------------------------------------------
  // Masks

  /** `class()`: the class of the base address. */
  function NetworkClass(net: ValidNetwork): Class
  {
    Classify(net.address)
  }

  /** `net_mask()`: the mask of the class's network bits; D and E have none. */
  function NetMask(net: ValidNetwork): (r: Option<bv32>)
    ensures r.Some? <==> NetworkClass(net).NetworkBits().Some?
  {
    match NetworkClass(net).NetworkBits()
    case None => None
    case Some(n) => Some(AllOnes << (32 - n))
  }

  /** The net mask of a class A, B or C network is 8, 16 or 24 one bits followed by zero bits. */
  lemma NetMaskIsPrefix(net: ValidNetwork)
    ensures NetMask(net).Some? ==> IsPrefixMask(NetMask(net).value, NetworkClass(net).NetworkBits().value)
    ensures NetworkClass(net) == A ==> NetMask(net) == Some(0xFF00_0000)
    ensures NetworkClass(net) == B ==> NetMask(net) == Some(0xFFFF_0000)
    ensures NetworkClass(net) == C ==> NetMask(net) == Some(0xFFFF_FF00)
  {
    if NetMask(net).Some? {
      PrefixMaskBits(NetworkClass(net).NetworkBits().value);
    }
  }

  /** `subnet_mask()`: zero without a subnet mask length. */
  function SubnetMask(net: ValidNetwork): (r: bv32)
    ensures r == 0 <==> net.subnetMaskLen == 0
  {
    if net.subnetMaskLen == 0 then 0 else AllOnes << (32 - net.subnetMaskLen)
  }

  /** The subnet mask consists of subnetMaskLen one bits followed by zero bits. */
  lemma SubnetMaskIsPrefix(net: ValidNetwork)
    ensures IsPrefixMask(SubnetMask(net), net.subnetMaskLen)
  {
    if net.subnetMaskLen != 0 {
      PrefixMaskBits(net.subnetMaskLen);
    }
  }

  // ---------------------------------------------------------------------------
  // Counts

  /**
   * When the subnet count is defined without wrapping around: classes D and
   * E, no subnet mask, or a subnet mask longer than the class's network bits.
   */
  predicate HasSubnetCount(net: ValidNetwork)
  {
    match NetworkClass(net).NetworkBits()
    case None => true
    case Some(n) => net.subnetMaskLen == 0 || net.subnetMaskLen > n
  }

  /**
   * `num_subnets()`: none for classes D and E, 0 without a subnet mask, and
   * otherwise 2^(len - n) - 2, the subnet fields other than all zeros and all
   * ones.
   */
  function NumSubnets(net: ValidNetwork): (r: Option<bv32>)
    requires HasSubnetCount(net)
    ensures r.None? <==> NetworkClass(net).NetworkBits().None?
    ensures r.Some? && net.subnetMaskLen == 0 ==> r.value == 0
    ensures r.Some? && net.subnetMaskLen != 0 ==>
              Value(r.value) == Pow2((net.subnetMaskLen - NetworkClass(net).NetworkBits().value) as int) - 2
  {
    match NetMask(net)
    case None => None
    case Some(netMask) => Some(SubnetCount(net, netMask))
  }

  /** The subnet count of a network of class A, B or C, given its net mask. */
  function SubnetCount(net: ValidNetwork, netMask: bv32): (r: bv32)
    requires HasSubnetCount(net) && NetMask(net) == Some(netMask)
    ensures SubnetMask(net) == 0 ==> r == 0
    ensures SubnetMask(net) != 0 ==>
              Value(r) == Pow2((net.subnetMaskLen - NetworkClass(net).NetworkBits().value) as int) - 2
  {
    var subnetMask := SubnetMask(net);
    if subnetMask == 0 then
      0
    else
      SubnetMaskZeros(net);
      ByteOfCount(32 - net.subnetMaskLen);
      var zeros := CountZeros(subnetMask) as bv8;
      SubnetCountValue(net, netMask, subnetMask, zeros);
      ((netMask ^ subnetMask) >> zeros) - 1
  }

  /** A subnet mask of len bits has 32 - len zero bits. */
  lemma SubnetMaskZeros(net: ValidNetwork)
    requires net.subnetMaskLen != 0
    ensures CountZeros(SubnetMask(net)) == (32 - net.subnetMaskLen) as int
  {
    CountZerosPrefixMask(32 - net.subnetMaskLen);
  }

  lemma SubnetCountValue(net: ValidNetwork, netMask: bv32, subnetMask: bv32, zeros: bv8)
    requires HasSubnetCount(net) && NetMask(net) == Some(netMask)
    requires subnetMask == SubnetMask(net) && subnetMask != 0
    requires zeros == 32 - net.subnetMaskLen
    ensures Value(((netMask ^ subnetMask) >> zeros) - 1)
         == Pow2((net.subnetMaskLen - NetworkClass(net).NetworkBits().value) as int) - 2
  {
    var n := NetworkClass(net).NetworkBits().value;
    var len := net.subnetMaskLen;
    assert netMask == AllOnes << (32 - n) && subnetMask == AllOnes << zeros;
    NumSubnetsValue(n, len, zeros, len - n, netMask, subnetMask, zeros);
  }

  /**
   * `num_hosts_per_subnet()`: 2^(32 - len) - 2 for a mask of 1 to 30 bits, none
   * for longer masks, and without a subnet mask the hosts of the whole classful
   * network (the 4-bit class mask standing in for D and E).
   */
  function NumHostsPerSubnet(net: ValidNetwork): (r: bv32)
    ensures net.subnetMaskLen > 30 ==> r == 0
    ensures 0 < net.subnetMaskLen <= 30 ==> Value(r) == Pow2((32 - net.subnetMaskLen) as int) - 2
    ensures net.subnetMaskLen == 0 && NetworkClass(net).NetworkBits().Some? ==>
              Value(r) == Pow2((32 - NetworkClass(net).NetworkBits().value) as int) - 2
    ensures net.subnetMaskLen == 0 && NetworkClass(net).NetworkBits().None? ==> Value(r) == Pow2(28) - 2
  {
    var len := net.subnetMaskLen;
    if len > 30 then
      0
    else if len == 0 then
      var x := !NetMask(net).GetOr(NetworkClass(net).Mask());
      match NetworkClass(net).NetworkBits()
      case Some(n) =>
        var k := 32 - n;
        LowOnesOfPrefixComplement(n, k, x);
        ValueLowOnesMinus1(x, k);
        x - 1
      case None =>
        ClassMaskComplement(NetworkClass(net).Mask(), x);
        ValueLowOnesMinus1(x, 28);
        x - 1
    else
      var x := AllOnes >> len;
      var k := 32 - len;
      LowOnesShift(len, k, x);
      ValueLowOnesMinus1(x, k);
      x - 1
  }

  // ---------------------------------------------------------------------------
  // Summary

  /**
   * The display of a network: its class, its subnet count and its hosts per
   * subnet on three lines, both counts shown as "N/A" for classes D and E.
   */
  function Summary(net: ValidNetwork): string
    requires HasSubnetCount(net)
  {
    SummaryLines(NetworkClass(net), NumSubnets(net).Map(Value), if NumSubnets(net).Some? then Value(NumHostsPerSubnet(net)) else 0)
  }

  /** The three lines of the summary, a missing subnet count showing both counts as "N/A". */
  function SummaryLines(c: Class, subnets: Option<nat>, hosts: nat): string
  {
    c.Label() + "\nSubnets:      " + (match subnets case Some(n) => ToDecimal(n) case None => "N/A")
      + "\nHosts/subnet: " + (match subnets case Some(_) => ToDecimal(hosts) case None => "N/A")
  }

  /** Classes D and E have neither count. */
  lemma SummaryWithoutCounts(net: ValidNetwork)
    requires NetworkClass(net).NetworkBits().None?
    ensures Summary(net) == NetworkClass(net).Label() + "\nSubnets:      N/A\nHosts/subnet: N/A"
  {
    assert NumSubnets(net).None?;
    NotApplicableLines(NetworkClass(net), 0);
  }

  /**
   * A network of class A, B or C with n network bits shows 2^(len - n) - 2
   * subnets (0 without a subnet mask) and 2^(32 - len) - 2 hosts per subnet
   * (0 for masks longer than 30 bits, and the hosts of the whole classful
   * network without a subnet mask).
   */
  lemma SummaryWithCounts(net: ValidNetwork, n: bv8)
    requires HasSubnetCount(net) && NetworkClass(net).NetworkBits() == Some(n)
    ensures var len := net.subnetMaskLen;
            Summary(net) == NetworkClass(net).Label()
              + "\nSubnets:      " + ToDecimal(if len == 0 then 0 else InnerCount((len - n) as int))
              + "\nHosts/subnet: "
              + ToDecimal(if len == 0 then InnerCount((32 - n) as int)
                          else if len > 30 then 0
                          else InnerCount((32 - len) as int))
  {
    SubnetsShown(net, n);
    HostsShown(net, n);
    CountLines(NetworkClass(net), Value(NumSubnets(net).value), Value(NumHostsPerSubnet(net)));
  }

  lemma SubnetsShown(net: ValidNetwork, n: bv8)
    requires HasSubnetCount(net) && NetworkClass(net).NetworkBits() == Some(n)
    ensures NumSubnets(net).Some?
    ensures var len := net.subnetMaskLen;
            Value(NumSubnets(net).value) == if len == 0 then 0 else InnerCount((len - n) as int)
  {}

  lemma HostsShown(net: ValidNetwork, n: bv8)
    requires NetworkClass(net).NetworkBits() == Some(n)
    ensures var len := net.subnetMaskLen;
            Value(NumHostsPerSubnet(net))
            == if len == 0 then InnerCount((32 - n) as int) else if len > 30 then 0 else InnerCount((32 - len) as int)
  {}

  lemma CountLines(c: Class, subnets: nat, hosts: nat)
    ensures SummaryLines(c, Some(subnets), hosts)
            == c.Label() + "\nSubnets:      " + ToDecimal(subnets) + "\nHosts/subnet: " + ToDecimal(hosts)
  {}

  /** 2^k - 2: the values of k bits other than all zeros and all ones (none when k is 0). */
  function InnerCount(k: nat): (r: nat)
    ensures k > 0 ==> r + 2 == Pow2(k)
  {
    if k == 0 then 0 else Pow2(k) - 2
  }

  lemma NotApplicableLines(c: Class, hosts: nat)
    ensures SummaryLines(c, None, hosts) == c.Label() + "\nSubnets:      N/A\nHosts/subnet: N/A"
  {
  }

  // ---------------------------------------------------------------------------
  // Bit-level facts about masks

  lemma PrefixMaskBits(len: bv8)
    requires 0 < len <= 32
    ensures IsPrefixMask(AllOnes << (32 - len), len)
  {}

  lemma SubnetFieldOnes(n: bv8, len: bv8, s: bv8, k: bv8)
    requires (n == 8 || n == 16 || n == 24) && n < len <= 32 && s == 32 - len && k == len - n
    ensures ((AllOnes << (32 - n)) ^ (AllOnes << s)) >> s == ((1 as bv32) << k) - 1
    ensures 0 < k < 32
  {
    if n == 8 {
    } else if n == 16 {
    } else {
    }
  }

  lemma NumSubnetsValue(n: bv8, len: bv8, s: bv8, k: bv8, netMask: bv32, subnetMask: bv32, zeros: bv8)
    requires (n == 8 || n == 16 || n == 24) && n < len <= 32 && s == 32 - len && k == len - n
    requires netMask == AllOnes << (32 - n) && subnetMask == AllOnes << s && zeros == s
    ensures Value(((netMask ^ subnetMask) >> zeros) - 1) == Pow2(k as int) - 2
  {
    SubnetFieldOnes(n, len, s, k);
    ValuePow2Minus2(k);
  }

  lemma ByteOfCount(s: bv8)
    ensures (s as int) as bv8 == s
  {}

  lemma LowOnesOfPrefixComplement(n: bv8, k: bv8, x: bv32)
    requires 0 < n < 32 && k == 32 - n && x == !(AllOnes << (32 - n))
    ensures 0 < k <= 32 && x == AllOnes >> (32 - k)
  {}

  lemma ClassMaskComplement(m: bv32, x: bv32)
    requires m == 0xF000_0000 && x == !m
    ensures x == AllOnes >> (32 - 28 as bv8)
  {}

  lemma LowOnesShift(len: bv8, k: bv8, x: bv32)
    requires 0 < len <= 30 && k == 32 - len && x == AllOnes >> len
    ensures 0 < k <= 32 && x == AllOnes >> (32 - k)
  {}
}
