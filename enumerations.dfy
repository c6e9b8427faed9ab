/**
 * The two listings of a network and its summary (snet/src/ipv4.rs,
 * `Network::subnets`, `Network::addresses` and the `Display` of `Network`).
 * The source produces the listings lazily as iterators; here they are
 * sequences with the same elements in the same order.
 */
module Enumerations {
  import opened Wrappers
  import opened Words
  import opened Classes
  import opened Address
  import opened Networks

  // ---------------------------------------------------------------------------
  // subnets()

  /**
   * `subnets()`: the subnet numbers 1 to `num_subnets()` (none for classes D
   * and E or without a subnet mask), each shifted into the subnet field and
   * or-ed onto the base address.
   */
  function Subnets(net: ValidNetwork): (r: seq<bv32>)
    requires HasSubnetCount(net)
    ensures NetworkClass(net).NetworkBits().None? || net.subnetMaskLen == 0 ==> r == []
    ensures NetworkClass(net).NetworkBits().Some? && net.subnetMaskLen != 0 ==>
              |r| == Pow2((net.subnetMaskLen - NetworkClass(net).NetworkBits().value) as int) - 2
  {
    SubnetList(net.address, net.subnetMaskLen, NumSubnets(net).GetOr(0))
  }

  /**
   * The addresses of subnets 1 to count of a base address with a subnet mask
   * of len bits, in order.
   */
  function SubnetList(base: bv32, len: bv8, count: bv32): (r: seq<bv32>)
    requires len <= 32
    ensures |r| == Value(count)
    ensures forall j :: 0 <= j < |r| ==> r[j] == SubnetAddress(base, Word(j + 1), 32 - len)
  {
    var ids := InclusiveRange(1, count);
    InclusiveRangeFromOne(count);
    seq(|ids|, j requires 0 <= j < |ids| => SubnetAddress(base, ids[j], 32 - len))
  }

  /**
   * The address of subnet number id: the number shifted past the s host bits
   * into the subnet field, or-ed onto the base address.
   */
  function SubnetAddress(base: bv32, id: bv32, s: bv8): bv32
    requires s <= 32
  {
    base | (id << s)
  }

  /** address lies in the same network as base: their bits under the net mask agree. */
  predicate InNetwork(address: bv32, base: bv32, netMask: bv32)
  {
    address & netMask == base & netMask
  }

  /** address and base agree in the host bits, those the subnet mask leaves out. */
  predicate SameHostBits(address: bv32, base: bv32, subnetMask: bv32)
  {
    address & !subnetMask == base & !subnetMask
  }

  /**
   * What the class of a network of class A, B or C gives: n network bits
   * (8, 16 or 24) and a net mask of n one bits followed by zeros.
   */
  predicate ClassfulMask(n: bv8, netMask: bv32)
  {
    (n == 8 || n == 16 || n == 24) && netMask == AllOnes << (32 - n)
  }

  lemma NetMaskClassful(net: ValidNetwork, netMask: bv32)
    requires NetMask(net) == Some(netMask)
    ensures ClassfulMask(NetworkClass(net).NetworkBits().value, netMask)
  {}

  lemma WordInjective(i: nat, j: nat)
    requires i < j < WordCount
    ensures Word(i) != Word(j)
  {
    ValueWord(i);
    ValueWord(j);
  }

  lemma SubnetMaskShape(net: ValidNetwork)
    requires net.subnetMaskLen != 0
    ensures SubnetMask(net) == AllOnes << (32 - net.subnetMaskLen)
  {}

  /**
   * The subnet field of an address: the bits below the net mask, shifted down
   * past the 32 - len host bits.
   */
  function SubnetField(address: bv32, netMask: bv32, len: bv8): bv32
    requires len <= 32
  {
    (address & !netMask) >> (32 - len)
  }

  /**
   * In a classful network with a subnet mask of len > n bits, subnet j of the
   * listing keeps the network part of the base, whatever its other bits ...
   */
  lemma SubnetListKeepsNetworkPart(n: bv8, len: bv8, netMask: bv32, base: bv32, count: bv32)
    requires ClassfulMask(n, netMask) && n < len <= 32
    requires Value(count) == Pow2((len - n) as int) - 2
    ensures forall j :: 0 <= j < Value(count) ==> InNetwork(SubnetList(base, len, count)[j], base, netMask)
  {
    forall j | 0 <= j < Value(count)
      ensures InNetwork(SubnetList(base, len, count)[j], base, netMask)
    {
      SubnetNumberFits(n, len, count, j);
      ShrOfSmall(Word(j + 1), len - n);
      SubnetKeepsNetworkPart(n, len, netMask, base, Word(j + 1));
    }
  }

  /** ... and its host bits (those the subnet mask leaves out) are the base's ... */
  lemma SubnetListKeepsHostBits(len: bv8, subnetMask: bv32, base: bv32, count: bv32)
    requires 0 < len <= 32 && subnetMask == AllOnes << (32 - len)
    ensures forall j :: 0 <= j < Value(count) ==> SameHostBits(SubnetList(base, len, count)[j], base, subnetMask)
  {
    forall j | 0 <= j < Value(count)
      ensures SameHostBits(SubnetList(base, len, count)[j], base, subnetMask)
    {
      SubnetKeepsHostBits(len, subnetMask, base, Word(j + 1));
    }
  }

  /** ... so with a base of zero host part it has zero host bits ... */
  lemma SubnetListHasNoHostBits(n: bv8, len: bv8, netMask: bv32, subnetMask: bv32, base: bv32, count: bv32)
    requires ClassfulMask(n, netMask) && n < len <= 32 && subnetMask == AllOnes << (32 - len)
    requires base & !netMask == 0 && Value(count) == Pow2((len - n) as int) - 2
    ensures forall j :: 0 <= j < Value(count) ==> HostBitsZero(SubnetList(base, len, count)[j], subnetMask)
  {
    forall j | 0 <= j < Value(count)
      ensures HostBitsZero(SubnetList(base, len, count)[j], subnetMask)
    {
      SubnetNumberFits(n, len, count, j);
      SubnetAddressLayout(n, len, netMask, subnetMask, base, Word(j + 1));
    }
  }

  /** ... and carries the number j + 1 in its subnet field. */
  lemma SubnetListNumbered(n: bv8, len: bv8, netMask: bv32, subnetMask: bv32, base: bv32, count: bv32)
    requires ClassfulMask(n, netMask) && n < len <= 32 && subnetMask == AllOnes << (32 - len)
    requires base & !netMask == 0 && Value(count) == Pow2((len - n) as int) - 2
    ensures forall j :: 0 <= j < Value(count) ==> SubnetField(SubnetList(base, len, count)[j], netMask, len) == Word(j + 1)
  {
    forall j | 0 <= j < Value(count)
      ensures SubnetField(SubnetList(base, len, count)[j], netMask, len) == Word(j + 1)
    {
      SubnetNumberFits(n, len, count, j);
      SubnetAddressLayout(n, len, netMask, subnetMask, base, Word(j + 1));
    }
  }

  /** The number j + 1 of a listed subnet fits in the len - n bits of the subnet field. */
  lemma SubnetNumberFits(n: bv8, len: bv8, count: bv32, j: nat)
    requires n < len <= 32 && Value(count) == Pow2((len - n) as int) - 2 && j < Value(count)
    ensures Value(Word(j + 1)) == j + 1 < Pow2((len - n) as int)
  {
    Pow2Monotonic((len - n) as int, 32);
    WordCountPower();
    ValueWord(j + 1);
  }

  /** Subnet number id, when it fits in the subnet field, lands in it and nowhere else. */
  lemma SubnetAddressLayout(n: bv8, len: bv8, netMask: bv32, subnetMask: bv32, base: bv32, id: bv32)
    requires ClassfulMask(n, netMask) && n < len <= 32 && subnetMask == AllOnes << (32 - len)
    requires base & !netMask == 0 && Value(id) < Pow2((len - n) as int)
    ensures InNetwork(SubnetAddress(base, id, 32 - len), base, netMask)
    ensures HostBitsZero(SubnetAddress(base, id, 32 - len), subnetMask)
    ensures SubnetField(SubnetAddress(base, id, 32 - len), netMask, len) == id
  {
    ShrOfSmall(id, len - n);
    SubnetKeepsNetworkPart(n, len, netMask, base, id);
    SubnetHasNoHostBits(n, len, netMask, subnetMask, base, id);
    SubnetFieldHoldsNumber(n, len, netMask, base, id);
  }

  /** The subnets listed for such a network are pairwise distinct. */
  lemma SubnetListDistinct(n: bv8, len: bv8, netMask: bv32, subnetMask: bv32, base: bv32, count: bv32)
    requires ClassfulMask(n, netMask) && n < len <= 32 && subnetMask == AllOnes << (32 - len)
    requires base & !netMask == 0 && Value(count) == Pow2((len - n) as int) - 2
    ensures forall i, j :: 0 <= i < j < Value(count) ==> SubnetList(base, len, count)[i] != SubnetList(base, len, count)[j]
  {
    SubnetListNumbered(n, len, netMask, subnetMask, base, count);
    Pow2Monotonic((len - n) as int, 32);
    WordCountPower();
    DistinctWhenNumbered(SubnetList(base, len, count), netMask, len);
  }

  /** Addresses whose subnet fields hold the distinct numbers 1, 2, ... are distinct. */
  lemma DistinctWhenNumbered(xs: seq<bv32>, netMask: bv32, len: bv8)
    requires |xs| < WordCount && len <= 32
    requires forall j :: 0 <= j < |xs| ==> SubnetField(xs[j], netMask, len) == Word(j + 1)
    ensures forall i, j :: 0 <= i < j < |xs| ==> xs[i] != xs[j]
  {
    forall i, j | 0 <= i < j < |xs|
      ensures xs[i] != xs[j]
    {
      WordInjective(i + 1, j + 1);
    }
  }

  /**
   * What the listing lemmas need of a network of class A, B or C with a
   * subnet mask: its class gives a classful net mask shorter than the subnet
   * mask, and `subnets()` lists num_subnets() subnets of its base address.
   */
  lemma SubnetsShape(net: ValidNetwork, netMask: bv32)
    requires HasSubnetCount(net) && NetMask(net) == Some(netMask) && net.subnetMaskLen != 0
    ensures var n := NetworkClass(net).NetworkBits().value;
            ClassfulMask(n, netMask) && n < net.subnetMaskLen <= 32
            && SubnetMask(net) == AllOnes << (32 - net.subnetMaskLen)
            && Value(NumSubnets(net).value) == Pow2((net.subnetMaskLen - n) as int) - 2
            && Subnets(net) == SubnetList(net.address, net.subnetMaskLen, NumSubnets(net).value)
  {
    NetMaskClassful(net, netMask);
    SubnetMaskShape(net);
  }

  /** Every subnet listed for a network of class A, B or C keeps the network part of its base. */
  lemma SubnetsKeepNetworkPart(net: ValidNetwork, netMask: bv32)
    requires HasSubnetCount(net) && NetMask(net) == Some(netMask)
    ensures forall j :: 0 <= j < |Subnets(net)| ==> InNetwork(Subnets(net)[j], net.address, netMask)
  {
    if net.subnetMaskLen != 0 {
      SubnetsShape(net, netMask);
      SubnetListKeepsNetworkPart(NetworkClass(net).NetworkBits().value, net.subnetMaskLen, netMask, net.address, NumSubnets(net).value);
    }
  }

  /**
   * Every subnet listed for a network keeps the host bits of the base, so a
   * base with host bits set repeats them in every subnet address.
   */
  lemma SubnetsKeepHostBits(net: ValidNetwork)
    requires HasSubnetCount(net)
    ensures forall j :: 0 <= j < |Subnets(net)| ==> SameHostBits(Subnets(net)[j], net.address, SubnetMask(net))
  {
    if NetMask(net).Some? && net.subnetMaskLen != 0 {
      SubnetsShape(net, NetMask(net).value);
      SubnetListKeepsHostBits(net.subnetMaskLen, SubnetMask(net), net.address, NumSubnets(net).value);
    }
  }

  /**
   * When the base has a zero host part under the class net mask, every listed
   * subnet has no host bits: it is the address of a subnet, not of a host ...
   */
  lemma SubnetsHaveNoHostBits(net: ValidNetwork, netMask: bv32)
    requires HasSubnetCount(net) && NetMask(net) == Some(netMask) && net.address & !netMask == 0
    ensures forall j :: 0 <= j < |Subnets(net)| ==> HostBitsZero(Subnets(net)[j], SubnetMask(net))
  {
    if net.subnetMaskLen != 0 {
      SubnetsShape(net, netMask);
      SubnetListHasNoHostBits(NetworkClass(net).NetworkBits().value, net.subnetMaskLen, netMask, SubnetMask(net), net.address, NumSubnets(net).value);
    }
  }

  /** ... and subnet j (from 0) carries the number j + 1 in its subnet field. */
  lemma SubnetsNumbered(net: ValidNetwork, netMask: bv32)
    requires HasSubnetCount(net) && NetMask(net) == Some(netMask) && net.address & !netMask == 0
    ensures forall j :: 0 <= j < |Subnets(net)| ==> SubnetField(Subnets(net)[j], netMask, net.subnetMaskLen) == Word(j + 1)
  {
    if net.subnetMaskLen != 0 {
      SubnetsShape(net, netMask);
      SubnetListNumbered(NetworkClass(net).NetworkBits().value, net.subnetMaskLen, netMask, SubnetMask(net), net.address, NumSubnets(net).value);
    }
  }

  /** ... so no subnet is listed twice. */
  lemma SubnetsDistinct(net: ValidNetwork, netMask: bv32)
    requires HasSubnetCount(net) && NetMask(net) == Some(netMask) && net.address & !netMask == 0
    ensures forall i, j :: 0 <= i < j < |Subnets(net)| ==> Subnets(net)[i] != Subnets(net)[j]
  {
    if net.subnetMaskLen != 0 {
      SubnetsShape(net, netMask);
      SubnetListDistinct(NetworkClass(net).NetworkBits().value, net.subnetMaskLen, netMask, SubnetMask(net), net.address, NumSubnets(net).value);
    }
  }

  // ---------------------------------------------------------------------------
  // addresses()

  /**
   * When the listing is defined without wrapping around: classes D and E
   * (which list only the network), or a subnet mask longer than the class's
   * network bits. For shorter masks `!net_mask - 2 * !subnet_mask` leaves the
   * range of 32-bit words: without a subnet mask the doubling overflows, and
   * for a mask of 1 to n bits the subtraction underflows.
   */
  predicate HasAddressList(net: ValidNetwork)
  {
    match NetworkClass(net).NetworkBits()
    case None => true
    case Some(n) => net.subnetMaskLen > n
  }

  /**
   * The host bits of address (those the subnet mask leaves out) are all
   * ones: `address | subnet_mask == !0`.
   */
  predicate HostBitsAllOnes(address: bv32, subnetMask: bv32)
  {
    address | subnetMask == AllOnes
  }

  /** The host bits of address are all zeros: `!address | subnet_mask == !0`. */
  predicate HostBitsZero(address: bv32, subnetMask: bv32)
  {
    !address | subnetMask == AllOnes
  }

  /** The host bits of address denote 1. */
  predicate HostBitsOne(address: bv32, subnetMask: bv32)
  {
    address & !subnetMask == 1
  }

  /** The host bits are the low bits of an address: the complement of the mask is 2^k - 1. */
  predicate LowHostBits(subnetMask: bv32)
  {
    !subnetMask & (!subnetMask + 1) == 0
  }

  /**
   * The role `addresses()` gives a listed address, by its host bits: all ones
   * makes a subnet broadcast (checked first), all zeros a subnet, anything
   * else a host.
   */
  function Role(address: bv32, subnetMask: bv32): (r: AddressType)
    ensures r.address == address
    ensures r.SubnetBroadcast? <==> HostBitsAllOnes(address, subnetMask)
    ensures r.Subnet? <==> HostBitsZero(address, subnetMask) && !HostBitsAllOnes(address, subnetMask)
    ensures r.Host? <==> !HostBitsAllOnes(address, subnetMask) && !HostBitsZero(address, subnetMask)
  {
    if HostBitsAllOnes(address, subnetMask) then SubnetBroadcast(address)
    else if HostBitsZero(address, subnetMask) then Subnet(address)
    else Host(address)
  }

  /**
   * The roles by position within a subnet of 2^(32 - len) addresses: the
   * last address of each subnet is its broadcast, the first (when the subnet
   * has more than one address) the subnet itself, the others are hosts.
   */
  lemma RoleByValue(address: bv32, len: bv8, subnetMask: bv32)
    requires len <= 32 && subnetMask == AllOnes << (32 - len)
    ensures var p := Pow2((32 - len) as int);
            && (Role(address, subnetMask).SubnetBroadcast? <==> Value(address) % p == p - 1)
            && (Role(address, subnetMask).Subnet? <==> Value(address) % p == 0 && len < 32)
            && (Role(address, subnetMask).Host? <==> 0 < Value(address) % p < p - 1)
  {
    var b := 32 - len;
    HostMaskOfPrefix(len, b, subnetMask);
    HostBitsZeroValue(address, subnetMask, b, Pow2(b as int));
    HostBitsAllOnesValue(address, subnetMask, b, Pow2(b as int));
    if len < 32 {
      Pow2Step(b);
    }
  }

  /** `!net_mask - 2 * !subnet_mask`, in 32-bit arithmetic. */
  function AddressCount(netMask: bv32, subnetMask: bv32): bv32
  {
    !netMask - 2 * !subnetMask
  }

  /** b is the address after a (wrapping around after the last address). */
  predicate Next(a: bv32, b: bv32)
  {
    b == a + 1
  }

  /** The address the listing counts from: `net_address + !subnet_mask`. */
  function ListStart(base: bv32, subnetMask: bv32): bv32
  {
    base + !subnetMask
  }

  /** Listed address number i: `net_address + !subnet_mask + i`. */
  function ListedAddress(base: bv32, subnetMask: bv32, i: bv32): bv32
  {
    ListStart(base, subnetMask) + i
  }

  /** The addresses numbered `1..count`, each with its role. */
  function Listing(base: bv32, subnetMask: bv32, count: bv32): (r: seq<AddressType>)
    ensures count == 0 ==> r == []
    ensures count != 0 ==> |r| + 1 == Value(count)
    ensures forall j :: 0 <= j < |r| ==> r[j] == Role(ListedAddress(base, subnetMask, Word(j + 1)), subnetMask)
  {
    RangeFromOne(count);
    Roles(base, subnetMask, Range(1, count))
  }

  /** Each listed address of the ids, with its role. */
  function Roles(base: bv32, subnetMask: bv32, ids: seq<bv32>): (r: seq<AddressType>)
    ensures |r| == |ids|
    ensures forall j :: 0 <= j < |r| ==> r[j] == Role(ListedAddress(base, subnetMask, ids[j]), subnetMask)
  {
    seq(|ids|, j requires 0 <= j < |ids| => Role(ListedAddress(base, subnetMask, ids[j]), subnetMask))
  }

  /**
   * `addresses()`: the network (with its class) first; for classes D and E
   * nothing else; otherwise the addresses from the first address of subnet 1
   * to the last address of the last listed subnet, each with its role, and
   * the network broadcast last.
   */
  function Addresses(net: ValidNetwork): (r: seq<AddressType>)
    requires HasAddressList(net)
    ensures |r| >= 1 && r[0] == AddressType.Network(net.address, NetworkClass(net))
    ensures NetMask(net).None? ==> |r| == 1
    ensures NetMask(net).Some? ==>
              |r| == Pow2((32 - NetworkClass(net).NetworkBits().value) as int) - 2 * Pow2((32 - net.subnetMaskLen) as int) + 2
    ensures NetMask(net).Some? ==> r[|r| - 1] == NetworkBroadcast(net.address | !NetMask(net).value)
    ensures NetMask(net).Some? ==>
              forall j :: 0 < j < |r| - 1 ==> r[j] == Role(ListedAddress(net.address, SubnetMask(net), Word(j)), SubnetMask(net))
  {
    var first := AddressType.Network(net.address, NetworkClass(net));
    var subnetMask := SubnetMask(net);
    match NetMask(net)
    case None => [first]
    case Some(netMask) =>
      AddressCountOf(net, netMask);
      [first] + Listing(net.address, subnetMask, AddressCount(netMask, subnetMask)) + [NetworkBroadcast(net.address | !netMask)]
  }

  lemma AddressCountOf(net: ValidNetwork, netMask: bv32)
    requires HasAddressList(net) && NetMask(net) == Some(netMask)
    ensures Value(AddressCount(netMask, SubnetMask(net)))
         == Pow2((32 - NetworkClass(net).NetworkBits().value) as int) - 2 * Pow2((32 - net.subnetMaskLen) as int) + 1
    ensures AddressCount(netMask, SubnetMask(net)) != 0
  {
    NetMaskClassful(net, netMask);
    SubnetMaskShape(net);
    AddressCountValue(NetworkClass(net).NetworkBits().value, net.subnetMaskLen, netMask, SubnetMask(net));
  }

  /**
   * With n network bits and len > n subnet mask bits, the count denotes
   * 2^(32 - n) - 2 * 2^(32 - len) + 1: one more than the addresses of all
   * subnets but the first and the last.
   */
  lemma AddressCountValue(n: bv8, len: bv8, netMask: bv32, subnetMask: bv32)
    requires ClassfulMask(n, netMask) && n < len <= 32 && subnetMask == AllOnes << (32 - len)
    ensures Value(AddressCount(netMask, subnetMask)) == Pow2((32 - n) as int) - 2 * Pow2((32 - len) as int) + 1
    ensures AddressCount(netMask, subnetMask) != 0
  {
    var a, b := 32 - n, 32 - len;
    var hn, hs := !netMask, !subnetMask;
    var d := 2 * hs;
    HostMasks(n, len, a, b, netMask, subnetMask, hn, hs);
    DoubledHostMask(a, b, hn, hs, d);
    SubtractBits(hn, d);
    ValueAndNot(hn, d);
    ValueUnfold(d);
    ValueLowOnes(a);
    ValueLowOnes(b);
    Pow2Monotonic(b as int + 1, a as int);
  }

  /**
   * The label an entry of the listing gets by its position alone: entry j
   * (the network itself being entry 0) is the first address of a subnet of p
   * addresses when j % p == 1, the last when j % p == 0, and a host otherwise.
   */
  function PositionLabel(j: nat, p: nat): (s: string)
    requires p > 0
    ensures s == "subnet broadcast" || s == "subnet" || s == "host"
  {
    if j % p == 0 then "subnet broadcast"
    else if j % p == 1 then "subnet"
    else "host"
  }

  /**
   * What the listing lemmas need of a network of class A, B or C with a
   * longer subnet mask: its class gives a classful net mask, and the listing
   * is the network, the numbered addresses, and the network broadcast.
   */
  lemma AddressesShape(net: ValidNetwork, netMask: bv32)
    requires HasAddressList(net) && NetMask(net) == Some(netMask)
    ensures 0 < net.subnetMaskLen
    ensures Addresses(net) == [AddressType.Network(net.address, NetworkClass(net))]
                              + Listing(net.address, SubnetMask(net), AddressCount(netMask, SubnetMask(net)))
                              + [NetworkBroadcast(net.address | !netMask)]
  {}

  /**
   * For a network of class A, B or C whose base has no host bits, the role
   * `addresses()` finds for each entry from its bits is the one its position
   * gives: the listing walks through whole subnets of 2^(32 - len) addresses.
   */
  lemma AddressesByPosition(net: ValidNetwork, netMask: bv32)
    requires HasAddressList(net) && NetMask(net) == Some(netMask) && HostBitsZero(net.address, SubnetMask(net))
    ensures forall j :: 0 < j < |Addresses(net)| - 1 ==>
              Addresses(net)[j].Label() == PositionLabel(j, Pow2((32 - net.subnetMaskLen) as int))
  {
    AddressesShape(net, netMask);
    SubnetMaskShape(net);
    FramedByPosition(AddressType.Network(net.address, NetworkClass(net)), net.address, net.subnetMaskLen, SubnetMask(net),
                     AddressCount(netMask, SubnetMask(net)), NetworkBroadcast(net.address | !netMask));
  }

  /** The listing framed by the network and its broadcast: entry j is listed address j. */
  lemma FramedByPosition(first: AddressType, base: bv32, len: bv8, subnetMask: bv32, count: bv32, last: AddressType)
    requires 0 < len <= 32 && subnetMask == AllOnes << (32 - len) && HostBitsZero(base, subnetMask)
    ensures var r := [first] + Listing(base, subnetMask, count) + [last];
            forall j :: 0 < j < |r| - 1 ==> r[j].Label() == PositionLabel(j, Pow2((32 - len) as int))
  {
    var listing := Listing(base, subnetMask, count);
    ListingByPosition(base, len, subnetMask, count);
    var r := [first] + listing + [last];
    forall j | 0 < j < |r| - 1
      ensures r[j].Label() == PositionLabel(j, Pow2((32 - len) as int))
    {
      assert r[j] == listing[j - 1];
    }
  }

  lemma ListingByPosition(base: bv32, len: bv8, subnetMask: bv32, count: bv32)
    requires 0 < len <= 32 && subnetMask == AllOnes << (32 - len) && HostBitsZero(base, subnetMask)
    ensures forall j :: 0 <= j < |Listing(base, subnetMask, count)| ==>
              Listing(base, subnetMask, count)[j].Label() == PositionLabel(j + 1, Pow2((32 - len) as int))
  {
    forall j | 0 <= j < |Listing(base, subnetMask, count)|
      ensures Listing(base, subnetMask, count)[j].Label() == PositionLabel(j + 1, Pow2((32 - len) as int))
    {
      ValueBound(count);
      ValueWord(j + 1);
      ListedRole(base, len, subnetMask, Word(j + 1));
    }
  }

  /** The role of listed address number w follows from w modulo the subnet size. */
  lemma ListedRole(base: bv32, len: bv8, subnetMask: bv32, w: bv32)
    requires 0 < len <= 32 && subnetMask == AllOnes << (32 - len) && HostBitsZero(base, subnetMask)
    ensures Role(ListedAddress(base, subnetMask, w), subnetMask).Label() == PositionLabel(Value(w), Pow2((32 - len) as int))
  {
    var b := 32 - len;
    HostMaskOfSubnetMask(len, b, subnetMask);
    ListedBroadcastBits(base, subnetMask, w);
    ListedSubnetBits(base, subnetMask, w);
    HostBitsZeroValue(w, subnetMask, b, Pow2(b as int));
    HostBitsOneValue(w, subnetMask, b, Pow2(b as int));
  }

  /** The host bits of w are all zeros exactly when w is a multiple of 2^b ... */
  lemma HostBitsZeroValue(w: bv32, subnetMask: bv32, b: bv8, p: nat)
    requires b <= 32 && !subnetMask == AllOnes >> (32 - b) && p == Pow2(b as int)
    ensures HostBitsZero(w, subnetMask) <==> Value(w) % p == 0
  {
    ValueLowBits(w, !subnetMask, b);
    ValueIsZero(w & !subnetMask);
  }

  /** The host bits of w are all ones exactly when w is 2^b - 1 modulo 2^b. */
  lemma HostBitsAllOnesValue(w: bv32, subnetMask: bv32, b: bv8, p: nat)
    requires b <= 32 && !subnetMask == AllOnes >> (32 - b) && p == Pow2(b as int)
    ensures HostBitsAllOnes(w, subnetMask) <==> Value(w) % p == p - 1
  {
    var h := !subnetMask;
    ValueLowBits(w, h, b);
    ValueLowOnes(b);
    AllOnesHostBits(w, subnetMask, h);
    if Value(w & h) == Value(h) {
      ValueInjective(w & h, h);
    }
  }

  lemma AllOnesHostBits(w: bv32, subnetMask: bv32, h: bv32)
    requires h == !subnetMask
    ensures HostBitsAllOnes(w, subnetMask) <==> w & h == h
  {
    OrIsAllOnes(w, subnetMask, h);
  }

  lemma OrIsAllOnes(w: bv32, m: bv32, h: bv32)
    requires h == !m
    ensures w | m == 0xFFFF_FFFF <==> w & h == h
  {
    assert !(w | m) == !w & h;
    assert w & h == h <==> !w & h == 0;
  }

  /** ... and denote 1 exactly when w is 1 modulo 2^b. */
  lemma HostBitsOneValue(w: bv32, subnetMask: bv32, b: bv8, p: nat)
    requires b <= 32 && !subnetMask == AllOnes >> (32 - b) && p == Pow2(b as int)
    ensures HostBitsOne(w, subnetMask) <==> Value(w) % p == 1
  {
    ValueLowBits(w, !subnetMask, b);
    ValueIsOne(w & !subnetMask);
  }

  /** Consecutive entries of the listing between the network and its broadcast are consecutive addresses. */
  lemma AddressesConsecutive(net: ValidNetwork, netMask: bv32)
    requires HasAddressList(net) && NetMask(net) == Some(netMask)
    ensures forall j :: 0 < j < |Addresses(net)| - 2 ==> Next(Addresses(net)[j].address, Addresses(net)[j + 1].address)
  {
    forall j | 0 < j < |Addresses(net)| - 2
      ensures Next(Addresses(net)[j].address, Addresses(net)[j + 1].address)
    {
      ListedNextWord(net.address, SubnetMask(net), j);
    }
  }

  // ---------------------------------------------------------------------------
  // Bit-level facts about the subnet field

  lemma SubnetKeepsHostBits(len: bv8, subnetMask: bv32, base: bv32, id: bv32)
    requires 0 < len <= 32 && subnetMask == AllOnes << (32 - len)
    ensures SameHostBits(SubnetAddress(base, id, 32 - len), base, subnetMask)
  {}

  lemma SubnetKeepsNetworkPart(n: bv8, len: bv8, netMask: bv32, base: bv32, id: bv32)
    requires ClassfulMask(n, netMask) && n < len <= 32 && id >> (len - n) == 0
    ensures InNetwork(SubnetAddress(base, id, 32 - len), base, netMask)
  {
    if n == 8 {
    } else if n == 16 {
    } else {
    }
  }

  lemma SubnetHasNoHostBits(n: bv8, len: bv8, netMask: bv32, subnetMask: bv32, base: bv32, id: bv32)
    requires ClassfulMask(n, netMask) && n < len <= 32 && subnetMask == AllOnes << (32 - len) && base & !netMask == 0
    ensures HostBitsZero(SubnetAddress(base, id, 32 - len), subnetMask)
  {
    if n == 8 {
    } else if n == 16 {
    } else {
    }
  }

  lemma SubnetFieldHoldsNumber(n: bv8, len: bv8, netMask: bv32, base: bv32, id: bv32)
    requires ClassfulMask(n, netMask) && n < len <= 32 && base & !netMask == 0 && id >> (len - n) == 0
    ensures SubnetField(SubnetAddress(base, id, 32 - len), netMask, len) == id
  {
    if n == 8 {
    } else if n == 16 {
    } else {
    }
  }

  // ---------------------------------------------------------------------------
  // Bit-level facts about the listing

  lemma HostMasks(n: bv8, len: bv8, a: bv8, b: bv8, netMask: bv32, subnetMask: bv32, hn: bv32, hs: bv32)
    requires ClassfulMask(n, netMask) && n < len <= 32 && subnetMask == AllOnes << (32 - len)
    requires a == 32 - n && b == 32 - len && hn == !netMask && hs == !subnetMask
    ensures b < a <= 32 && hn == AllOnes >> (32 - a) && hs == AllOnes >> (32 - b)
  {
    if n == 8 {
    } else if n == 16 {
    } else {
    }
  }

  lemma DoubledHostMask(a: bv8, b: bv8, hn: bv32, hs: bv32, d: bv32)
    requires b < a <= 32 && hn == AllOnes >> (32 - a) && hs == AllOnes >> (32 - b) && d == 2 * hs
    ensures hn & d == d && d >> 1 == hs && d & 1 == 0
  {}

  lemma HostMaskOfPrefix(len: bv8, b: bv8, subnetMask: bv32)
    requires len <= 32 && subnetMask == AllOnes << (32 - len) && b == 32 - len
    ensures b <= 32 && !subnetMask == AllOnes >> (32 - b)
  {}

  lemma HostMaskOfSubnetMask(len: bv8, b: bv8, subnetMask: bv32)
    requires 0 < len <= 32 && subnetMask == AllOnes << (32 - len) && b == 32 - len
    ensures b < 32 && !subnetMask == AllOnes >> (32 - b) && LowHostBits(subnetMask)
  {}

  /** Listed address w has all-ones host bits exactly when w has all-zero ones ... */
  lemma ListedBroadcastBits(base: bv32, subnetMask: bv32, w: bv32)
    requires HostBitsZero(base, subnetMask) && LowHostBits(subnetMask)
    ensures HostBitsAllOnes(ListedAddress(base, subnetMask, w), subnetMask) <==> HostBitsZero(w, subnetMask)
  {}

  /** ... and all-zero host bits (with some host bits) exactly when the host bits of w denote 1. */
  lemma ListedSubnetBits(base: bv32, subnetMask: bv32, w: bv32)
    requires HostBitsZero(base, subnetMask) && LowHostBits(subnetMask)
    ensures HostBitsZero(ListedAddress(base, subnetMask, w), subnetMask) && !HostBitsAllOnes(ListedAddress(base, subnetMask, w), subnetMask)
            <==> HostBitsOne(w, subnetMask)
  {}

  lemma ListedNextWord(base: bv32, subnetMask: bv32, n: nat)
    ensures Next(ListedAddress(base, subnetMask, Word(n)), ListedAddress(base, subnetMask, Word(n + 1)))
  {
    ListedNext(base, subnetMask, Word(n), Word(n + 1));
  }

  lemma ListedNext(base: bv32, subnetMask: bv32, w: bv32, v: bv32)
    requires v == w + 1
    ensures ListedAddress(base, subnetMask, v) == ListedAddress(base, subnetMask, w) + 1
  {
    AddOne(ListStart(base, subnetMask), w, v);
  }

  lemma AddOne(x: bv32, w: bv32, v: bv32)
    requires v == w + 1
    ensures x + v == (x + w) + 1
  {}
}
