/** Addresses that may not be the base of a network (snet/src/ipv4.rs). */
module Reserved {
  import opened Wrappers
  import opened Patterns

  /** The reserved blocks: 127/8 (all of it, not only 127.0.0.1) and 255.255.255.255/32. */
  datatype ReservedAddress = Loopback | LocalBroadcast {

    function Mask(): bv32
    {
      match this
      case Loopback => 0xFF00_0000
      case LocalBroadcast => 0xFFFF_FFFF
    }

    function Pattern(): bv32
    {
      match this
      case Loopback => 0x7F00_0000
      case LocalBroadcast => 0xFFFF_FFFF
    }

    /** The label the kind is displayed with. */
    function Label(): string
    {
      match this
      case Loopback => "loopback"
      case LocalBroadcast => "local broadcast"
    }
  }

  function MaskOf(k: ReservedAddress): bv32 { k.Mask() }

  function PatternOf(k: ReservedAddress): bv32 { k.Pattern() }

  /** The reserved kinds, longest bit pattern first. */
  const Discriminants: seq<ReservedAddress> := [LocalBroadcast, Loopback]

  lemma LoopbackFacts(address: bv32)
    ensures Matches(address, 0xFF00_0000, 0x7F00_0000) <==> address >> 24 == 127
    ensures Matches(address, 0xFFFF_FFFF, 0xFFFF_FFFF) <==> address == 0xFFFF_FFFF
    ensures address == 0xFFFF_FFFF ==> address >> 24 != 127
  {
  }

  /**
   * `ReservedAddress::try_from(u32)`: the first reserved kind whose pattern the
   * address carries, or None.
   */
  function Detect(address: bv32): (r: Option<ReservedAddress>)
    ensures r == Some(LocalBroadcast) <==> address == 0xFFFF_FFFF
    ensures r == Some(Loopback) <==> address >> 24 == 127
    ensures r == None <==> address != 0xFFFF_FFFF && address >> 24 != 127
  {
    LoopbackFacts(address);
    FirstMatchCons(address, LocalBroadcast, [Loopback], MaskOf, PatternOf);
    FirstMatchCons(address, Loopback, [], MaskOf, PatternOf);
    FirstMatch(address, Discriminants, MaskOf, PatternOf)
  }
}
