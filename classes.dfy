/** The historical network classes and the classifier (snet/src/ipv4.rs). */
module Classes {
  import opened Wrappers
  import opened Patterns

  /** Network classes A to E. */
  datatype Class = A | B | C | D | E {

    /** Leading network bits of the class; D (multicast) and E (reserved) have none. */
    function NetworkBits(): Option<bv8>
    {
      match this
      case A => Some(8)
      case B => Some(16)
      case C => Some(24)
      case D => None
      case E => None
    }

    function Mask(): bv32
    {
      match this
      case A => 0x8000_0000
      case B => 0xC000_0000
      case C => 0xE000_0000
      case D => 0xF000_0000
      case E => 0xF000_0000
    }

    function Pattern(): bv32
    {
      match this
      case A => 0x0000_0000
      case B => 0x8000_0000
      case C => 0xC000_0000
      case D => 0xE000_0000
      case E => 0xF000_0000
    }

    /** The label the class is displayed with. */
    function Label(): string
    {
      match this
      case A => "class A network"
      case B => "class B network"
      case C => "class C network"
      case D => "class D network"
      case E => "class E network"
    }
  }

  function MaskOf(c: Class): bv32 { c.Mask() }

  function PatternOf(c: Class): bv32 { c.Pattern() }

  /** All classes, longest bit pattern first: the order the classifier tries them in. */
  const Discriminants: seq<Class> := [E, D, C, B, A]

  /** The class read directly off the leading bits: 0, 10, 110, 1110, 1111. */
  function LeadingBitsClass(address: bv32): Class
  {
    if address >> 31 == 0 then A
    else if address >> 30 == 0x2 then B
    else if address >> 29 == 0x6 then C
    else if address >> 28 == 0xE then D
    else E
  }

  /** Every address carries the pattern of exactly one class: the one its leading bits name. */
  lemma ExactlyOneClass(address: bv32)
    ensures Matches(address, LeadingBitsClass(address).Mask(), LeadingBitsClass(address).Pattern())
    ensures forall d: Class :: Matches(address, d.Mask(), d.Pattern()) ==> d == LeadingBitsClass(address)
  {
  }

  /** The scan in the order of Discriminants finds the class the leading bits name. */
  lemma ScanFindsLeadingBitsClass(address: bv32)
    ensures FirstMatch(address, Discriminants, MaskOf, PatternOf) == Some(LeadingBitsClass(address))
  {
    ExactlyOneClass(address);
    FirstMatchCons(address, E, [D, C, B, A], MaskOf, PatternOf);
    FirstMatchCons(address, D, [C, B, A], MaskOf, PatternOf);
    FirstMatchCons(address, C, [B, A], MaskOf, PatternOf);
    FirstMatchCons(address, B, [A], MaskOf, PatternOf);
    FirstMatchCons(address, A, [], MaskOf, PatternOf);
  }

  /**
   * `Class::from(u32)`: the first class, in the order of Discriminants, whose
   * pattern the address carries. Every address carries exactly one class
   * pattern, so the scan always finds one and its fall-through is dead.
   */
  function Classify(address: bv32): (c: Class)
    ensures c == LeadingBitsClass(address)
  {
    ScanFindsLeadingBitsClass(address);
    match FirstMatch(address, Discriminants, MaskOf, PatternOf)
    case Some(c) => c
    case None => assert false; A
  }

  /** The class found is the only one whose pattern the address carries. */
  lemma ClassifyExclusive(address: bv32)
    ensures Matches(address, Classify(address).Mask(), Classify(address).Pattern())
    ensures forall d: Class :: Matches(address, d.Mask(), d.Pattern()) ==> d == Classify(address)
  {
    ExactlyOneClass(address);
  }

  /** The classes of the addresses in the source's class table. */
  lemma ClassExamples()
    ensures Classify(0x7D00_0000) == A   // 125.0.0.0
    ensures Classify(0x807A_0000) == B   // 128.122.0.0
    ensures Classify(0xC0A8_9300) == C   // 192.168.147.0
    ensures Classify(0xE00C_62FF) == D   // 224.12.98.255
    ensures Classify(0xFFFF_FFFE) == E   // 255.255.255.254
  {
  }
}
