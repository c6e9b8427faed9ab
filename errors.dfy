/** The error taxonomy of network construction (snet/src/errors.rs). */
module Errors {
  import Reserved

  datatype Error =
    | InvalidSubnetMask
    | InvalidAddress
    | ReservedAddress(kind: Reserved.ReservedAddress)
  {
    /** The message the error is displayed with. */
    function Message(): string
    {
      match this
      case InvalidSubnetMask => "Subnet mask was invalid"
      case InvalidAddress => "Network address was invalid"
      case ReservedAddress(kind) => "Reserved address cannot be used as a network: " + kind.Label()
    }
  }

  /** Different errors are displayed with different messages. */
  lemma MessageDeterminesError(e: Error, f: Error)
    ensures e.Message() == f.Message() <==> e == f
  {
    var prefix := "Reserved address cannot be used as a network: ";
    if e.ReservedAddress? && f.ReservedAddress? && e.Message() == f.Message() {
      assert e.Message()[|prefix|..] == e.kind.Label();
      assert f.Message()[|prefix|..] == f.kind.Label();
    }
  }
}
