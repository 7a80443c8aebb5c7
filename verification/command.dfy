/** The outgoing command record and the packet it may share. */
module Command {
  import Wrappers
  import Protocol
  import opened Fixed

  /** A payload buffer, reduced to the one attribute the send path touches:
      the number of commands that hold it. */
  datatype Packet = Packet(refCount: nat)

  datatype OutgoingCommand = OutgoingCommand(
    reliableSeqNum: bv16,
    unreliableSeqNum: bv16,
    sentTime: u32,
    roundtripTimeout: u32,
    /** Fairness token assigned by the host; never set by the peer. */
    queueTime: u32,
    fragmentOffset: u32,
    fragmentLength: u32,
    sendAttempts: bv16,
    command: Protocol.Protocol,
    packet: Wrappers.Option<Packet>)

  /** `OutgoingCommand::default()`: every number zero, no packet, and a bare
      all-zero command header. */
  function DefaultOutgoingCommand(): OutgoingCommand
  {
    OutgoingCommand(0, 0, 0, 0, 0, 0, 0, 0,
                    Protocol.Header(Protocol.ProtocolCommandHeader(0, 0, 0)), Wrappers.None)
  }
}
