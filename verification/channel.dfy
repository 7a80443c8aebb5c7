/** A channel's sequence counters and reliable-window bookkeeping. The
    channel has no behaviour of its own; the peer's send path reads and
    advances its outgoing counters. */
module Channel {

  datatype Channel = Channel(
    outgoingReliableSeqNum: bv16,
    outgoingUnreliableSeqNum: bv16,
    usedReliableWindows: bv16,
    /** One usage counter per reliable window. */
    reliableWindows: seq<bv16>,
    incomingReliableSeqNum: bv16,
    incomingUnreliableSeqNum: bv16)
}
