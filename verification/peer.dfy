/** A peer: its connection state, its RTT-driven packet throttle, and the send
    path that stamps outgoing commands with sequence numbers and routes them
    to one of the peer's outgoing queues.

    Every operation is a pure function from the old peer to the new one.
    Counters are bit-vectors of the source's width, so `+= 1` on a `u16`
    counter wraps from 0xFFFF to 0 as ENet's sequence numbers do. */
module Peer {
  import opened Wrappers
  import Protocol
  import Channel
  import Command
  import opened Fixed

  // ---------------------------------------------------------------------
  // Constants (src/peer.rs:4-43)
  // ---------------------------------------------------------------------

  const BUFFER_MAXIMUM: nat := 1 + 2 * Protocol.MAXIMUM_PACKET_COMMANDS

  const PEER_DEFAULT_ROUND_TRIP_TIME: u32 := 500
  const PEER_DEFAULT_PACKET_THROTTLE: u32 := 32
  const PEER_PACKET_THROTTLE_SCALE: u32 := 32
  const PEER_PACKET_THROTTLE_COUNTER: u32 := 7
  const PEER_PACKET_THROTTLE_ACCELERATION: u32 := 2
  const PEER_PACKET_THROTTLE_DECELERATION: u32 := 2
  const PEER_PACKET_THROTTLE_INTERVAL: u32 := 5000
  const PEER_PACKET_LOSS_SCALE: u32 := 0x1_0000  // 1 << 16
  const PEER_PACKET_LOSS_INTERVAL: u32 := 10000
  const PEER_WINDOW_SIZE_SCALE: u32 := 64 * 1024
  const PEER_TIMEOUT_LIMIT: u32 := 32
  const PEER_TIMEOUT_MINIMUM: u32 := 5000
  const PEER_TIMEOUT_MAXIMUM: u32 := 30000
  const PEER_PING_INTERVAL: u32 := 500
  const PEER_UNSEQUENCED_WINDOWS: u32 := 64
  const PEER_UNSEQUENCED_WINDOW_SIZE: u32 := 1024
  const PEER_FREE_UNSEQUENCED_WINDOWS: u32 := 32
  const PEER_RELIABLE_WINDOWS: u32 := 16
  const PEER_RELIABLE_WINDOW_SIZE: u32 := 0x1000
  const PEER_FREE_RELIABLE_WINDOWS: u32 := 8

  const PEER_FLAG_NEEDS_DISPATCH: bv32 := 1 << 0
  const PEER_FLAG_CONTINUE_SENDING: bv32 := 1 << 1

  /** The channel id reserved for connection-level commands. */
  const CONTROL_CHANNEL_ID: bv8 := 0xFF

  // ---------------------------------------------------------------------
  // Connection state (src/peer.rs:7-16)
  // ---------------------------------------------------------------------

  datatype PeerState =
    | Disconnected
    | Connecting
    | AcknowledgingConnect
    | ConnectionPending
    | ConnectionSucceeded
    | Connected
    | DisconnectLater
    | Disconnecting
    | AcknowledgingDisconnect
    | Zombie

  /** The `PEER_STATE_*` constant that stands for each state. */
  function StateCode(s: PeerState): (c: u32)
    ensures c < 10
  {
    match s
    case Disconnected => 0
    case Connecting => 1
    case AcknowledgingConnect => 2
    case ConnectionPending => 3
    case ConnectionSucceeded => 4
    case Connected => 5
    case DisconnectLater => 6
    case Disconnecting => 7
    case AcknowledgingDisconnect => 8
    case Zombie => 9
  }

  /** The ten state constants are distinct, so the datatype loses nothing. */
  lemma StateCodeInjective(s1: PeerState, s2: PeerState)
    ensures StateCode(s1) == StateCode(s2) <==> s1 == s2
  {
  }

  // ---------------------------------------------------------------------
  // The peer record (src/peer.rs:45-124)
  // ---------------------------------------------------------------------
  //
  // The source's flat record, grouped by the operation that touches each
  // field: `reset` writes only the link, `throttle` only the throttle state,
  // the send path only the send state. Host back-pointers, the address, the
  // user-data pointer and the placeholder lists with no contents are left
  // out.

  /** Identity, connection state and negotiated link parameters. */
  datatype Link = Link(
    outgoingPeerId: bv16,
    incomingPeerId: bv16,
    connectId: u32,
    outgoingSessionId: bv8,
    incomingSessionId: bv8,
    state: PeerState,
    channelCount: nat,
    incomingBandwidth: u32,
    outgoingBandwidth: u32,
    incomingBandwidthThrottleEpoch: u32,
    outgoingBandwidthThrottleEpoch: u32,
    mtu: u32,
    windowSize: u32,
    flags: bv16,
    reserved: bv16,
    eventData: u32)

  /** The packet throttle and the round-trip estimates that drive it. */
  datatype ThrottleState = ThrottleState(
    packetThrottle: u32,
    packetThrottleLimit: u32,
    packetThrottleCounter: u32,
    packetThrottleEpoch: u32,
    packetThrottleAccel: u32,
    packetThrottleDecel: u32,
    packetThrottleInterval: u32,
    lastRoundtripTime: u32,
    lowestRoundtripTime: u32,
    lastRoundtripTimeVariance: u32,
    highestRoundtripTimeVariance: u32,
    roundtripTime: u32,
    roundtripTimeVariance: u32)

  /** Timing, loss and receive-side bookkeeping, including the
      unsequenced-window bitmap; no modelled operation writes any of it. */
  datatype Statistics = Statistics(
    incomingDataTotal: u32,
    lastSendTime: u32,
    lastReceiveTime: u32,
    nextTimeout: u32,
    earliestTimeout: u32,
    packetLossEpoch: u32,
    packetsSent: u32,
    packetsLost: u32,
    packetLoss: u32,
    packetLossVariance: u32,
    pingInterval: u32,
    timeoutLimit: u32,
    timeoutMinimum: u32,
    timeoutMaximum: u32,
    reliableDataInTransit: u32,
    incomingUnsequencedGroup: bv16,
    /** The unsequenced-window bitmap, one word per 32 groups. */
    unsequencedWindow: seq<u32>,
    totalWaitingData: nat)

  /** The channels, the peer-level counters and the outgoing queues. */
  datatype SendState = SendState(
    channels: seq<Channel.Channel>,
    outgoingDataTotal: u32,
    /** Sequence counter of the control channel 0xFF. */
    outgoingReliableSeqNum: bv16,
    outgoingUnsequencedGroup: bv16,
    /** Reliable commands sent and awaiting acknowledgement; a list of
        placeholders, only its emptiness is ever observed. */
    sentReliableCommands: seq<()>,
    outgoingSendReliableCommands: seq<Command.OutgoingCommand>,
    outgoingCommands: seq<Command.OutgoingCommand>)

  datatype Peer = Peer(link: Link, throttle: ThrottleState, stats: Statistics, send: SendState)

  // ---------------------------------------------------------------------
  // Disconnect guard (src/peer.rs:127-134)
  // ---------------------------------------------------------------------

  /** The states in which `disconnect` returns at once. */
  predicate DisconnectIgnored(s: PeerState)
  {
    s == Disconnecting || s == Disconnected || s == AcknowledgingDisconnect || s == Zombie
  }

  /** `disconnect`: the guard (`DisconnectIgnored`) returns early in the four
      listed states, and past the guard the source has no statements yet, so
      the peer is unchanged in every state. */
  function Disconnect(p: Peer, data: u32): (r: Peer)
    ensures r == p
  {
    p
  }

  /** The guard in terms of the state constants: it fires for codes 0, 7, 8
      and 9 and for no other, in particular not for `DisconnectLater` (6). */
  lemma DisconnectGuardCodes(s: PeerState)
    ensures DisconnectIgnored(s) <==> StateCode(s) in {0, 7, 8, 9}
    ensures !DisconnectIgnored(DisconnectLater) && !DisconnectIgnored(Connected)
  {
  }

  // ---------------------------------------------------------------------
  // Throttle (src/peer.rs:136-158)
  // ---------------------------------------------------------------------

  function Min(a: int, b: int): int { if a <= b then a else b }
  function Max(a: int, b: int): int { if a >= b then a else b }

  /** The degradation threshold `last_rtt + 2 * last_rtt_variance`, computed
      in 32 bits as the source does. */
  function DecreaseThreshold(t: ThrottleState): (d: u32)
    ensures d as int == (t.lastRoundtripTime as int + 2 * t.lastRoundtripTimeVariance as int) % U32_MODULUS
  {
    WrappingAdd(t.lastRoundtripTime, WrappingDouble(t.lastRoundtripTimeVariance))
  }

  /** `throttle`: adjusts `packet_throttle` from a fresh RTT sample and
      returns +1 (network improving), -1 (degrading) or 0. */
  function Throttle(p: Peer, rtt: u32): (r: (Peer, int))
    // only the throttle value changes
    ensures r.0 == p.(throttle := p.throttle.(packetThrottle := r.0.throttle.packetThrottle))
    ensures r.1 in {-1, 0, 1}
    // snap: variance data not yet meaningful
    ensures var t := p.throttle;
            t.lastRoundtripTime <= t.lastRoundtripTimeVariance ==>
              r.0.throttle.packetThrottle == t.packetThrottleLimit && r.1 == 0
    // additive increase, clamped to the limit
    ensures var t := p.throttle;
            t.lastRoundtripTime > t.lastRoundtripTimeVariance && rtt <= t.lastRoundtripTime ==>
              r.1 == 1 && r.0.throttle.packetThrottle <= t.packetThrottleLimit
    ensures var t := p.throttle;
            t.lastRoundtripTime > t.lastRoundtripTimeVariance && rtt <= t.lastRoundtripTime
            && t.packetThrottle as int + t.packetThrottleAccel as int < U32_MODULUS ==>
              r.0.throttle.packetThrottle as int
              == Min(t.packetThrottle as int + t.packetThrottleAccel as int, t.packetThrottleLimit as int)
    // decrease, floored at zero
    ensures var t := p.throttle;
            t.lastRoundtripTime > t.lastRoundtripTimeVariance && rtt > t.lastRoundtripTime
            && rtt > DecreaseThreshold(t) ==>
              r.1 == -1
              && r.0.throttle.packetThrottle as int == Max(t.packetThrottle as int - t.packetThrottleDecel as int, 0)
    // neutral band: nothing changes
    ensures var t := p.throttle;
            t.lastRoundtripTime > t.lastRoundtripTimeVariance && rtt > t.lastRoundtripTime
            && rtt <= DecreaseThreshold(t) ==>
              r.1 == 0 && r.0 == p
    // the throttle never exceeds its limit once it is within it
    ensures p.throttle.packetThrottle <= p.throttle.packetThrottleLimit ==>
              r.0.throttle.packetThrottle <= p.throttle.packetThrottleLimit
  {
    var t := p.throttle;
    if t.lastRoundtripTime <= t.lastRoundtripTimeVariance then
      (p.(throttle := t.(packetThrottle := t.packetThrottleLimit)), 0)
    else if rtt <= t.lastRoundtripTime then
      var raised := WrappingAdd(t.packetThrottle, t.packetThrottleAccel);
      (p.(throttle := t.(packetThrottle := if raised > t.packetThrottleLimit then t.packetThrottleLimit else raised)), 1)
    else if rtt > WrappingAdd(t.lastRoundtripTime, WrappingDouble(t.lastRoundtripTimeVariance)) then
      var lowered := if t.packetThrottle > t.packetThrottleDecel then t.packetThrottle - t.packetThrottleDecel else 0;
      (p.(throttle := t.(packetThrottle := lowered)), -1)
    else
      (p, 0)
  }

  /** The worked example of the throttle rule with last RTT 100 and variance
      10: 90 and 100 are improvements, 121 is a degradation (above
      100 + 2 * 10), and 101 through 120 leave the throttle alone. */
  lemma ThrottleExample(p: Peer)
    requires p.throttle.lastRoundtripTime == 100 && p.throttle.lastRoundtripTimeVariance == 10
    requires p.throttle.packetThrottle <= p.throttle.packetThrottleLimit <= PEER_PACKET_THROTTLE_SCALE
    requires p.throttle.packetThrottleAccel <= PEER_PACKET_THROTTLE_SCALE
    ensures Throttle(p, 90).1 == 1 && Throttle(p, 100).1 == 1
    ensures Throttle(p, 90).0.throttle.packetThrottle as int
            == Min(p.throttle.packetThrottle as int + p.throttle.packetThrottleAccel as int,
                   p.throttle.packetThrottleLimit as int)
    ensures Throttle(p, 121).1 == -1
    ensures Throttle(p, 121).0.throttle.packetThrottle as int
            == Max(p.throttle.packetThrottle as int - p.throttle.packetThrottleDecel as int, 0)
    ensures Throttle(p, 110) == (p, 0) && Throttle(p, 120) == (p, 0)
  {
    assert DecreaseThreshold(p.throttle) == 120;
  }

  // ---------------------------------------------------------------------
  // Reset (src/peer.rs:182-201)
  // ---------------------------------------------------------------------

  /** `reset`: back to Disconnected with the connect nonce and bandwidth
      limits cleared and the outgoing peer id set to the "none" id.
      `on_disconnect`, which `reset` calls first, changes no field of the
      peer (its host-counter updates are not part of the source). */
  function Reset(p: Peer): (r: Peer)
    ensures r.link.state == Disconnected
    ensures r.link.connectId == 0
    ensures r.link.outgoingPeerId as bv32 == Protocol.MAXIMUM_PEER_ID
    ensures r.link.incomingBandwidth == 0 && r.link.outgoingBandwidth == 0
    // every other field is left as it was
    ensures r.(link := p.link) == p
    ensures r.link.(outgoingPeerId := p.link.outgoingPeerId, connectId := p.link.connectId,
                    state := p.link.state, incomingBandwidth := p.link.incomingBandwidth,
                    outgoingBandwidth := p.link.outgoingBandwidth) == p.link
  {
    p.(link := p.link.(outgoingPeerId := Protocol.MAXIMUM_PEER_ID as bv16,
                       connectId := 0,
                       state := Disconnected,
                       incomingBandwidth := 0,
                       outgoingBandwidth := 0))
  }

  /** Resetting twice is resetting once, and a reset peer ignores a
      subsequent `disconnect`. Queued commands survive a reset. */
  lemma ResetIdempotent(p: Peer)
    ensures Reset(Reset(p)) == Reset(p)
    ensures DisconnectIgnored(Reset(p).link.state)
    ensures Disconnect(Reset(p), 0) == Reset(p)
    ensures HasOutgoingCommands(Reset(p)) == HasOutgoingCommands(p)
  {
  }

  // ---------------------------------------------------------------------
  // Queue emptiness (src/peer.rs:203-205)
  // ---------------------------------------------------------------------

  /** `has_outgoing_commands`: some outgoing, send-reliable or sent-reliable
      command is still pending. */
  predicate HasOutgoingCommands(p: Peer)
  {
    !(|p.send.outgoingCommands| == 0 && |p.send.outgoingSendReliableCommands| == 0
      && |p.send.sentReliableCommands| == 0)
  }

  /** A peer has nothing outgoing exactly when all three queues are empty. */
  lemma NoOutgoingCommandsIff(p: Peer)
    ensures !HasOutgoingCommands(p) <==>
              p.send.outgoingCommands == [] && p.send.outgoingSendReliableCommands == []
              && p.send.sentReliableCommands == []
  {
  }

  // ---------------------------------------------------------------------
  // Send path (src/peer.rs:232-306)
  // ---------------------------------------------------------------------

  /** `u16::to_be` on a little-endian host: swap the two bytes. */
  function ToBe(x: bv16): (r: bv16)
    ensures r & 0xFF == x >> 8 && r >> 8 == x & 0xFF
  {
    (x << 8) | (x >> 8)
  }

  /** Byte-swapping is an involution, so a receiver recovers the sequence
      number by swapping back. */
  lemma ToBeInvolution(x: bv16)
    ensures ToBe(ToBe(x)) == x
  {
  }

  /** Why the send path can fail: `channels.get_mut(id).expect(..)` panics. */
  datatype SendError = ChannelOutOfRange(channelId: bv8)

  /** The flag tests `header.command & FLAG != 0`. */
  predicate AcknowledgeFlag(tag: bv8) { tag & Protocol.COMMAND_FLAG_ACKNOWLEDGE != 0 }
  predicate UnsequencedFlag(tag: bv8) { tag & Protocol.COMMAND_FLAG_UNSEQUENCED != 0 }

  /** Whether a finished command goes to the send-reliable queue rather than
      the generic outgoing queue. */
  predicate RoutesReliable(cmd: Command.OutgoingCommand)
  {
    AcknowledgeFlag(Protocol.GetHeader(cmd.command).command) && cmd.packet.Some?
  }

  /** The tail of `setup_outgoing_command` once sequence numbers are chosen:
      clear the retransmission fields, write the reliable sequence number into
      the header in network byte order, and append the command to its queue. */
  function FinishSetup(s: SendState, cmd: Command.OutgoingCommand): (r: (SendState, Command.OutgoingCommand))
    ensures r.1 == cmd.(sendAttempts := 0, sentTime := 0, roundtripTimeout := 0, command := r.1.command)
    ensures ToBe(Protocol.GetHeader(r.1.command).reliableSequenceNumber) == cmd.reliableSeqNum
    ensures Protocol.SetHeader(r.1.command, Protocol.GetHeader(cmd.command)) == cmd.command
    ensures Protocol.GetHeader(r.1.command).command == Protocol.GetHeader(cmd.command).command
    ensures Protocol.GetHeader(r.1.command).channelId == Protocol.GetHeader(cmd.command).channelId
    ensures Protocol.GetHeader(r.1.command)
            == Protocol.GetHeader(cmd.command).(reliableSequenceNumber := Protocol.GetHeader(r.1.command).reliableSequenceNumber)
    ensures RoutesReliable(r.1) == RoutesReliable(cmd)
    ensures RoutesReliable(cmd) ==>
              r.0 == s.(outgoingSendReliableCommands := s.outgoingSendReliableCommands + [r.1])
    ensures !RoutesReliable(cmd) ==>
              r.0 == s.(outgoingCommands := s.outgoingCommands + [r.1])
  {
    var header := Protocol.GetHeader(cmd.command);
    var stamped := cmd.(sendAttempts := 0, sentTime := 0, roundtripTimeout := 0,
                        command := Protocol.SetHeader(cmd.command,
                                     header.(reliableSequenceNumber := ToBe(cmd.reliableSeqNum))));
    ToBeInvolution(cmd.reliableSeqNum);
    Protocol.HeaderLens(cmd.command, header.(reliableSequenceNumber := ToBe(cmd.reliableSeqNum)), header);
    if AcknowledgeFlag(header.command) && stamped.packet.Some? then
      (s.(outgoingSendReliableCommands := s.outgoingSendReliableCommands + [stamped]), stamped)
    else
      (s.(outgoingCommands := s.outgoingCommands + [stamped]), stamped)
  }

  /** `x += 1` on a 16-bit counter: bit-vector addition, so 0xFFFF is
      followed by 0. */
  predicate Incremented(before: bv16, after: bv16)
  {
    after == before + 1
  }

  /** `setup_outgoing_command`: records the command's size in
      `outgoing_data_total`, assigns its sequence numbers from the peer (for
      the control channel 0xFF) or from its channel, and queues it.
      `commandSize` stands for `command_size`, which is not part of this
      model. */
  function SetupOutgoingCommand(p: Peer, cmd: Command.OutgoingCommand, commandSize: bv8 -> u32)
    : (r: Result<(Peer, Command.OutgoingCommand), SendError>)
    // failure exactly when the channel lookup would panic
    ensures var h := Protocol.GetHeader(cmd.command);
            r.Failure? <==> h.channelId != CONTROL_CHANNEL_ID && h.channelId as int >= |p.send.channels|
    // only the send state changes, and never the sent-reliable list
    ensures r.Success? ==>
              r.value.0 == p.(send := r.value.0.send)
              && r.value.0.send.sentReliableCommands == p.send.sentReliableCommands
    // finalisation: retransmission state cleared, header stamped big-endian,
    // nothing else about the command changed
    ensures r.Success? ==>
              var c := r.value.1;
              && c == cmd.(reliableSeqNum := c.reliableSeqNum, unreliableSeqNum := c.unreliableSeqNum,
                           sendAttempts := 0, sentTime := 0, roundtripTimeout := 0, command := c.command)
              && ToBe(Protocol.GetHeader(c.command).reliableSequenceNumber) == c.reliableSeqNum
              && Protocol.SetHeader(c.command, Protocol.GetHeader(cmd.command)) == cmd.command
              // the header keeps its tag and channel id; only its reliable number changes
              && Protocol.GetHeader(c.command)
                 == Protocol.GetHeader(cmd.command).(reliableSequenceNumber := Protocol.GetHeader(c.command).reliableSequenceNumber)
    // routing: exactly one queue grows, by the finished command
    ensures r.Success? ==>
              var (s, c) := (r.value.0.send, r.value.1);
              && (RoutesReliable(cmd) ==>
                    s.outgoingSendReliableCommands == p.send.outgoingSendReliableCommands + [c]
                    && s.outgoingCommands == p.send.outgoingCommands)
              && (!RoutesReliable(cmd) ==>
                    s.outgoingCommands == p.send.outgoingCommands + [c]
                    && s.outgoingSendReliableCommands == p.send.outgoingSendReliableCommands)
    // the data total is overwritten with this command's size, in 32 bits
    ensures r.Success? ==>
              r.value.0.send.outgoingDataTotal
              == WrappingAdd(commandSize(Protocol.GetHeader(cmd.command).command), cmd.fragmentLength)
  {
    var header := Protocol.GetHeader(cmd.command);
    var s := p.send.(outgoingDataTotal := WrappingAdd(commandSize(header.command), cmd.fragmentLength));
    match AssignSequenceNumbers(s, cmd)
    case Failure(e) => Failure(e)
    case Success(numbered) =>
      var f := FinishSetup(numbered.0, numbered.1);
      Success((p.(send := f.0), f.1))
  }

  /** The branch of `setup_outgoing_command` that picks the command's
      sequence numbers and advances the counter they come from. */
  function AssignSequenceNumbers(s: SendState, cmd: Command.OutgoingCommand)
    : (r: Result<(SendState, Command.OutgoingCommand), SendError>)
    ensures var h := Protocol.GetHeader(cmd.command);
            r.Failure? <==> h.channelId != CONTROL_CHANNEL_ID && h.channelId as int >= |s.channels|
    // the command keeps everything but its two sequence numbers
    ensures r.Success? ==>
              r.value.1 == cmd.(reliableSeqNum := r.value.1.reliableSeqNum,
                                unreliableSeqNum := r.value.1.unreliableSeqNum)
    // only the three counters and the channel list can change
    ensures r.Success? ==>
              r.value.0 == s.(outgoingReliableSeqNum := r.value.0.outgoingReliableSeqNum,
                              outgoingUnsequencedGroup := r.value.0.outgoingUnsequencedGroup,
                              channels := r.value.0.channels)
  {
    var header := Protocol.GetHeader(cmd.command);
    if header.channelId == CONTROL_CHANNEL_ID then
      var sequence := s.outgoingReliableSeqNum + 1;
      Success((s.(outgoingReliableSeqNum := sequence), cmd.(reliableSeqNum := sequence, unreliableSeqNum := 0)))
    else if header.channelId as int >= |s.channels| then
      Failure(ChannelOutOfRange(header.channelId))
    else
      var id := header.channelId as int;
      var channel := s.channels[id];
      if AcknowledgeFlag(header.command) then
        var channel' := channel.(outgoingReliableSeqNum := channel.outgoingReliableSeqNum + 1,
                                 outgoingUnreliableSeqNum := 0);
        Success((s.(channels := s.channels[id := channel']),
                 cmd.(reliableSeqNum := channel'.outgoingReliableSeqNum, unreliableSeqNum := 0)))
      else if UnsequencedFlag(header.command) then
        Success((s.(outgoingUnsequencedGroup := s.outgoingUnsequencedGroup + 1),
                 cmd.(reliableSeqNum := 0, unreliableSeqNum := 0)))
      else
        var channel' := if cmd.fragmentOffset == 0
                        then channel.(outgoingUnreliableSeqNum := channel.outgoingUnreliableSeqNum + 1)
                        else channel;
        Success((s.(channels := s.channels[id := channel']),
                 cmd.(reliableSeqNum := channel'.outgoingReliableSeqNum,
                      unreliableSeqNum := channel'.outgoingUnreliableSeqNum)))
  }

  /** Control channel 0xFF: the peer-level reliable counter advances and
      numbers the command; no channel and no unsequenced group moves. */
  lemma SetupControlChannel(p: Peer, cmd: Command.OutgoingCommand, commandSize: bv8 -> u32)
    requires Protocol.GetHeader(cmd.command).channelId == CONTROL_CHANNEL_ID
    ensures var r := SetupOutgoingCommand(p, cmd, commandSize);
            r.Success?
            && var (s, c) := (r.value.0.send, r.value.1);
            && Incremented(p.send.outgoingReliableSeqNum, s.outgoingReliableSeqNum)
            && c.reliableSeqNum == s.outgoingReliableSeqNum && c.unreliableSeqNum == 0
            && s.channels == p.send.channels
            && s.outgoingUnsequencedGroup == p.send.outgoingUnsequencedGroup
  {
  }

  /** Any other channel: the peer-level counter stays and no other channel
      changes. */
  lemma SetupOtherChannelsUnchanged(p: Peer, cmd: Command.OutgoingCommand, commandSize: bv8 -> u32)
    requires Protocol.GetHeader(cmd.command).channelId != CONTROL_CHANNEL_ID
    requires (Protocol.GetHeader(cmd.command).channelId as int) < |p.send.channels|
    ensures var r := SetupOutgoingCommand(p, cmd, commandSize);
            r.Success?
            && var (s, id) := (r.value.0.send, Protocol.GetHeader(cmd.command).channelId as int);
            && s.outgoingReliableSeqNum == p.send.outgoingReliableSeqNum
            && |s.channels| == |p.send.channels|
            && forall j :: 0 <= j < |p.send.channels| && j != id ==> s.channels[j] == p.send.channels[j]
  {
  }

  /** An acknowledged command on a channel takes the channel's next reliable
      number and restarts its unreliable numbering. */
  lemma SetupAcknowledged(p: Peer, cmd: Command.OutgoingCommand, commandSize: bv8 -> u32)
    requires Protocol.GetHeader(cmd.command).channelId != CONTROL_CHANNEL_ID
    requires (Protocol.GetHeader(cmd.command).channelId as int) < |p.send.channels|
    requires AcknowledgeFlag(Protocol.GetHeader(cmd.command).command)
    ensures var r := SetupOutgoingCommand(p, cmd, commandSize);
            r.Success?
            && var (s, c) := (r.value.0.send, r.value.1);
            && var id := Protocol.GetHeader(cmd.command).channelId as int;
            && var (before, after) := (p.send.channels[id], s.channels[id]);
            && Incremented(before.outgoingReliableSeqNum, after.outgoingReliableSeqNum)
            && after == before.(outgoingReliableSeqNum := after.outgoingReliableSeqNum,
                                outgoingUnreliableSeqNum := 0)
            && c.reliableSeqNum == after.outgoingReliableSeqNum && c.unreliableSeqNum == 0
            && s.outgoingUnsequencedGroup == p.send.outgoingUnsequencedGroup
  {
  }

  /** An unsequenced command advances the peer's unsequenced group, carries
      no sequence numbers and leaves every channel alone. */
  lemma SetupUnsequenced(p: Peer, cmd: Command.OutgoingCommand, commandSize: bv8 -> u32)
    requires Protocol.GetHeader(cmd.command).channelId != CONTROL_CHANNEL_ID
    requires (Protocol.GetHeader(cmd.command).channelId as int) < |p.send.channels|
    requires !AcknowledgeFlag(Protocol.GetHeader(cmd.command).command)
    requires UnsequencedFlag(Protocol.GetHeader(cmd.command).command)
    ensures var r := SetupOutgoingCommand(p, cmd, commandSize);
            r.Success?
            && var (s, c) := (r.value.0.send, r.value.1);
            && Incremented(p.send.outgoingUnsequencedGroup, s.outgoingUnsequencedGroup)
            && c.reliableSeqNum == 0 && c.unreliableSeqNum == 0
            && s.channels == p.send.channels
  {
  }

  /** A plain unreliable command is numbered after the channel's last
      reliable command; only a first fragment (offset 0) takes a new
      unreliable number, later fragments share it. */
  lemma SetupUnreliable(p: Peer, cmd: Command.OutgoingCommand, commandSize: bv8 -> u32)
    requires Protocol.GetHeader(cmd.command).channelId != CONTROL_CHANNEL_ID
    requires (Protocol.GetHeader(cmd.command).channelId as int) < |p.send.channels|
    requires !AcknowledgeFlag(Protocol.GetHeader(cmd.command).command)
    requires !UnsequencedFlag(Protocol.GetHeader(cmd.command).command)
    ensures var r := SetupOutgoingCommand(p, cmd, commandSize);
            r.Success?
            && var (s, c) := (r.value.0.send, r.value.1);
            && var id := Protocol.GetHeader(cmd.command).channelId as int;
            && var (before, after) := (p.send.channels[id], s.channels[id]);
            && after == before.(outgoingUnreliableSeqNum := after.outgoingUnreliableSeqNum)
            && (cmd.fragmentOffset == 0 ==>
                  Incremented(before.outgoingUnreliableSeqNum, after.outgoingUnreliableSeqNum))
            && (cmd.fragmentOffset != 0 ==> after == before)
            && c.reliableSeqNum == after.outgoingReliableSeqNum
            && c.unreliableSeqNum == after.outgoingUnreliableSeqNum
            && s.outgoingUnsequencedGroup == p.send.outgoingUnsequencedGroup
  {
  }

  /** After a successful setup the peer has something outgoing, whatever
      its queues held before. */
  lemma SetupLeavesCommandOutgoing(p: Peer, cmd: Command.OutgoingCommand, commandSize: bv8 -> u32)
    ensures var r := SetupOutgoingCommand(p, cmd, commandSize);
            r.Success? ==> HasOutgoingCommands(r.value.0)
  {
  }

  // ---------------------------------------------------------------------
  // Queueing a fresh command (src/peer.rs:232-246)
  // ---------------------------------------------------------------------

  /** `queue_outgoing_command`: builds a default outgoing command around the
      protocol command and the fragment bounds, takes a reference on the
      packet if there is one, and runs the setup. */
  function QueueOutgoingCommand(p: Peer, command: Protocol.Protocol, packet: Option<Command.Packet>,
                                offset: u32, length: bv16, commandSize: bv8 -> u32)
    : (r: Result<(Peer, Command.OutgoingCommand), SendError>)
    ensures var h := Protocol.GetHeader(command);
            r.Failure? <==> h.channelId != CONTROL_CHANNEL_ID && h.channelId as int >= |p.send.channels|
    ensures r.Success? ==>
              var (q, c) := r.value;
              // a fresh command around the given fragment, with zero timing fields
              && c.fragmentOffset == offset && c.fragmentLength as int == length as int
              && c.queueTime == 0 && c.sendAttempts == 0 && c.sentTime == 0 && c.roundtripTimeout == 0
              // the header keeps its tag and channel and gains the reliable number
              && Protocol.SetHeader(c.command, Protocol.GetHeader(command)) == command
              && Protocol.GetHeader(c.command)
                 == Protocol.GetHeader(command).(reliableSequenceNumber := Protocol.GetHeader(c.command).reliableSequenceNumber)
              && ToBe(Protocol.GetHeader(c.command).reliableSequenceNumber) == c.reliableSeqNum
              // one more holder of the packet
              && (packet.None? ==> c.packet.None?)
              && (packet.Some? ==> c.packet == Some(Command.Packet(packet.value.refCount + 1)))
              // only the send state changes, and never the sent-reliable list
              && q == p.(send := q.send)
              && q.send.sentReliableCommands == p.send.sentReliableCommands
              // the command lands at the end of exactly one queue; the other keeps its contents
              && (if AcknowledgeFlag(Protocol.GetHeader(command).command) && packet.Some?
                  then q.send.outgoingSendReliableCommands == p.send.outgoingSendReliableCommands + [c]
                       && q.send.outgoingCommands == p.send.outgoingCommands
                  else q.send.outgoingCommands == p.send.outgoingCommands + [c]
                       && q.send.outgoingSendReliableCommands == p.send.outgoingSendReliableCommands)
  {
    QueuedCommandSetup(p, command, packet, offset, length, commandSize);
    QueuedCommandRouting(p, command, packet, offset, length, commandSize);
    SetupOutgoingCommand(p, QueuedCommand(command, packet, offset, length), commandSize)
  }

  /** What the setup makes of the queued command itself. */
  lemma QueuedCommandSetup(p: Peer, command: Protocol.Protocol, packet: Option<Command.Packet>,
                           offset: u32, length: bv16, commandSize: bv8 -> u32)
    ensures var r := SetupOutgoingCommand(p, QueuedCommand(command, packet, offset, length), commandSize);
            r.Success? ==>
              var c := r.value.1;
              && c.fragmentOffset == offset && c.fragmentLength as int == length as int
              && c.queueTime == 0 && c.sendAttempts == 0 && c.sentTime == 0 && c.roundtripTimeout == 0
              && Protocol.SetHeader(c.command, Protocol.GetHeader(command)) == command
              && Protocol.GetHeader(c.command)
                 == Protocol.GetHeader(command).(reliableSequenceNumber := Protocol.GetHeader(c.command).reliableSequenceNumber)
              && ToBe(Protocol.GetHeader(c.command).reliableSequenceNumber) == c.reliableSeqNum
              && (packet.None? ==> c.packet.None?)
              && (packet.Some? ==> c.packet == Some(Command.Packet(packet.value.refCount + 1)))
  { }

  /** Where the setup puts the queued command, and what it leaves alone. */
  lemma QueuedCommandRouting(p: Peer, command: Protocol.Protocol, packet: Option<Command.Packet>,
                             offset: u32, length: bv16, commandSize: bv8 -> u32)
    ensures var r := SetupOutgoingCommand(p, QueuedCommand(command, packet, offset, length), commandSize);
            && (var h := Protocol.GetHeader(command);
                r.Failure? <==> h.channelId != CONTROL_CHANNEL_ID && h.channelId as int >= |p.send.channels|)
            && (r.Success? ==>
                  var (q, c) := r.value;
                  && q == p.(send := q.send)
                  && q.send.sentReliableCommands == p.send.sentReliableCommands
                  && (if AcknowledgeFlag(Protocol.GetHeader(command).command) && packet.Some?
                      then q.send.outgoingSendReliableCommands == p.send.outgoingSendReliableCommands + [c]
                           && q.send.outgoingCommands == p.send.outgoingCommands
                      else q.send.outgoingCommands == p.send.outgoingCommands + [c]
                           && q.send.outgoingSendReliableCommands == p.send.outgoingSendReliableCommands))
  { }

  /** The default outgoing command `queue_outgoing_command` fills in before
      the setup: the protocol command, the fragment bounds and the packet,
      with one more reference taken on it. */
  function QueuedCommand(command: Protocol.Protocol, packet: Option<Command.Packet>, offset: u32, length: bv16)
    : (c: Command.OutgoingCommand)
    ensures c.command == command && c.fragmentOffset == offset && c.fragmentLength as int == length as int
    ensures c.queueTime == 0 && c.sendAttempts == 0 && c.sentTime == 0 && c.roundtripTimeout == 0
    ensures packet.None? ==> c.packet.None?
    ensures packet.Some? ==> c.packet == Some(Command.Packet(packet.value.refCount + 1))
    ensures RoutesReliable(c) <==> AcknowledgeFlag(Protocol.GetHeader(command).command) && packet.Some?
  {
    var held := match packet
                case None => None
                case Some(pck) => Some(pck.(refCount := pck.refCount + 1));
    Command.DefaultOutgoingCommand().(command := command,
                                      fragmentOffset := offset,
                                      fragmentLength := length as u32,
                                      packet := held)
  }

  // ---------------------------------------------------------------------
  // Throttle configuration (src/peer.rs:215-230)
  // ---------------------------------------------------------------------

  /** The throttle-configure command for the control channel, with a given
      tag byte and the three parameters. */
  function ThrottleConfigureCommand(tag: bv8, interval: u32, accel: u32, decel: u32): Protocol.Protocol
  {
    Protocol.Protocol.ThrottleConfigure(
      Protocol.ProtocolThrottleConfigure(
        Protocol.ProtocolCommandHeader(tag, CONTROL_CHANNEL_ID, 0),
        interval as bv32, accel as bv32, decel as bv32))
  }

  /** Stores the three throttle parameters and queues a throttle-configure
      command carrying them under the given tag. It cannot fail: the command
      goes to the control channel, which needs no channel lookup. */
  function ConfigureThrottle(p: Peer, tag: bv8, interval: u32, accel: u32, decel: u32,
                             commandSize: bv8 -> u32): (r: (Peer, Command.OutgoingCommand))
    ensures r.0.link == p.link && r.0.stats == p.stats
    ensures r.0.throttle == p.throttle.(packetThrottleInterval := interval,
                                        packetThrottleAccel := accel,
                                        packetThrottleDecel := decel)
    // no packet, so the generic queue, numbered by the control channel
    ensures r.0.send.outgoingCommands == p.send.outgoingCommands + [r.1]
    ensures r.0.send.outgoingSendReliableCommands == p.send.outgoingSendReliableCommands
    ensures r.0.send.channels == p.send.channels
    ensures Incremented(p.send.outgoingReliableSeqNum, r.0.send.outgoingReliableSeqNum)
    ensures r.1.reliableSeqNum == r.0.send.outgoingReliableSeqNum && r.1.packet.None?
    ensures r.0.send.outgoingDataTotal == commandSize(tag)
    // the whole send state: nothing but the generic queue, the control
    // counter and the data total changes
    ensures r.0.send == p.send.(outgoingCommands := p.send.outgoingCommands + [r.1],
                                outgoingReliableSeqNum := r.0.send.outgoingReliableSeqNum,
                                outgoingDataTotal := commandSize(tag))
    // the command carries the parameters, as 32-bit words
    ensures r.1.command.ThrottleConfigure?
    ensures Protocol.GetHeader(r.1.command).command == tag
    ensures Protocol.GetHeader(r.1.command).channelId == CONTROL_CHANNEL_ID
    ensures r.1.command.throttleConfigure.packetThrottleInterval == interval as bv32
    ensures r.1.command.throttleConfigure.packetThrottleAcceleration == accel as bv32
    ensures r.1.command.throttleConfigure.packetThrottleDeceleration == decel as bv32
  {
    var p1 := p.(throttle := p.throttle.(packetThrottleInterval := interval,
                                         packetThrottleAccel := accel,
                                         packetThrottleDecel := decel));
    var command := ThrottleConfigureCommand(tag, interval, accel, decel);
    SetupControlChannel(p1, Command.DefaultOutgoingCommand().(command := command), commandSize);
    match QueueOutgoingCommand(p1, command, None, 0, 0, commandSize)
    case Success(queued) => queued
    case Failure(_) => assert false; (p1, Command.DefaultOutgoingCommand())
  }

  /** The tag byte `throttle_configure` writes: the kind ThrottleConfigure
      (11) or-ed with the discriminant of the kind Acknowledge (1). */
  const THROTTLE_CONFIGURE_TAG_AS_WRITTEN: bv8 :=
    Protocol.Discriminant(Protocol.ProtocolCommand.ThrottleConfigure)
    | Protocol.Discriminant(Protocol.ProtocolCommand.Acknowledge)

  /** The tag ENet sends for this command: the kind or-ed with the
      acknowledge flag 0x80, so that the peer confirms receipt. */
  const THROTTLE_CONFIGURE_TAG: bv8 :=
    Protocol.Discriminant(Protocol.ProtocolCommand.ThrottleConfigure) | Protocol.COMMAND_FLAG_ACKNOWLEDGE

  /** `throttle_configure` as written: the tag it builds is 11 | 1 == 11,
      a throttle-configure command WITHOUT the acknowledge flag. */
  function ThrottleConfigure(p: Peer, interval: u32, accel: u32, decel: u32, commandSize: bv8 -> u32)
    : (r: (Peer, Command.OutgoingCommand))
    ensures Protocol.Command(r.1.command) == Some(Protocol.ProtocolCommand.ThrottleConfigure)
    ensures !AcknowledgeFlag(Protocol.GetHeader(r.1.command).command)
    ensures r.0.throttle.packetThrottleInterval == interval
            && r.0.throttle.packetThrottleAccel == accel && r.0.throttle.packetThrottleDecel == decel
    ensures r.0.send.outgoingCommands == p.send.outgoingCommands + [r.1]
  {
    assert Protocol.Kind(THROTTLE_CONFIGURE_TAG_AS_WRITTEN) == Some(Protocol.ProtocolCommand.ThrottleConfigure);
    ConfigureThrottle(p, THROTTLE_CONFIGURE_TAG_AS_WRITTEN, interval, accel, decel, commandSize)
  }

  /** The discrepancy: the as-written tag is the bare kind 11, so the command
      is not marked for acknowledgement, while the intended tag 0x8B is. */
  lemma ThrottleConfigureTagLacksAcknowledge()
    ensures THROTTLE_CONFIGURE_TAG_AS_WRITTEN == 11
    ensures !AcknowledgeFlag(THROTTLE_CONFIGURE_TAG_AS_WRITTEN)
    ensures THROTTLE_CONFIGURE_TAG == 0x8B && AcknowledgeFlag(THROTTLE_CONFIGURE_TAG)
    ensures THROTTLE_CONFIGURE_TAG_AS_WRITTEN != THROTTLE_CONFIGURE_TAG
  {
  }

  /** `throttle_configure` corrected: the command is tagged with the
      acknowledge flag, and it still resolves to the ThrottleConfigure kind. */
  function ThrottleConfigureAcknowledged(p: Peer, interval: u32, accel: u32, decel: u32,
                                         commandSize: bv8 -> u32)
    : (r: (Peer, Command.OutgoingCommand))
    ensures Protocol.Command(r.1.command) == Some(Protocol.ProtocolCommand.ThrottleConfigure)
    ensures AcknowledgeFlag(Protocol.GetHeader(r.1.command).command)
    ensures r.0.throttle.packetThrottleInterval == interval
            && r.0.throttle.packetThrottleAccel == accel && r.0.throttle.packetThrottleDecel == decel
    ensures r.0.send.outgoingCommands == p.send.outgoingCommands + [r.1]
  {
    assert Protocol.Kind(THROTTLE_CONFIGURE_TAG) == Some(Protocol.ProtocolCommand.ThrottleConfigure);
    ConfigureThrottle(p, THROTTLE_CONFIGURE_TAG, interval, accel, decel, commandSize)
  }

  // ---------------------------------------------------------------------
  // Sequencing across several sends
  // ---------------------------------------------------------------------

  /** Two control-channel commands in a row get consecutive reliable
      numbers from the peer's counter. */
  lemma ControlNumbersConsecutive(p: Peer, a: Command.OutgoingCommand, b: Command.OutgoingCommand,
                                  commandSize: bv8 -> u32)
    requires Protocol.GetHeader(a.command).channelId == CONTROL_CHANNEL_ID
    requires Protocol.GetHeader(b.command).channelId == CONTROL_CHANNEL_ID
    ensures var ra := SetupOutgoingCommand(p, a, commandSize);
            ra.Success?
            && var rb := SetupOutgoingCommand(ra.value.0, b, commandSize);
            && rb.Success?
            && ra.value.1.reliableSeqNum == p.send.outgoingReliableSeqNum + 1
            && rb.value.1.reliableSeqNum == p.send.outgoingReliableSeqNum + 2
  {
    SetupControlChannel(p, a, commandSize);
    var ra := SetupOutgoingCommand(p, a, commandSize);
    SetupControlChannel(ra.value.0, b, commandSize);
  }

  /** On one channel, an unreliable first fragment sent right after a
      reliable command carries that command's reliable number and the
      unreliable number 1: the reliable send restarted the unreliable count. */
  lemma ReliableThenUnreliable(p: Peer, a: Command.OutgoingCommand, b: Command.OutgoingCommand,
                               commandSize: bv8 -> u32)
    requires Protocol.GetHeader(a.command).channelId == Protocol.GetHeader(b.command).channelId
    requires Protocol.GetHeader(a.command).channelId != CONTROL_CHANNEL_ID
    requires (Protocol.GetHeader(a.command).channelId as int) < |p.send.channels|
    requires AcknowledgeFlag(Protocol.GetHeader(a.command).command)
    requires !AcknowledgeFlag(Protocol.GetHeader(b.command).command)
    requires !UnsequencedFlag(Protocol.GetHeader(b.command).command)
    requires b.fragmentOffset == 0
    ensures var ra := SetupOutgoingCommand(p, a, commandSize);
            ra.Success?
            && var rb := SetupOutgoingCommand(ra.value.0, b, commandSize);
            && rb.Success?
            && rb.value.1.reliableSeqNum == ra.value.1.reliableSeqNum
            && rb.value.1.unreliableSeqNum == 1
  {
    SetupAcknowledged(p, a, commandSize);
    SetupOtherChannelsUnchanged(p, a, commandSize);
    var ra := SetupOutgoingCommand(p, a, commandSize);
    SetupUnreliable(ra.value.0, b, commandSize);
  }

  /** A channel's reliable counter at 0xFFFF wraps: the next acknowledged
      command on it is numbered 0. */
  lemma ReliableNumberWraps(p: Peer, cmd: Command.OutgoingCommand, commandSize: bv8 -> u32)
    requires Protocol.GetHeader(cmd.command).channelId != CONTROL_CHANNEL_ID
    requires (Protocol.GetHeader(cmd.command).channelId as int) < |p.send.channels|
    requires AcknowledgeFlag(Protocol.GetHeader(cmd.command).command)
    requires p.send.channels[Protocol.GetHeader(cmd.command).channelId as int].outgoingReliableSeqNum == 0xFFFF
    ensures var r := SetupOutgoingCommand(p, cmd, commandSize);
            r.Success? && r.value.1.reliableSeqNum == 0
  {
    SetupAcknowledged(p, cmd, commandSize);
  }
}
