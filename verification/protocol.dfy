/** The ENet wire protocol: command kinds, flag and bit-field constants, the
    packed command structures, and the accessors that read a command's header
    and resolve its kind from the tag byte.

    The tags, flags, header fields and every payload field of the packed
    structures are Dafny bit-vectors of the source's width, so every operator
    on them wraps and every mask is the source's own bit pattern. The size
    limits are plain `nat` constants, except `MAXIMUM_PEER_ID`, which is
    compared with peer ids and so keeps its bit-vector type. */
module Protocol {
  import Wrappers

  // ---------------------------------------------------------------------
  // Protocol constants (src/protocol.rs:9-19)
  // ---------------------------------------------------------------------

  const MINIMUM_MTU: nat := 576
  const MAXIMUM_MTU: nat := 4096
  const MAXIMUM_PACKET_COMMANDS: nat := 32
  const MINIMUM_WINDOW_SIZE: nat := 4096
  const MAXIMUM_WINDOW_SIZE: nat := 65536
  const MINIMUM_CHANNEL_COUNT: nat := 1
  const MAXIMUM_CHANNEL_COUNT: nat := 255
  const MAXIMUM_PEER_ID: bv32 := 0xFFF
  const MAXIMUM_FRAGMENT_COUNT: nat := 1024 * 1024

  // ---------------------------------------------------------------------
  // Command kinds (src/protocol.rs:22-63)
  // ---------------------------------------------------------------------

  /** The thirteen command kinds, in discriminant order. */
  datatype ProtocolCommand =
    | None
    | Acknowledge
    | Connect
    | VerifyConnect
    | Disconnect
    | Ping
    | SendReliable
    | SendUnreliable
    | SendFragment
    | SendUnsequenced
    | BandwidthLimit
    | ThrottleConfigure
    | SendUnreliableFragment

  /** Number of command kinds. */
  const COUNT: bv8 := 13
  /** The tag bits that select the command kind. */
  const MASK: bv8 := 0x0F

  /** The `#[repr(u8)]` discriminant of a kind, i.e. `kind as u8`. */
  function Discriminant(kind: ProtocolCommand): (d: bv8)
    ensures d < COUNT
  {
    match kind
    case None => 0
    case Acknowledge => 1
    case Connect => 2
    case VerifyConnect => 3
    case Disconnect => 4
    case Ping => 5
    case SendReliable => 6
    case SendUnreliable => 7
    case SendFragment => 8
    case SendUnsequenced => 9
    case BandwidthLimit => 10
    case ThrottleConfigure => 11
    case SendUnreliableFragment => 12
  }

  /** `ProtocolCommand::from_u8`: the kind whose discriminant is `value`, if any. */
  function FromU8(value: bv8): (r: Wrappers.Option<ProtocolCommand>)
    ensures r.Some? <==> value < COUNT
    ensures r.Some? ==> Discriminant(r.value) == value
  {
    match value
    case 0 => Wrappers.Some(ProtocolCommand.None)
    case 1 => Wrappers.Some(ProtocolCommand.Acknowledge)
    case 2 => Wrappers.Some(ProtocolCommand.Connect)
    case 3 => Wrappers.Some(ProtocolCommand.VerifyConnect)
    case 4 => Wrappers.Some(ProtocolCommand.Disconnect)
    case 5 => Wrappers.Some(ProtocolCommand.Ping)
    case 6 => Wrappers.Some(ProtocolCommand.SendReliable)
    case 7 => Wrappers.Some(ProtocolCommand.SendUnreliable)
    case 8 => Wrappers.Some(ProtocolCommand.SendFragment)
    case 9 => Wrappers.Some(ProtocolCommand.SendUnsequenced)
    case 10 => Wrappers.Some(ProtocolCommand.BandwidthLimit)
    case 11 => Wrappers.Some(ProtocolCommand.ThrottleConfigure)
    case 12 => Wrappers.Some(ProtocolCommand.SendUnreliableFragment)
    case _ => Wrappers.None
  }

  /** `from_u8` is a left inverse of the discriminant: every kind survives the
      trip through its byte value. */
  lemma FromU8Discriminant(kind: ProtocolCommand)
    ensures FromU8(Discriminant(kind)) == Wrappers.Some(kind)
  {
  }

  /** Discriminants are distinct, so a byte names at most one kind. */
  lemma DiscriminantInjective(k1: ProtocolCommand, k2: ProtocolCommand)
    ensures Discriminant(k1) == Discriminant(k2) ==> k1 == k2
  {
    if Discriminant(k1) == Discriminant(k2) {
      FromU8Discriminant(k1);
      FromU8Discriminant(k2);
    }
  }

  // ---------------------------------------------------------------------
  // Flags and bit fields (src/protocol.rs:66-76)
  // ---------------------------------------------------------------------

  const COMMAND_FLAG_ACKNOWLEDGE: bv8 := 1 << 7
  const COMMAND_FLAG_UNSEQUENCED: bv8 := 1 << 6

  const HEADER_FLAG_COMPRESSED: bv16 := 1 << 14
  const HEADER_FLAG_SENT_TIME: bv16 := 1 << 15
  const HEADER_FLAG_MASK: bv16 := HEADER_FLAG_COMPRESSED | HEADER_FLAG_SENT_TIME

  const HEADER_SESSION_MASK: bv16 := 3 << 12
  const HEADER_SESSION_SHIFT: bv16 := 12

  /** The flag values the source's tests pin down, and the fact that the two
      command flags lie outside the kind bits. */
  lemma FlagValues()
    ensures COMMAND_FLAG_ACKNOWLEDGE == 128 && COMMAND_FLAG_UNSEQUENCED == 64
    ensures HEADER_FLAG_COMPRESSED == 16384 && HEADER_FLAG_SENT_TIME == 32768
    ensures COMMAND_FLAG_ACKNOWLEDGE & MASK == 0 && COMMAND_FLAG_UNSEQUENCED & MASK == 0
    ensures COMMAND_FLAG_ACKNOWLEDGE & COMMAND_FLAG_UNSEQUENCED == 0
  {
  }

  /** The 16-bit peer-id word of a datagram header splits into three disjoint
      fields that together cover all sixteen bits: the peer id, the 2-bit
      session id and the two header flags. */
  lemma PeerIdWordFields()
    ensures (MAXIMUM_PEER_ID as bv16) & HEADER_SESSION_MASK == 0
    ensures (MAXIMUM_PEER_ID as bv16) & HEADER_FLAG_MASK == 0
    ensures HEADER_SESSION_MASK & HEADER_FLAG_MASK == 0
    ensures (MAXIMUM_PEER_ID as bv16) | HEADER_SESSION_MASK | HEADER_FLAG_MASK == 0xFFFF
  {
  }

  /** The session id extracted from any peer-id word is a 2-bit value, and
      the three fields reassemble the word. */
  lemma SessionIdRange(word: bv16)
    ensures (word & HEADER_SESSION_MASK) >> HEADER_SESSION_SHIFT <= 3
    ensures (word & (MAXIMUM_PEER_ID as bv16))
            | (((word & HEADER_SESSION_MASK) >> HEADER_SESSION_SHIFT) << HEADER_SESSION_SHIFT)
            | (word & HEADER_FLAG_MASK) == word
  {
  }

  // ---------------------------------------------------------------------
  // Packed structures (src/protocol.rs:78-214)
  // ---------------------------------------------------------------------

  datatype ProtocolHeader = ProtocolHeader(peerId: bv16, sentTime: bv16)

  datatype ProtocolCommandHeader =
    ProtocolCommandHeader(command: bv8, channelId: bv8, reliableSequenceNumber: bv16)

  datatype ProtocolAcknowledge = ProtocolAcknowledge(
    header: ProtocolCommandHeader,
    receivedReliableSequenceNumber: bv16,
    receivedSentTime: bv16)

  datatype ProtocolConnect = ProtocolConnect(
    header: ProtocolCommandHeader,
    outgoingPeerId: bv16,
    incomingSessionId: bv8,
    outgoingSessionId: bv8,
    mtu: bv32,
    windowSize: bv32,
    channelCount: bv32,
    incomingBandwidth: bv32,
    outgoingBandwidth: bv32,
    packetThrottleInterval: bv32,
    packetThrottleAcceleration: bv32,
    packetThrottleDeceleration: bv32,
    connectId: bv32,
    data: bv32)

  datatype ProtocolVerifyConnect = ProtocolVerifyConnect(
    header: ProtocolCommandHeader,
    outgoingPeerId: bv16,
    incomingSessionId: bv8,
    outgoingSessionId: bv8,
    mtu: bv32,
    windowSize: bv32,
    channelCount: bv32,
    incomingBandwidth: bv32,
    outgoingBandwidth: bv32,
    packetThrottleInterval: bv32,
    packetThrottleAcceleration: bv32,
    packetThrottleDeceleration: bv32,
    connectId: bv32)

  datatype ProtocolBandwidthLimit = ProtocolBandwidthLimit(
    header: ProtocolCommandHeader,
    incomingBandwidth: bv32,
    outgoingBandwidth: bv32)

  datatype ProtocolThrottleConfigure = ProtocolThrottleConfigure(
    header: ProtocolCommandHeader,
    packetThrottleInterval: bv32,
    packetThrottleAcceleration: bv32,
    packetThrottleDeceleration: bv32)

  datatype ProtocolDisconnect = ProtocolDisconnect(header: ProtocolCommandHeader, data: bv32)

  datatype ProtocolPing = ProtocolPing(header: ProtocolCommandHeader)

  datatype ProtocolSendReliable = ProtocolSendReliable(header: ProtocolCommandHeader, dataLength: bv16)

  datatype ProtocolSendUnreliable = ProtocolSendUnreliable(
    header: ProtocolCommandHeader,
    unreliableSequenceNumber: bv16,
    dataLength: bv16)

  datatype ProtocolSendUnsequenced = ProtocolSendUnsequenced(
    header: ProtocolCommandHeader,
    unsequencedGroup: bv16,
    dataLength: bv16)

  datatype ProtocolSendFragment = ProtocolSendFragment(
    header: ProtocolCommandHeader,
    startSequenceNumber: bv16,
    dataLength: bv16,
    fragmentCount: bv32,
    fragmentNumber: bv32,
    totalLength: bv32,
    fragmentOffset: bv32)

  /** The tagged union of command structures (the Rust `Protocol` enum). */
  datatype Protocol =
    | Header(header: ProtocolCommandHeader)
    | Acknowledge(acknowledge: ProtocolAcknowledge)
    | Connect(connect: ProtocolConnect)
    | VerifyConnect(verifyConnect: ProtocolVerifyConnect)
    | Disconnect(disconnect: ProtocolDisconnect)
    | Ping(ping: ProtocolPing)
    | SendReliable(sendReliable: ProtocolSendReliable)
    | SendUnreliable(sendUnreliable: ProtocolSendUnreliable)
    | SendUnsequenced(sendUnsequenced: ProtocolSendUnsequenced)
    | SendFragment(sendFragment: ProtocolSendFragment)
    | BandwidthLimit(bandwidthLimit: ProtocolBandwidthLimit)
    | ThrottleConfigure(throttleConfigure: ProtocolThrottleConfigure)

  /** `Protocol::header`: the command header embedded in whichever variant. */
  function GetHeader(p: Protocol): ProtocolCommandHeader
  {
    match p
    case Header(h) => h
    case Acknowledge(s) => s.header
    case Connect(s) => s.header
    case VerifyConnect(s) => s.header
    case Disconnect(s) => s.header
    case Ping(s) => s.header
    case SendReliable(s) => s.header
    case SendUnreliable(s) => s.header
    case SendUnsequenced(s) => s.header
    case SendFragment(s) => s.header
    case BandwidthLimit(s) => s.header
    case ThrottleConfigure(s) => s.header
  }

  /** The write through `header_mut()`: the same variant and payload with its
      embedded header replaced. */
  function SetHeader(p: Protocol, h: ProtocolCommandHeader): (r: Protocol)
    ensures GetHeader(r) == h
    ensures StructOf(r) == StructOf(p)
  {
    match p
    case Header(_) => Header(h)
    case Acknowledge(s) => Protocol.Acknowledge(s.(header := h))
    case Connect(s) => Protocol.Connect(s.(header := h))
    case VerifyConnect(s) => Protocol.VerifyConnect(s.(header := h))
    case Disconnect(s) => Protocol.Disconnect(s.(header := h))
    case Ping(s) => Protocol.Ping(s.(header := h))
    case SendReliable(s) => Protocol.SendReliable(s.(header := h))
    case SendUnreliable(s) => Protocol.SendUnreliable(s.(header := h))
    case SendUnsequenced(s) => Protocol.SendUnsequenced(s.(header := h))
    case SendFragment(s) => Protocol.SendFragment(s.(header := h))
    case BandwidthLimit(s) => Protocol.BandwidthLimit(s.(header := h))
    case ThrottleConfigure(s) => Protocol.ThrottleConfigure(s.(header := h))
  }

  /** Header read and write are a lens: writing back what was read changes
      nothing, and a second write overrides the first. */
  lemma HeaderLens(p: Protocol, h1: ProtocolCommandHeader, h2: ProtocolCommandHeader)
    ensures SetHeader(p, GetHeader(p)) == p
    ensures SetHeader(SetHeader(p, h1), h2) == SetHeader(p, h2)
  {
  }

  /** The kind named by a tag byte, after masking off the flag bits. */
  function Kind(tag: bv8): (r: Wrappers.Option<ProtocolCommand>)
    ensures r.Some? ==> Discriminant(r.value) == tag % 16
  {
    FromU8(tag & MASK)
  }

  /** `Protocol::command`: the kind named by the command's header tag. */
  function Command(p: Protocol): Wrappers.Option<ProtocolCommand>
  {
    Kind(GetHeader(p).command)
  }

  /** Setting or clearing either command flag never changes the resolved kind. */
  lemma KindIgnoresFlags(tag: bv8)
    ensures Kind(tag | COMMAND_FLAG_ACKNOWLEDGE) == Kind(tag)
    ensures Kind(tag | COMMAND_FLAG_UNSEQUENCED) == Kind(tag)
    ensures Kind(tag & !COMMAND_FLAG_ACKNOWLEDGE) == Kind(tag)
    ensures Kind(tag & !COMMAND_FLAG_UNSEQUENCED) == Kind(tag)
  {
  }

  /** A command has no kind exactly when its masked tag is 13, 14 or 15; in
      particular no tag byte can name a kind at or beyond `COUNT`. */
  lemma CommandUndefinedIff(p: Protocol)
    ensures Command(p).None? <==> GetHeader(p).command & MASK in {13, 14, 15}
    ensures Command(p).Some? ==> Discriminant(Command(p).value) == GetHeader(p).command & MASK
  {
  }

  /** The examples of the source's own conversion test. */
  lemma FromU8Examples()
    ensures FromU8(0) == Wrappers.Some(ProtocolCommand.None)
    ensures FromU8(1) == Wrappers.Some(ProtocolCommand.Acknowledge)
    ensures forall v: bv8 :: v >= COUNT ==> FromU8(v).None?
    ensures FromU8(255).None?
  {
  }

  // ---------------------------------------------------------------------
  // Packed layouts and their sizes (src/protocol.rs:78-214, 264-271)
  // ---------------------------------------------------------------------

  /** The scalar field types that occur in the packed structures. */
  datatype Scalar = U8 | U16 | U32

  function Width(s: Scalar): nat
  {
    match s
    case U8 => 1
    case U16 => 2
    case U32 => 4
  }

  /** `count` consecutive fields of one scalar type. */
  datatype Run = Run(ty: Scalar, count: nat)

  /** The structure types, one per `#[repr(C, packed)]` struct. */
  datatype Struct =
    | HeaderStruct
    | CommandHeaderStruct
    | AcknowledgeStruct
    | ConnectStruct
    | VerifyConnectStruct
    | BandwidthLimitStruct
    | ThrottleConfigureStruct
    | DisconnectStruct
    | PingStruct
    | SendReliableStruct
    | SendUnreliableStruct
    | SendUnsequencedStruct
    | SendFragmentStruct

  /** The fields of `ProtocolCommandHeader`: two bytes and a 16-bit word. */
  const COMMAND_HEADER_RUNS: seq<Run> := [Run(U8, 2), Run(U16, 1)]

  /** Field types of each structure in declaration order, grouped into runs
      of consecutive fields of one type; a nested command header contributes
      its own fields in place. */
  function Fields(s: Struct): seq<Run>
  {
    match s
    case HeaderStruct => [Run(U16, 2)]
    case CommandHeaderStruct => [Run(U8, 2), Run(U16, 1)]
    case AcknowledgeStruct => [Run(U8, 2), Run(U16, 1), Run(U16, 2)]
    case ConnectStruct => [Run(U8, 2), Run(U16, 1), Run(U16, 1), Run(U8, 2), Run(U32, 10)]
    case VerifyConnectStruct => [Run(U8, 2), Run(U16, 1), Run(U16, 1), Run(U8, 2), Run(U32, 9)]
    case BandwidthLimitStruct => [Run(U8, 2), Run(U16, 1), Run(U32, 2)]
    case ThrottleConfigureStruct => [Run(U8, 2), Run(U16, 1), Run(U32, 3)]
    case DisconnectStruct => [Run(U8, 2), Run(U16, 1), Run(U32, 1)]
    case PingStruct => [Run(U8, 2), Run(U16, 1)]
    case SendReliableStruct => [Run(U8, 2), Run(U16, 1), Run(U16, 1)]
    case SendUnreliableStruct => [Run(U8, 2), Run(U16, 1), Run(U16, 2)]
    case SendUnsequencedStruct => [Run(U8, 2), Run(U16, 1), Run(U16, 2)]
    case SendFragmentStruct => [Run(U8, 2), Run(U16, 1), Run(U16, 2), Run(U32, 4)]
  }

  /** Total width of a sequence of packed runs (no padding). */
  function SumWidths(rs: seq<Run>): nat
  {
    if |rs| == 0 then 0 else rs[0].count * Width(rs[0].ty) + SumWidths(rs[1..])
  }

  /** `mem::size_of` of a packed structure: the sum of its field widths. */
  function SizeOf(s: Struct): nat
  {
    SumWidths(Fields(s))
  }

  /** The structure a `Protocol` value carries. */
  function StructOf(p: Protocol): Struct
  {
    match p
    case Header(_) => CommandHeaderStruct
    case Acknowledge(_) => AcknowledgeStruct
    case Connect(_) => ConnectStruct
    case VerifyConnect(_) => VerifyConnectStruct
    case Disconnect(_) => DisconnectStruct
    case Ping(_) => PingStruct
    case SendReliable(_) => SendReliableStruct
    case SendUnreliable(_) => SendUnreliableStruct
    case SendUnsequenced(_) => SendUnsequencedStruct
    case SendFragment(_) => SendFragmentStruct
    case BandwidthLimit(_) => BandwidthLimitStruct
    case ThrottleConfigure(_) => ThrottleConfigureStruct
  }

  /** The sizes the source's layout test asserts. */
  lemma PackedSizes()
    ensures SizeOf(HeaderStruct) == 4
    ensures SizeOf(CommandHeaderStruct) == 4
    ensures SizeOf(PingStruct) == 4
    ensures SizeOf(ConnectStruct) == 48
    ensures SizeOf(VerifyConnectStruct) == 44
  {
  }

  /** The sizes of the remaining command structures: acknowledge 8,
      disconnect 8, bandwidth limit 12, throttle configure 16, send reliable
      6, send unreliable 8, send unsequenced 8, send fragment 24. */
  lemma PackedPayloadSizes()
    ensures SizeOf(AcknowledgeStruct) == 8
    ensures SizeOf(DisconnectStruct) == 8
    ensures SizeOf(BandwidthLimitStruct) == 12
    ensures SizeOf(ThrottleConfigureStruct) == 16
    ensures SizeOf(SendReliableStruct) == 6
    ensures SizeOf(SendUnreliableStruct) == 8
    ensures SizeOf(SendUnsequencedStruct) == 8
    ensures SizeOf(SendFragmentStruct) == 24
  {
  }

  /** Every structure other than the datagram header begins with the 4-byte
      command header, so the header of any command can be read from its first
      four bytes. */
  lemma EveryCommandStartsWithHeader(p: Protocol)
    ensures Fields(StructOf(p))[..2] == COMMAND_HEADER_RUNS
    ensures SizeOf(StructOf(p)) >= 4
  {
  }
}
