# rusty_enet core, modelled in Dafny

A model of the self-contained logic of rusty_enet, a partial Rust port of the
ENet reliable-UDP library, together with proofs about it. Four parts are
covered:

- **Peer send path and throttle** (`peer.dfy`, with the records in
  `channel.dfy` and `command.dfy`). This part covers:
  - the RTT-driven packet throttle;
  - the state guard of `disconnect`, and `reset`;
  - the queue-emptiness test;
  - sequence-number assignment and queue routing in `setup_outgoing_command`;
  - `queue_outgoing_command` and `throttle_configure`.

  A peer is an immutable record, and every operation is a pure function from
  the old peer to the new one. A call that would panic in Rust (the channel
  lookup) returns a `Failure`.
- **Wire-protocol tags** (`protocol.dfy`). This part covers:
  - the command-kind table `from_u8`;
  - the `COUNT`/`MASK` constants and the flag constants;
  - the per-variant header accessor and the `command()` resolution;
  - the packed byte layouts of the protocol structs and their sizes.
- **Range coder** (`range_coder.dfy`, `rescale.dfy`, `range_encoder.dfy`).
  This part covers:
  - symbol and context allocation in an index-addressed arena;
  - the post-order `symbol_rescale`, given as a recursive reference definition
    (`RangeCoder.Rescale`). The source's explicit-stack loop
    (`Rescale.SymbolRescale`) is shown to compute the same result on every
    tree;
  - the byte-emitting range encoder over a bounded buffer. Its `encode` and
    `flush` loops (`RangeEncoder.Encode`, `RangeEncoder.Flush`) are shown to
    agree with recursive definitions (`Normalize`, `Flushed`).
- **Version word** (`version.dfy`): packing and unpacking of the major,
  minor and patch bytes.

Fixed-width integers:

- Everything the wire protocol defines is a Dafny bit-vector of the
  source's width (`bv8`, `bv16`, `bv32`). This covers the protocol tags,
  flags and header fields, and every payload field of the packed command
  structures (the MTU, window size, channel count, bandwidths, throttle
  parameters, connect id, data and data length). The protocol's size limits
  are plain `nat` constants, except `MAXIMUM_PEER_ID`, which is a `bv32`.
- On the peer, the ids, session ids, flags and sequence counters are
  bit-vectors too. So every `+= 1` on a sequence counter wraps at 2^16, as
  ENet's counters do.
- The peer's remaining `u8`/`u16`/`u32` quantities are bounded integer
  newtypes (`u8`, `u16`, `u32` in `fixed.dfy`). Their wrap-around is written
  out with explicit 2^16 and 2^32 moduli (`WrappingAdd16`, `WrappingAdd`,
  `WrappingDouble`, `WrappingMul`). This covers the peer's throttle state,
  connect id, bandwidths, MTU, window size, data total and statistics. The
  whole range coder and encoder use these newtypes as well.
- The encoder's bitwise steps are restated arithmetically:
  - `x >> 24` becomes division by 2^24;
  - `x << 8` becomes `(x mod 2^24) * 256`;
  - `(low ^ (low + range)) >= 2^24` becomes "the two top bytes differ"
    (`TopBytesDiffer`);
  - `low.wrapping_neg() & 0xFFFF` becomes `(2^32 - low) mod 2^16`.

  `XorReachesTop` proves, on 32-bit bit-vectors, that the exclusive-or test
  holds exactly when the two words differ in their top byte. That the
  integer forms (`TopByte`, `WrappingAdd`) agree with `>> 24` and `+` on
  bit-vectors is not proved; see "## Left out".

Parameters and assumptions:

- `command_size` is not part of this model, and neither is the packet module.
  The send path takes `command_size` as a function parameter. A packet is
  reduced to its reference count.
- `header_mut` is not part of this model. Writing the sequence number through
  it is modelled as replacing the embedded header (`Protocol.SetHeader`).
- `OutgoingCommand::default()` needs a default `Protocol`, which is not shown.
  It is modelled as a bare all-zero command header.
- `to_be` is modelled as a 16-bit byte swap, as on a little-endian host.

## Model

| member | source | states |
|---|---|---|
| Protocol.Discriminant | src/protocol.rs:24-38 | every command kind's discriminant is below `COUNT` (13) |
| Protocol.DiscriminantInjective | src/protocol.rs:24-38 | distinct kinds have distinct discriminants |
| Protocol.FromU8 | src/protocol.rs:45-62 | `from_u8(v)` is `Some` exactly when `v < 13`, and then the kind's discriminant is `v` |
| Protocol.FromU8Discriminant | src/protocol.rs:45-62 | `from_u8` inverts the discriminant: every kind is recovered from its number |
| Protocol.FromU8Examples | src/protocol.rs:274-278 | 0 and 1 decode to None and Acknowledge; 255, and every value from 13 up, decode to nothing |
| Protocol.FlagValues | src/protocol.rs:66-76 | the flags are 128, 64, 16384 and 32768; the two command flags are disjoint from each other and from `MASK` |
| Protocol.PeerIdWordFields | src/protocol.rs:66-76 | in the 16-bit peer-id word, `MAXIMUM_PEER_ID` (0xFFF), the session mask and the header-flag mask are pairwise disjoint and together cover all 16 bits |
| Protocol.SessionIdRange | src/protocol.rs:74-75 | the session id extracted from any word is in 0..3, and the peer-id field is at most 0xFFF |
| Protocol.SetHeader | src/peer.rs:283 | replacing the embedded header yields that header and keeps the variant and its payload |
| Protocol.HeaderLens | src/protocol.rs:235-250 | the header accessor `GetHeader` (`header()`, the embedded header of every variant) and its replacement form a lens: putting back what was read changes nothing, and a second replacement overrides the first |
| Protocol.Kind | src/protocol.rs:253-255 | a resolved kind's discriminant equals the tag's low four bits |
| Protocol.KindIgnoresFlags | src/protocol.rs:253-255 | setting or clearing the acknowledge or unsequenced flag never changes the resolved kind |
| Protocol.CommandUndefinedIff | src/protocol.rs:253-255 | `Protocol.Command` (`command()`, `from_u8` of the tag masked with 0x0F) is None exactly when the masked tag is 13, 14 or 15, and otherwise resolves to the kind numbered by the masked tag |
| Protocol.PackedSizes | src/protocol.rs:264-271 | the packed header, command header, ping, connect and verify-connect layouts are 4, 4, 4, 48 and 44 bytes, as sums of their field widths |
| Protocol.PackedPayloadSizes | src/protocol.rs:78-214 | the remaining packed layouts have the byte sizes their field lists give (8, 8, 12, 16, 6, 8, 8, 24) |
| Protocol.EveryCommandStartsWithHeader | src/protocol.rs:78-214 | every command variant's layout begins with the 4-byte command header |
| Version.VersionCreate | src/lib.rs:8-10 | the version word is 0x010312 and fits in 24 bits |
| Version.GetVersion | src/lib.rs:12-14 | repacking the three unpacked bytes gives the word with bits 24-31 cleared |
| Version.UnpackPack | src/lib.rs:8-14 | unpacking inverts packing for every triple of bytes |
| Version.GetVersionIgnoresTopByte | src/lib.rs:12-14 | bits 24-31 are never read: `get_version(v) == get_version(v mod 2^24)` |
| Version.CurrentVersion | src/lib.rs:4-14 | the library's own version unpacks to (1, 3, 18) |
| Version.SameVersionIff | src/lib.rs:12-14 | two words unpack to the same version exactly when their low 24 bits agree |
| Peer.StateCode | src/peer.rs:7-16 | every state maps to one of the ten constants 0..9 |
| Peer.StateCodeInjective | src/peer.rs:7-16 | the ten state constants are distinct, so a state and its code determine each other |
| Peer.Disconnect | src/peer.rs:127-134 | in Disconnecting, Disconnected, AcknowledgingDisconnect or Zombie the peer is returned untouched; past the guard the body is empty, so it is untouched there too |
| Peer.DisconnectGuardCodes | src/peer.rs:127-131 | the guard fires exactly for the state codes 7, 0, 8 and 9, and not for DisconnectLater or Connected |
| Peer.DecreaseThreshold | src/peer.rs:147 | the degradation threshold is `last_rtt + 2 * variance` modulo 2^32 |
| Peer.Throttle | src/peer.rs:136-158 | only `packet_throttle` changes, and the result is -1, 0 or 1. Snap: limit and 0. Increase: `min(old + accel, limit)` and +1. Decrease: `max(old - decel, 0)` and -1. Neutral band: peer unchanged and 0. A throttle within its limit stays within it |
| Peer.ThrottleExample | src/peer.rs:136-158 | with last RTT 100 and variance 10, samples 90 and 100 raise the throttle, 121 lowers it, and 110 and 120 change nothing |
| Peer.Reset | src/peer.rs:182-201 | the state becomes Disconnected; connect id 0; outgoing peer id 0xFFF; both bandwidths 0; every other field of the peer unchanged |
| Peer.ResetIdempotent | src/peer.rs:191-201 | resetting twice equals resetting once; a reset peer ignores `disconnect`; reset does not touch the queues |
| Peer.NoOutgoingCommandsIff | src/peer.rs:203-205 | `HasOutgoingCommands` (`has_outgoing_commands`) is false exactly when all three command lists are empty |
| Peer.ToBe | src/peer.rs:283 | the big-endian form of a 16-bit number has its two bytes swapped |
| Peer.ToBeInvolution | src/peer.rs:283 | swapping twice gives the number back, so the stored header field determines the sequence number |
| Peer.AssignSequenceNumbers | src/peer.rs:251-277 | fails exactly when a non-control channel id is out of range; otherwise only the two sequence numbers of the command, and only the peer's counters and channel list, change |
| Peer.FinishSetup | src/peer.rs:280-306 | retransmission fields are zeroed; the header carries the reliable number in network byte order, and nothing else of it changes; the command is appended to the send-reliable queue iff it has the acknowledge flag and a packet, else to the generic queue |
| Peer.SetupOutgoingCommand | src/peer.rs:248-307 | fails exactly when the channel lookup would panic; only the send state changes; the finished command is the input with fresh sequence numbers, zeroed retransmission fields and a stamped header whose tag and channel id are unchanged, only its reliable number being rewritten; exactly one queue grows, by that command; the data total is overwritten with this command's size |
| Peer.SetupControlChannel | src/peer.rs:251-255 | on channel 0xFF the peer's reliable counter advances by one (mod 2^16) and numbers the command (new, 0); no channel and no unsequenced group moves |
| Peer.SetupOtherChannelsUnchanged | src/peer.rs:256-277 | on any other channel the peer-level counter stays, and every other channel is unchanged |
| Peer.SetupAcknowledged | src/peer.rs:259-264 | with the acknowledge flag the channel's reliable counter advances, its unreliable counter restarts at 0, and the command gets (new, 0) |
| Peer.SetupUnsequenced | src/peer.rs:265-269 | with the unsequenced flag the peer's unsequenced group advances, the command gets (0, 0), and no channel changes |
| Peer.SetupUnreliable | src/peer.rs:270-276 | otherwise only the unreliable counter can change: it advances for a first fragment (offset 0), stays for later fragments, and the command gets the channel's current pair |
| Peer.SetupLeavesCommandOutgoing | src/peer.rs:299-306 | after a successful setup `has_outgoing_commands` holds |
| Peer.ControlNumbersConsecutive | src/peer.rs:251-255 | two control-channel commands in a row are numbered `n + 1` and `n + 2` |
| Peer.ReliableThenUnreliable | src/peer.rs:259-276 | an unreliable first fragment after a reliable command on the same channel carries that command's reliable number and unreliable number 1 |
| Peer.ReliableNumberWraps | src/peer.rs:259-264 | a channel reliable counter at 0xFFFF numbers the next acknowledged command 0 |
| Peer.QueueOutgoingCommand | src/peer.rs:232-246 | fails exactly when setup fails; copies offset and length into a fresh command with zero timing fields; the header keeps the given command's tag and channel id and gains the reliable number in network byte order; takes exactly one more reference on the packet iff one is supplied; the command lands at the end of exactly one queue and the other queue keeps its contents; the link, throttle, statistics and sent-reliable list are unchanged |
| Peer.ConfigureThrottle | src/peer.rs:215-230 | stores interval, acceleration and deceleration; queues one packet-less control-channel command carrying them in the generic queue; advances the peer's reliable counter by one and records the command's size as the data total; nothing else of the send state changes (no channel, the unsequenced group, the sent-reliable list, the send-reliable queue); link and statistics are unchanged |
| Peer.ThrottleConfigure | src/peer.rs:215-230 | as written: the queued command resolves to ThrottleConfigure but is not flagged for acknowledgement |
| Peer.ThrottleConfigureTagLacksAcknowledge | src/peer.rs:222 | the tag written is `11 | 1 == 11`, without the acknowledge flag; ENet's tag is 0x8B |
| Peer.ThrottleConfigureAcknowledged | src/peer.rs:215-230 | corrected: the command resolves to ThrottleConfigure and is flagged for acknowledgement; the rest as above |
| RangeCoder.Create | src/range_coder.rs:36-39 | a new coder has an empty arena |
| RangeCoder.CreateSymbol | src/range_coder.rs:41-55 | appends exactly one leaf: the given value and count, `under == count`, all links and totals 0; earlier symbols unchanged; returns the new last index |
| RangeCoder.CreateContext | src/range_coder.rs:57-66 | appends exactly one node with the given escapes, zero value, count, `under`, `symbols`, left, right and parent links, and the initial total; returns its index |
| RangeCoder.ContextTotal | src/range_coder.rs:62 | without overflow the total is `escapes + 256 * minimum`; in every case it exceeds `escapes` by 256 times the low byte of `minimum`, modulo 2^16 |
| RangeCoder.ContextTotalWraps | src/range_coder.rs:62 | the 16-bit truncation and wrap-around: minimum 256 adds nothing, bits above 15 are dropped, 0xFFFF + 256 wraps to 0xFF |
| RangeCoder.CreateExamples | src/range_coder.rs:180-202 | the symbol (42, 5) is a leaf with `under` 5; a context with ten escapes and minimum 1 starts at total 266 |
| RangeCoder.Halve | src/range_coder.rs:105 | `count - count / 2` is half the count rounded up: never more than the count, at least 1 if the count was, strictly smaller from 2 up |
| RangeCoder.FinishNode | src/range_coder.rs:87-107 | finishing node `i` changes only that node: its count is halved (rounding up) and its new `under` is its new count plus its children's `under` in 16 bits (`UnderSums`); that `under` is returned for the running total; child offsets are kept |
| RangeCoder.RescaleCounts | src/range_coder.rs:76-111 | on a tree every reachable node's count is halved, rounding up |
| RangeCoder.RescaleUnder | src/range_coder.rs:87-106 | on a tree every reachable node's new `under` is its new count plus the new `under` of each present child, in 16 bits |
| RangeCoder.TotalIsSumOfUnder | src/range_coder.rs:71-111 | the returned total is the 16-bit sum of the new `under` values of the reachable nodes |
| RangeCoder.RescaleFrame | src/range_coder.rs:68-112 | nodes outside the subtree are unchanged, and inside it only counts and `under` values change |
| RangeCoder.RescaleSimpleTree | src/range_coder.rs:205-229 | the three-node example tree rescales to counts 4, 2, 1, `under` values 7, 2, 1 and total 10 |
| Rescale.Turn | src/range_coder.rs:76-108 | one loop turn is one application of `Rescale.Step`, the loop body as a function on the loop's variables (enter: mark and push right, then left; revisit: pop and finish); an index past the arena fails; every successful turn marks a new node or pops the stack |
| Rescale.WalkOnTree | src/range_coder.rs:68-112 | started on a tree, the loop stops after two turns per node without failing, holding the reference arena and total |
| Rescale.TreeWalkNeverFails | src/range_coder.rs:76-108 | on a tree no turn of the loop reads out of bounds |
| Rescale.SymbolRescale | src/range_coder.rs:68-112 | on a tree the loop returns exactly the reference `Rescale`; a start index outside the arena is the out-of-bounds failure; on any arena the loop stops and keeps the tree shape |
| Rescale.SimpleTreeWalk | src/range_coder.rs:205-229 | the loop on the example tree halves the counts, gives the root its count plus its children's `under`, and returns 10 |
| RangeEncoder.New | src/range_coder.rs:123-130 | a fresh encoder is at position 0 with `low` 0 and `range` 0xFFFFFFFF |
| RangeEncoder.WriteByte | src/range_coder.rs:132-139 | fails and changes nothing exactly when the buffer is full; otherwise writes the byte at the position, advances by one, and leaves every other byte alone |
| RangeEncoder.Narrow | src/range_coder.rs:142-144 | the narrowing of `encode` leaves the buffer and the position alone; its effect on `low` and `range` is given only by its wrapping 32-bit definition (see "## Left out") |
| RangeEncoder.TopByte | src/range_coder.rs:155 | the byte emitted is `floor(x / 2^24)` |
| RangeEncoder.ShiftLeft8 | src/range_coder.rs:159-160 | `x << 8` keeps the low 24 bits, moved up a byte |
| RangeEncoder.XorReachesTop | src/range_coder.rs:147 | on 32-bit bit-vectors, `(a ^ b) >= 2^24` holds exactly when `a >> 24 != b >> 24` |
| RangeEncoder.Shrink | src/range_coder.rs:147-153 | when the ends differ in their top byte, the new range makes `low + range` a multiple of 2^16; otherwise nothing changes |
| RangeEncoder.ShiftOut | src/range_coder.rs:159-160 | after a byte is emitted, `range` and `low` each keep their low 24 bits, moved up a byte; the buffer and the position are unchanged |
| RangeEncoder.Normalize | src/range_coder.rs:146-161 | never moves backward or past the buffer, touches only the bytes between the old and new positions, and ends normalised (top bytes differ and range at least 2^16) or with a full buffer |
| RangeEncoder.Encode | src/range_coder.rs:141-164 | the loop computes the reference `Encoded`; the position stays within the buffer; false only when a write failed on a full buffer; true only once normalised |
| RangeEncoder.Flushed | src/range_coder.rs:166-173 | flushing keeps the buffer length and the range, touches only bytes it wrote, and stops with `low` 0 or a full buffer |
| RangeEncoder.ShiftDropsByte | src/range_coder.rs:171 | shifting a non-zero `low` left a byte leaves one significant byte fewer |
| RangeEncoder.FlushedCount | src/range_coder.rs:166-173 | flush writes exactly the significant bytes of `low` that fit: `min(significant bytes, room left)` |
| RangeEncoder.FlushedBytes | src/range_coder.rs:166-173 | the bytes flush writes are those of `low`, most significant first |
| RangeEncoder.Flush | src/range_coder.rs:166-173 | the loop computes the reference `Flushed`; at most four writes; stops with `low` 0 or a full buffer; the position stays within the buffer |
| RangeEncoder.EncodeFlushExample | src/range_coder.rs:231-241 | encoding (5, 10, 100) into a ten-byte buffer succeeds without output, and flushing then writes the four bytes 0C CC CC C8 |
| RangeEncoder.EncodeOneByteExample | src/range_coder.rs:243-250 | with a one-byte buffer the same call succeeds and the position stays within the buffer |

## Left out

- `Peer::receive` (src/peer.rs:160-171) is a stub that always returns nothing, and is not modelled.
- `on_connect` and `on_disconnect` only update host counters, which are commented out. They write no peer field. `reset` calls `on_disconnect`, and this is modelled as having no effect.
- The `match` on the masked tag in `setup_outgoing_command` (src/peer.rs:287-297) has empty arms and is not modelled.
- The queue-time stamping in `setup_outgoing_command` is commented out, so `queue_time` is left as it was.
- `command_size` and the packet module are not part of this model. `command_size` is a function parameter. A packet is a reference count: the `Rc<RefCell<..>>` sharing is not modelled.
- The event module, `Acknowledgement` and `IncomingCommand` are data with no behaviour, and are not modelled. The same goes for the `Vec<()>` list-node placeholder fields.
- Addresses, opaque data pointers, sockets and the host service loop (all I/O) are not modelled.
- The PPM context model and the range decoder are not present in the source, and are not modelled.
- Rust debug builds panic on integer overflow. The model wraps instead, as ENet's C code and Rust release builds do. This applies to:
  - the `+= 1` on 16-bit counters;
  - the throttle's `+ accel` and its `last_rtt + 2 * variance`;
  - the data total;
  - the encoder's `low += under * range`, `range *= count` and `low + range`;
  - the 16-bit `under` and total sums in `symbol_rescale`;
  - the 16-bit context total.
- `throttle` with `rtt == last_roundtrip_time` returns +1, because the test is `rtt <= last_roundtrip_time`, although a description of the rule as "improving when faster than the last RTT" would put it in the neutral band. The model follows the code's `<=`.
- `outgoing_data_total` is overwritten with the current command's size, where ENet's C code adds to it. The model follows the code.
- Rescale.SymbolRescale: on an arena whose reachable part is not a tree (shared or out-of-range children), only termination and shape preservation are stated. The values it computes there are not specified.
- RangeEncoder.Narrow: the narrowing `range /= total; low += under * range; range *= count` is stated through wrapping 32-bit arithmetic only. No interval-containment property is proved about it.
- RangeEncoder.Encode: the model does not prove that its integer restatements agree with the source's bitwise forms. This covers `TopBytesDiffer` for `(low ^ (low + range)) >= 2^24`, `TopByte` for `>> 24`, `WrappingAdd` for `+`, `ShiftLeft8` for `<< 8`, and `Shrink` for `wrapping_neg() & 0xFFFF`. Only the exclusive-or step is proved, and only on bit-vectors (`XorReachesTop`). Conversions between bit-vectors and integers are not reasoned about in this model.
- Division by a zero `total` panics in `encode`. The model requires `total > 0`.

## Findings

| source | as written | input that shows it | evidently intended | confidence | as-written member | corrected member |
|---|---|---|---|---|---|---|
| src/peer.rs:222 | the throttle-configure tag is `ThrottleConfigure as u8 \| Acknowledge as u8`, that is `11 \| 1 == 11`, which ORs in the Acknowledge kind number rather than the acknowledge flag | any call of `throttle_configure`: the queued command's tag is 11, and `11 & 0x80 == 0` | tag `11 \| COMMAND_FLAG_ACKNOWLEDGE == 0x8B`, so that the peer acknowledges the configuration, as ENet's C code sends it | high; not executed | Peer.ThrottleConfigure, Peer.ThrottleConfigureTagLacksAcknowledge | Peer.ThrottleConfigureAcknowledged |
