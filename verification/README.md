# SLIP gateway, checksum, DHCP relay and board arithmetic, proved in Dafny

This project models the host tools that put IP packets on a serial line
(`tunslip`, `tunslip6`, `tapslip6`, `scat`) and two pieces of board code (the
radio configuration loader and the microsecond-to-tick conversion), and proves
what they promise. `dafny verify dfyconfig.toml` checks all of it.

| file | models |
|---|---|
| `Bytes.dfy` | octets, 16-bit words, network byte order |
| `SlipCodec.dfy` | SLIP framing (RFC 1055, "PROTOCOL") as functions; round trip, chunking, size |
| `SlipPorts.dfy` | the 2000-byte output buffer, in place |
| `SlipReceivers.dfy` | the resumable receive loop over a stdio stream, in place |
| `Scat.dfy` | the second decoder, with its nested read-ahead loops |
| `SlipLink.dfy` | sender, wire and receiver as a state machine; end-to-end theorems |
| `SlipSenders.dfy` | the sending half every gateway shares, whose invariant is that its state is that of a run |
| `OnesComplement.dfy` | `ip4sum` and its algebra (section 2 of RFC 1071) |
| `PacketCheck.dfy` | `check_ip` and the in-place id/checksum patch (section 3 of RFC 1624) |
| `Tunslip.dfy` | the IPv4 gateway's decisions: what `write_to_serial` sends, where frames go |
| `DhcpOptions.dfy`, `DhcpRelay.dfy` | option parsing and both directions of the relay |
| `TunslipReceiver.dfy` | the IPv4 gateway's receive half: tun device, relayed requests, host routes |
| `TunslipGateway.dfy` | the IPv4 gateway's main loop, with the tun device, the DHCP socket and the receive half |
| `Tunslip6.dfy` | the IPv6 gateway: frame dispatch, the "!P" prefix reply |
| `Tunslip6Gateway.dfy` | the IPv6 gateway's main loop: frames handled, replies, pacing, one packet at a time |
| `Ipv6Expansion.dfy` | the "::" parse and in-place shift of `ifconf` |
| `Pacing.dfy` | the delay between outgoing packets |
| `RadioConfig.dfy` | the length-prefixed command list and its CTS handshake |
| `TickConversion.dfy` | `osKernelSysTickMicroSec` against the exact quotient |

Buffers and globals of the original are fields of classes and arrays; loops are
loops. What a method does is stated by a function of its inputs or of the old
state, and the properties are lemmas about those functions. What the outside
does is arbitrary: the byte count a write takes or EAGAIN, how the line is cut
into chunks, what the clock says (as long as it does not run backwards), and what
the radio chip shows at every poll, sends behind it, and does to its interrupt line
(`Chip`, any functions of the poll).

Two state machines carry the main results. `SlipLink` has the actions "packet
queued" (only with an empty buffer), "control frame queued" (any time), "partial
write or EAGAIN" and "chunk read"; `SlipSenders.Sender` keeps, as its invariant,
that its state is the state of a run of that machine. Both main loops
(`TunslipGateway.Gateway`, `Tunslip6Gateway.Gateway6`) are built on it, so every
theorem about runs holds of them at any time. No bound on packet sizes is assumed
there: a packet too long for the receiver does not fit in the sender's buffer. The
receive halves keep, as their invariant, that what has been done is what the frames
received so far ask for; so at the other end of a line in any state it reaches, the
packets written to the tun device are known (`PeerWritesPackets`,
`PeerWritesForwarded`).

## What turned out false, and exactly when it is true

Each item names the exact condition, then an input on which the property fails.

- `write_to_serial` sends every sound packet, except one with a header of 8 bytes
  that is given an id not congruent to 0 (`SentIffSound`, `PatchKeepsAcceptance`).
  On a little-endian host such a packet is dropped by the second check
  (`ShortHeaderIsDropped`); a big-endian host does not patch that one.
- A frame comes back from the decoder exactly when it has 1 to 1999 bytes
  (`RoundTripExactly`; `FullBufferIsLost`).
- `scat` and the gateways agree on a stream exactly when no frame in it reaches
  2000 bytes, told from the stream alone (`AgreementExactly`; `LongStreamDisagrees`).
- The server sees the client's options and the relay's exactly when the options in
  front of the last byte of the request are complete, so that this byte was END or a
  PAD (`ServerSeesRelayOptions`; `RelayOptionsLost`). The comment in `tunslip.c:191`
  says END is searched for; the code takes the last byte.
- "::" is expanded correctly exactly when `Expandable` holds; in particular an
  address that elides a single group, or is written in full, loses its last
  group unless that is zero (`ExpansionIsCanonicalIff`, `FullFormLosesLastGroup`;
  `NotAlwaysExpanded`).
- For a clock of whole megahertz the tick macro is exact exactly while the product
  fits in 32 bits (`ExactForWholeMegahertz`; `WrapsAtOneMinute`).
- The "don't fragment" test at `tunslip.c:642` is made on the host value of the
  field. It tells the flag exactly on a big-endian host, or where bit 6 of the field
  agrees with the flag (`FlagIsReadIff`). On a little-endian host an unfragmented
  packet with the flag set, field 0x4000, is given no id (`FlagIsMissed`).
- What `check_ip` says of a packet is the packet's own exactly when it is `Settled`:
  a UDP packet too short for its checksum field, failing its sum, is accepted or not by
  bytes behind it (`OwnVerdictIffSettled`; `StaleFieldDecides` gives the input).
- The relay reads a reply's options as RFC 2132 has them exactly when it meets no PAD
  (`StandardIffNoPad`; `PadIsMisread` loses a router option).
- The tick macro is within its bound of the exact value exactly when no 32-bit
  intermediate result wraps (`FastIsCloseIff`; `WrapsAtOneMinute`).

## Preconditions taken from the source

- `check_ip` reads a struct of 28 bytes, and does not test that the header fits
  the packet: `Readable` asks for both, and a received frame that is not `Readable` is
  taken to have no effect. The patch further needs the 20 bytes of the fixed header
  (`Patchable`), whatever header length the packet claims. What the main loop queues
  is assumed to be `Settled`, which the proof that peers accept it needs (`Handable`).
- A relayed request leaves 26 option bytes free (`Servable`; others are taken to send
  nothing). Replies hold a magic cookie and options that the relay's own loop can read
  to the end: each length inside the reply, DNS options of at least 4 bytes.
- Radio commands in the list are in bounds; commands of one byte go out with a
  second, stale byte, and the model says so (`Carries`).

## Model

| member | source | states |
|---|---|---|
| SlipCodec.RunConcat | contiki-2.7/tools/tunslip.c:453-584 | decoding two stretches one after the other is decoding them joined |
| SlipCodec.RunMonotone | contiki-2.7/tools/tunslip.c:489-560 | frames once delivered stay delivered, in place |
| SlipCodec.RunBounded | contiki-2.7/tools/tunslip.c:472-474 | the partial frame is always shorter than the 2000-byte buffer |
| SlipCodec.CallIsRun | contiki-2.7/tools/tunslip.c:561-567 | pushing a dangling ESC back and rereading it on the next call is the same as having remembered it |
| SlipCodec.ChunkingIndependence | contiki-2.7/tools/tunslip.c:453-584 | for every stream and every cut into calls: same frames, same carried state as one call |
| SlipCodec.DecodeEscaped | contiki-2.7/tools/tunslip6.c:157-318 | decoding the stuffing of any packet leaves its last length-mod-2000 bytes and one discarded buffer per full 2000 |
| SlipCodec.RoundTripExactly | contiki-2.7/tools/tunslip6.c:380-427 | decode(encode(p)) is [p] if and only if 1 <= length <= 1999 |
| SlipCodec.FullBufferIsLost | contiki-2.7/tools/tunslip6.c:173-178 | of a packet of 2000 bytes nothing is delivered |
| SlipCodec.RoundTripAll | contiki-2.7/tools/tunslip6.c:157-427 | any list of packets, with any extra ENDs (empty packets), decodes to exactly its non-empty packets in order |
| SlipCodec.BodyHasNoEnd | contiki-2.7/tools/tunslip6.c:410-424 | no stuffed body contains a bare END |
| SlipCodec.EncodedLength | contiki-2.7/tools/tunslip.c:662-678 | encoded size is length + number of ENDs + number of ESCs + 1 |
| SlipCodec.OctetsMean | contiki-2.7/tools/tunslip.c:444-447 | 0xC0 and 0xDB are stuffed as 0xDB 0xDC and 0xDB 0xDD, everything else stands for itself; behind an escape any other octet is taken as it stands |
| SlipCodec.EncodeMeans | contiki-2.7/tools/tunslip.c:662-678 | the encoding octet by octet, ended by one 0xC0 |
| SlipCodec.StepMeans | contiki-2.7/tools/tunslip.c:471-583 | one octet read, in literal octets, with the buffer restarting at 2000 |
| SlipPorts.CapacityFromEmpty | contiki-2.7/tools/tunslip.c:589-596 | from an empty buffer the overflow exit is taken exactly when that size exceeds 2000; 999 bytes always fit; what fits anywhere has at most 1999 bytes |
| SlipPorts.SlipPort.View | contiki-2.7/tools/tunslip6.c:320-321 | in every valid state all bytes sent are the bytes written followed by the pending ones, and the cursors are in order |
| SlipPorts.SlipPort.SlipSend | contiki-2.7/tools/tunslip6.c:341-349 | appends one byte, or exits with the state unchanged exactly when slip_end is 2000 |
| SlipPorts.SlipPort.SlipEmpty | contiki-2.7/tools/tunslip6.c:351-355 | the test slip_end == 0 holds exactly when nothing is pending |
| SlipPorts.SlipPort.SlipSendChar | contiki-2.7/tools/tunslip6.c:323-339 | appends the stuffing of one byte |
| SlipPorts.SlipPort.WriteToSerial | contiki-2.7/tools/tapslip6.c:262-294 | appends exactly the encoded packet; fails exactly when it does not fit |
| SlipPorts.SlipPort.SlipFlushbuf | contiki-2.7/tools/tunslip6.c:357-378 | moves exactly the bytes the descriptor took from pending to written; EAGAIN changes nothing |
| SlipPorts.OverflowIsFinal | contiki-2.7/tools/tunslip.c:592-593 | an overflow in the middle of a packet is an overflow of the packet |
| SlipReceivers.SlipReceiver.EndOfFrame | contiki-2.7/tools/tunslip.c:490-559 | a non-empty frame is handed over together with the whole buffer it ended in, and the buffer restarted; extra ENDs do nothing |
| SlipReceivers.SlipReceiver.StoreByte | contiki-2.7/tools/tunslip.c:578-580 | stores within the buffer in every case |
| SlipReceivers.SlipReceiver.ReadOne | contiki-2.7/tools/tunslip.c:471-583 | one byte, or ESC and its companion, moves the state as the decoder does; an ESC without companion is put back |
| SlipReceivers.SlipReceiver.ReadMore | contiki-2.7/tools/tunslip.c:471-584 | the loop decodes all that is readable and returns with room for one more byte |
| SlipReceivers.SlipReceiver.SerialToTun | contiki-2.7/tools/tunslip.c:453-584 | a call decodes its chunk behind the carried state, on Linux and elsewhere; the Linux error exit is taken exactly on reading nothing |
| Scat.Scat | contiki-2.7/tools/scat.c:158-194 | the nested loops emit every stored byte of the stream |
| Scat.Agreement | contiki-2.7/tools/scat.c:158-194 | for every stream, including invalid escapes: the dumper is ahead of the gateway by 2000 bytes per discarded buffer and equal when there was none |
| Scat.DropsIffLong | contiki-2.7/tools/tunslip.c:471-474 | the gateway discards a buffer if and only if some frame of the stream, measured on the stream alone, reaches 2000 stored bytes |
| Scat.AgreementExactly | contiki-2.7/tools/scat.c:158-194 | dumped bytes equal delivered frames plus partial frame if and only if no frame of the stream reaches 2000 stored bytes |
| Scat.LongStreamDisagrees | contiki-2.7/tools/scat.c:158-194 | 2000 ordinary bytes are a stream on which they differ |
| SlipLink.NextConserves | contiki-2.7/tools/tunslip.c:1056-1112 | every step keeps: written + pending is END plus the encodings queued, and the receiver is the decoder of what it has read |
| SlipLink.RunsConserve | contiki-2.7/tools/tunslip.c:1056-1112 | this holds in every reachable state |
| SlipLink.DeliveredIsPrefixOfQueued | contiki-2.7/tools/tunslip.c:453-680 | in every run the frames delivered are a prefix of the non-empty frames queued, and none is ever dropped |
| SlipLink.EverythingArrives | contiki-2.7/tools/tunslip.c:453-680 | with the buffer empty and the wire read, all of them have been delivered and nothing is left over |
| SlipLink.PacketOverflow | contiki-2.7/tools/tunslip.c:1078-1105 | in every reachable state where a packet may be taken, queueing it overflows exactly when its own encoding exceeds 2000 bytes |
| OnesComplement.ComputeIp4Sum | contiki-2.7/tools/tunslip.c:342-361 | the carry loop returns 0 for a zero total and 1 + (total - 1) mod 65535 otherwise |
| OnesComplement.WordSumStep | contiki-2.7/tools/tunslip.c:349-359 | words are read high octet first, and a last odd octet counts as a high one |
| OnesComplement.ZeroOnlyFromZeros | contiki-2.7/tools/tunslip.c:342-361 | the sum is 0 if and only if the start value and all bytes are 0 |
| OnesComplement.SplitsAtEvenOffsets | contiki-2.7/tools/tunslip.c:387-392 | summing in two calls cut at an even offset equals one call |
| OnesComplement.WordOrderIsIrrelevant | contiki-2.7/tools/tunslip.c:349-354 | permuting the words leaves the sum unchanged |
| OnesComplement.CommutesWithByteSwap | contiki-2.7/tools/tunslip.c:342-361 | summing byte-swapped words gives the byte-swapped sum |
| OnesComplement.SwapOfAdd | contiki-2.7/tools/tunslip.c:646-649 | adding with end-around carry commutes with swapping octets |
| PacketCheck.AcceptedIffSound | contiki-2.7/tools/tunslip.c:363-412 | check_ip accepts if and only if version and length agree and every covered total is a multiple of 65535 |
| PacketCheck.CodesMean | contiki-2.7/tools/tunslip.c:363-412 | the exact condition of each code -1 to -7, told from the length field and the totals |
| PacketCheck.TotalsMean | contiki-2.7/tools/tunslip.c:377-392 | which words each total covers: pseudo-header of protocol, length and both addresses |
| PacketCheck.HeaderTest | contiki-2.7/tools/tunslip.c:378-382 | the header test passes exactly on a nonzero multiple of 65535 |
| PacketCheck.ZeroIsOnlyAnEmptyIcmpBody | contiki-2.7/tools/tunslip.c:378-410 | of the two passing sums, 0 is met only by an ICMP body of zeros |
| PacketCheck.OneWordChangeIsRejected | contiki-2.7/tools/tunslip.c:363-412 | changing one word to an incongruent value, in the header, or in a TCP, ICMP or checksummed UDP body, always turns acceptance into rejection |
| PacketCheck.StaleBytesAreIrrelevant | contiki-2.7/tools/tunslip.c:456-497 | acceptance of a settled packet does not depend on what is behind it in the buffer, whatever its header length |
| PacketCheck.OwnVerdictIffSettled | contiki-2.7/tools/tunslip.c:384-402 | acceptance is the packet's own, for every memory around it, if and only if it is not a UDP packet without room for its checksum field that fails its sum |
| PacketCheck.StaleFieldDecides | contiki-2.7/tools/tunslip.c:396-402 | such a packet is rejected once the two bytes behind it change |
| PacketCheck.PatchIsEndianFree | contiki-2.7/tools/tunslip.c:642-649 | the patch made on host values stores, on either kind of machine, the id and the checksum less the id in network order |
| PacketCheck.PatchKeepsAcceptance | contiki-2.7/tools/tunslip.c:642-654 | an accepted packet with id 0 is accepted after the patch, for every new id, if and only if its header length is not 8 or the id is 0 modulo 65535 |
| PacketCheck.PatchKeepsTransportSum | contiki-2.7/tools/tunslip.c:642-649 | wherever the patch keeps the header sum it keeps the transport sum |
| Tunslip.SentIffSound | contiki-2.7/tools/tunslip.c:636-655 | a packet is sent if and only if it is sound as received and is not patched in a header of 8 bytes with an id that is not 0 modulo 65535; an unsound one is dropped with the first check's code, the other with -4 |
| Tunslip.SentBytes | contiki-2.7/tools/tunslip.c:642-660 | the bytes sent: a packet without id whose flag reads as set gets the new id, its checksum moved by as much and nothing else touched; any other is sent as it came |
| Tunslip.IdIsUsedUp | contiki-2.7/tools/tunslip.c:642-643 | an id is used up exactly by a sound packet that is patched, and the next one differs |
| Tunslip.SecondCheckNeverDrops | contiki-2.7/tools/tunslip.c:650-654 | with a header of at least 20 bytes the check after the patch never drops a packet |
| Tunslip.ShortHeaderIsDropped | contiki-2.7/tools/tunslip.c:642-654 | on a little-endian host the second check drops this sound packet; a big-endian host asks for no id |
| Tunslip.FlagIsReadIff | contiki-2.7/tools/tunslip.c:642 | the "don't fragment" test tells the flag if and only if the host is big-endian or bit 6 of the field agrees with it |
| Tunslip.FlagIsMissed | contiki-2.7/tools/tunslip.c:642 | on a little-endian host the field 0x4000 asks for no id, and 0x0040 does |
| Tunslip.DeliveredWhere | contiki-2.7/tools/tunslip.c:497-556 | where every frame goes, by soundness and literal octets: tun device, DHCP side, address announcement, text, or refused |
| Tunslip.OutgoingIsChecked | contiki-2.7/tools/tunslip.c:627-680 | whatever is queued passes check_ip on its own, with any header length |
| Tunslip.PacketsReachTheTunDevice | contiki-2.7/tools/tunslip.c:453-680 | in every run each delivered frame is the "?IPA" request or passes the receiver's check_ip, whatever its buffer held before, and is written to tun unaltered, or to the open DHCP relay if it is a client's broadcast |
| SlipSenders.Sender.SendControl | contiki-2.7/tools/tunslip.c:1061-1069 | a frame sent whatever is pending: one more step of the run, or the exit exactly on overflow |
| SlipSenders.Sender.SendPacket | contiki-2.7/tools/tunslip6.c:380-427 | with the buffer empty, queues exactly this packet, or exits exactly when its encoding exceeds the buffer |
| SlipSenders.Sender.Flush | contiki-2.7/tools/tunslip.c:604-624 | one write step of the run: exactly the bytes the descriptor takes, from the front of those pending, are written; fails only on a write error |
| SlipSenders.Sender.PeerReads | contiki-2.7/tools/tunslip.c:1092-1094 | the peer decodes any next chunk of what was written; the run goes on |
| SlipSenders.SenderIsReached | contiki-2.7/tools/tunslip.c:1056-1112 | every state a sender can be in is reachable: what has been written is a prefix of END and the frames queued, the rest is waiting, frames delivered are a prefix of frames queued, nothing discarded |
| TunslipReceiver.Receiver.Handle | contiki-2.7/tools/tunslip.c:497-556 | one frame writes to tun, sends to the server, or reroutes exactly as its fate says: a relayed frame also makes a write of no bytes, an announcement of the address in force changes nothing |
| TunslipReceiver.Receiver.Hear | contiki-2.7/tools/tunslip.c:453-584 | decodes exactly what was read and handles every frame it brought to an end, in order |
| TunslipReceiver.DoneIsEffects | contiki-2.7/tools/tunslip.c:489-559 | at any time, what has been written, sent and routed is exactly what the frames received so far ask for |
| TunslipReceiver.SoundIsWritten | contiki-2.7/tools/tunslip.c:542-556 | a frame is written to tun if and only if it is sound; of a relayed one nothing is |
| TunslipReceiver.RequestsAreServed | contiki-2.7/tools/tunslip.c:544-551 | over every sequence of frames, while the relay is open each sound BOOTREQUEST broadcast from port 68 to 67 of a length it can take reaches the server, once and in order, and nothing else |
| TunslipReceiver.LastIsInForce | contiki-2.7/tools/tunslip.c:498-530 | the address in force is that of the last "=IPA" frame of 8 bytes |
| TunslipReceiver.ServedAndRouted | contiki-2.7/tools/tunslip.c:489-559 | both at any time of a receiver's life, with the one route of that address |
| TunslipReceiver.OneRoute | contiki-2.7/tools/tunslip.c:498-530 | over every sequence of frames, only routes in force are deleted, only routes not in force added, and the one in force is that of the address last announced |
| TunslipReceiver.ExpectedFramesArrive | contiki-2.7/tools/tunslip.c:497-556 | of checked packets and address requests, all packets and nothing else are written, and no route is touched |
| TunslipReceiver.PeerWritesPackets | contiki-2.7/tools/tunslip.c:453-680 | at the far end of a gateway's line in any state it reaches, what has been written to tun is exactly the packets delivered, a prefix of those queued, and the server has been sent exactly the requests among them |
| TunslipGateway.Gateway.constructor | contiki-2.7/tools/tunslip.c:1041 | the loop starts with one END queued |
| TunslipGateway.Gateway.RequestAddress | contiki-2.7/tools/tunslip.c:1061-1069 | queues "?IPA" at any time, exiting only on overflow |
| TunslipGateway.Gateway.AssignId | contiki-2.7/tools/tunslip.c:643-649 | patches the packet in place as specified and uses up one id |
| TunslipGateway.Gateway.Validate | contiki-2.7/tools/tunslip.c:636-655 | decides and patches exactly as the outcome function says, also for headers under 20 bytes; ids move only when used |
| TunslipGateway.Gateway.WriteToSerial | contiki-2.7/tools/tunslip.c:627-680 | queues exactly the outcome's packet, for any header length, and exits exactly when it cannot fit an empty buffer |
| TunslipGateway.Gateway.TunToSerial | contiki-2.7/tools/tunslip.c:1101-1105 | the tun source queues exactly its outcome and leaves waiting what the descriptor did not take; packets of up to 999 bytes never exit |
| TunslipGateway.Gateway.RelayReply | contiki-2.7/tools/tunslip.c:1107-1110 | a DHCP reply queues exactly the packet built for the client, unchanged, uses up exactly one id, and never overflows |
| TunslipGateway.Gateway.Exchange | contiki-2.7/tools/tunslip.c:1061-1099 | decodes exactly what was read, writes what the descriptor takes; packets are asked for exactly when no alarm fired and the buffer was empty |
| TunslipGateway.Gateway.Turn | contiki-2.7/tools/tunslip.c:1056-1112 | one turn extends the run, decodes exactly the bytes read and deals with the frames in them, queues exactly the request, the tun packet and the DHCP packet, in order, with the ids they use up; what is left waiting follows from what each write took, and decides whether the reply is read; it never exits without alarm, write error or packet over 999 bytes |
| TunslipGateway.GatewayIsReached | contiki-2.7/tools/tunslip.c:1056-1112 | at any time the gateway and its peer are in a state reached by checked packets: the theorems of SlipLink and Tunslip hold of it |
| Tunslip6.ForwardedIffTun | contiki-2.7/tools/tunslip6.c:192-273 | a frame is written to tun if and only if its first byte is no marker and some later byte is not text |
| Tunslip6.FramesReachTheTunDevice | contiki-2.7/tools/tunslip6.c:157-318 | in every run each delivered frame is the matching queued one, and is written to tun exactly in that case |
| Tunslip6.SendPrefixReply | contiki-2.7/tools/tunslip6.c:234-240 | the hand-made "!P" reply is the encoding of one frame, queued behind whatever is pending, or an overflow exactly when it does not fit |
| Tunslip6.PrefixReplyIs | contiki-2.7/tools/tunslip6.c:234-240 | the reply is 0x21, 0x50 and the first eight octets of the address |
| Tunslip6.ReactionsMean | contiki-2.7/tools/tunslip6.c:192-273 | every reaction, by the octets of the buffer |
| Tunslip6Gateway.AsksMeans | contiki-2.7/tools/tunslip6.c:216-217 | a frame asks for the prefix if and only if the buffer it ended in starts with "?P"; what was there before matters to one-byte frames only |
| Tunslip6Gateway.Gateway6.HandleAll | contiki-2.7/tools/tunslip6.c:192-273 | the frames are dispatched one by one: a reply queued for each that asks, those for the tun device written, in order |
| Tunslip6Gateway.TunFramesAreForwarded | contiki-2.7/tools/tunslip6.c:192-273 | what is written to tun is told from the frames alone, whatever the buffers held before |
| Tunslip6Gateway.Gateway6.Reply | contiki-2.7/tools/tunslip6.c:234-240 | a prefix reply is one control frame of the run, or an overflow exactly when it does not fit |
| Tunslip6Gateway.Gateway6.TakePacket | contiki-2.7/tools/tunslip6.c:973-998 | a ready packet is taken exactly when the delay is over, which below 2^31 ms is when more than basedelay has passed, and its time is recorded when there is a delay |
| Tunslip6Gateway.Gateway6.Turn | contiki-2.7/tools/tunslip6.c:920-1000 | one turn extends the run, decodes exactly the bytes read, queues as many replies as there are frames among them that ask, takes the packet exactly when the buffer was empty, nothing was answered and the delay is over, keeps the tun device's record, and leaves waiting what its write did not take |
| Tunslip6Gateway.Gateway6IsReached | contiki-2.7/tools/tunslip6.c:920-1000 | at any time this loop and its peer are in a reachable state, so frames delivered are a prefix of frames queued, and packets are spaced by more than basedelay |
| Tunslip6Gateway.PeerWritesForwarded | contiki-2.7/tools/tunslip6.c:157-427 | at the far end of a line in any state it reaches, what has been written to tun is a prefix of the forwardable frames queued |
| DhcpOptions.ParseSer | contiki-2.7/tools/tunslip.c:257-296 | printing options in front of anything parseable and parsing gives them back |
| DhcpOptions.SerParse | contiki-2.7/tools/tunslip.c:257-296 | what is parsed, printed again, is what was read |
| DhcpOptions.StandardIffNoPad | contiki-2.7/tools/tunslip.c:261-290 | the relay reads options as sections 3.1 and 3.2 of RFC 2132 have them if and only if it meets no PAD |
| DhcpOptions.PadIsMisread | contiki-2.7/tools/tunslip.c:261-290 | a PAD in front makes the relay drop a router option |
| DhcpOptions.StandardBehind | contiki-2.7/tools/tunslip.c:191-216 | complete options, PADs included, in front of anything leave the outcome to it |
| DhcpOptions.FilterTwice | contiki-2.7/tools/tunslip.c:262-291 | the kept options are never longer than the originals, and keeping twice is keeping once |
| DhcpOptions.FilterOne | contiki-2.7/tools/tunslip.c:262-291 | options 1, 3, 51, 53 and 54 are kept whole, of 6 the first server, of others nothing |
| DhcpOptions.FilterConcat | contiki-2.7/tools/tunslip.c:262-291 | option by option, in order |
| DhcpOptions.FilterKeeps | contiki-2.7/tools/tunslip.c:262-291 | which options the client gets, out of those the server sent |
| DhcpOptions.ClientBytesParse | contiki-2.7/tools/tunslip.c:257-295 | the copied bytes parse, by the relay's reading and by the standard one, as exactly the kept options, with END kept, and copying the copy changes nothing |
| DhcpOptions.CopyOption | contiki-2.7/tools/tunslip.c:263-290 | one turn writes the option, its first DNS server, or nothing, never more than it read |
| DhcpOptions.CopyOptions | contiki-2.7/tools/tunslip.c:257-297 | the two-pointer loop ends with cookie, kept options in order and END, the write offset never passing the read offset |
| DhcpRelay.RelayToServer | contiki-2.7/tools/tunslip.c:160-223 | relays requests only, sending exactly the specified message |
| DhcpRelay.AgentSuboptions | contiki-2.7/tools/tunslip.c:201-213 | the three suboptions fill the declared 18 bytes (sections 2.0 and 2.1 of RFC 3046) |
| DhcpRelay.RelayBytesAre | contiki-2.7/tools/tunslip.c:192-216 | the 27 octets appended |
| DhcpRelay.ServerSeesRelayOptions | contiki-2.7/tools/tunslip.c:191-216 | for every request that parses by the standard, PADs included, the server reads the client's options, then subnet selection and agent information, if and only if the options in front of the request's last byte are complete; behind an earlier END it reads the client's options only |
| DhcpRelay.RelayOptionsLost | contiki-2.7/tools/tunslip.c:191-216 | a request padded behind END, and one without END, lose the relay's options |
| DhcpRelay.ServerMessageFields | contiki-2.7/tools/tunslip.c:174-219 | every base field except flags, hops and giaddr is unchanged, the hole is zero, END is last |
| DhcpRelay.RelayToClient | contiki-2.7/tools/tunslip.c:227-329 | replies only; builds exactly the specified packet and uses up one id |
| DhcpRelay.FilledIsSound | contiki-2.7/tools/tunslip.c:320-327 | both checksums balance, and the stored UDP checksum is never 0 |
| DhcpRelay.ClientPacketIsAccepted | contiki-2.7/tools/tunslip.c:297-329 | every packet built passes check_ip, is sent unchanged whatever its id without using up another, and fits the empty buffer |
| DhcpRelay.ClientPacketHeaders | contiki-2.7/tools/tunslip.c:298-318 | lengths agree; version, type of service, time to live, protocol, addresses and ports are those of a reply from this relay |
| DhcpRelay.DestinationMeans | contiki-2.7/tools/tunslip.c:310-313 | to the address offered, or broadcast if the reply's flag is set |
| DhcpRelay.ClientPacketMessage | contiki-2.7/tools/tunslip.c:249-295 | the reply's fixed fields with one more hop and no giaddr, its cookie, and options that parse as the kept ones, told by their numbers |
| Ipv6Expansion.Parse | contiki-2.7/tools/tunslip6.c:624-643 | the parse loop computes the scan of the address up to its prefix length |
| Ipv6Expansion.DigitMeans | contiki-2.7/tools/tunslip6.c:638-640 | a digit is worth its place in "0123456789abcdef" or its upper case |
| Ipv6Expansion.BodyMeans | contiki-2.7/tools/tunslip6.c:628-629 | only what is in front of the first "/" is read |
| Ipv6Expansion.Shift | contiki-2.7/tools/tunslip6.c:645-653 | the overlapping in-place shift, slot by slot, for every group count and gap position |
| Ipv6Expansion.Expand | contiki-2.7/tools/tunslip6.c:620-653 | parse and shift together |
| Ipv6Expansion.ShiftIsExpansionIff | contiki-2.7/tools/tunslip6.c:644-653 | the tail groups end in place if and only if the turns reach them all or the rest are zero |
| Ipv6Expansion.ExpansionIsCanonicalIff | contiki-2.7/tools/tunslip6.c:620-653 | for every text address with "::" the eight groups are those of section 2.2 of RFC 4291 if and only if it is Expandable |
| Ipv6Expansion.EnoughElided | contiki-2.7/tools/tunslip6.c:644-653 | so whenever two or more groups are elided and no more stand behind |
| Ipv6Expansion.NotAlwaysExpanded | contiki-2.7/tools/tunslip6.c:644-653 | two addresses that come out wrong |
| Ipv6Expansion.FullFormLosesLastGroup | contiki-2.7/tools/tunslip6.c:644-653 | an address in full form has its last group cleared |
| Pacing.ExpiredMeansElapsed | contiki-2.7/tools/tunslip6.c:975-982 | with the 32-bit stamp and difference as they are, the wait ends only after more than the delay, and exactly then for 2^31 ms |
| Pacing.Pacer.CheckDelay | contiki-2.7/tools/tunslip6.c:975-982 | clears the delay exactly when the 32-bit test ends it, which below 2^31 ms is when it has passed |
| Pacing.Pacer.MarkSent | contiki-2.7/tools/tunslip6.c:986-996 | encoding a packet restarts the delay and keeps all packets, over the whole run, more than basedelay ms apart |
| RadioConfig.PackedListReadsBack | BSP/SI4438/si446x_api_lib.c:91-110 | any commands of 1 to 16 bytes, packed and ended, read back as themselves |
| RadioConfig.Radio.SendCmd | BSP/SI4438/radio_comm.c:97-111 | sends the shared buffer's first bytes, two for a one-byte command, and clears the flag |
| RadioConfig.Radio.GetResp | BSP/SI4438/radio_comm.c:52-89 | for any chip: CTS is reported and flagged exactly when it shows it within 65535 polls, and the reply is what it sent behind that poll |
| RadioConfig.Radio.SendCmdGetResp | BSP/SI4438/radio_comm.c:205-209 | one exchange, with the command bytes as they were before the reply overwrote them |
| RadioConfig.Radio.GetIntStatus | BSP/SI4438/si446x_api_lib.c:270-301 | the status becomes the eight bytes the chip answers; a query that is not answered leaves the old one |
| RadioConfig.Radio.ConfigureOne | BSP/SI4438/si446x_api_lib.c:98-127 | sends exactly the next command, whatever the last reply left in the buffer; queries exactly if the line was low; returns the error if and only if the chip reports one, or, unanswered, an earlier report is still there |
| RadioConfig.Radio.ConfigurationInit | BSP/SI4438/si446x_api_lib.c:82-131 | for any list and any chip: commands sent are a prefix of the list, each after its predecessor was answered; an error the chip reports ends the loading, and each result says why it stopped |
| TickConversion.FastIsCloseIff | RTE/CMSIS/INC/cmsis_os.h:354-360 | the macro never exceeds the exact floor and is behind by at most us/65536 + 1 if and only if no 32-bit intermediate result wraps |
| TickConversion.ExactForWholeMegahertz | RTE/CMSIS/INC/cmsis_os.h:360 | for whole-megahertz clocks it is exact if and only if the product fits 32 bits |
| TickConversion.WrapsAtOneMinute | RTE/CMSIS/INC/cmsis_os.h:360 | 59.652324 seconds at 72 MHz come out as 32 ticks |

## Left out

- TunslipGateway.Gateway.Turn, Tunslip6Gateway.Gateway6.Turn: the frames of one turn are dealt with after all of its bytes have been decoded, where the source deals with each at its END; apart from the moment of an overflow exit, and from the two flag bytes the relay overwrites in the receive buffer, which no later frame reads, that makes no difference. Printed text and the `ifconfig` commands of "!M" are not modelled.
- DhcpRelay.RelayToClient: the message type kept for a log line is not modelled, and the fixed fields, headers and option field are assembled as blocks rather than through one struct.
- RadioConfig.Radio.SendCmd: the bounded wait for the CTS pin is not modelled, nor are bits on the SPI bus.
- Ipv6Expansion.Expand: the link-local address printed from the groups is not modelled.
- Tunslip6.ForwardedIffTun: verbosity 0, 1 or 4; at levels 2, 3 and 5 or more the receiver also cuts frames at newlines.
- Memory faults: packets whose header is longer than they are, options that run past the reply, and relayed requests too short or too long for the message struct are excluded by preconditions or have no effect.
- Sockets, devices, `select`, terminal settings, signals, option parsing and printing: input and output of the environment.
- `codeprop.c`: copies a file to a socket, with no state beyond the byte count in its header.
- Register and patch headers, LED, timer, EEPROM and RTC drivers: register writes without state worth specifying.
