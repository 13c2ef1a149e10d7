/** The DHCP relay agent: requests from the network side, replies from the server. */
module DhcpRelay {
  import opened Bytes
  import opened OnesComplement
  import opened PacketCheck
  import opened SlipCodec
  import opened SlipPorts
  import opened DhcpOptions
  import opened Tunslip

  const IP_UDP_LEN := 28
  const BASE_LEN := 44
  const HOLE_LEN := 192
  const COOKIE_LEN := 4
  const OPTIONS_SIZE := 312

  const BOOTREQUEST := 1
  const BOOTREPLY := 2

  // ---------- To the server ----------

  const OPTION_AGENT: byte := 82
  const OPTION_SUBNET_SELECTION: byte := 118
  const RAI_CIRCUIT_ID: byte := 1
  const RAI_AGENT_ID: byte := 3
  const RAI_SUBNET_SELECTION: byte := 5

  function SubOptions(net: Addr, circuit: Addr, gi: Addr): seq<Option> {
    [Opt(RAI_SUBNET_SELECTION, net), Opt(RAI_CIRCUIT_ID, circuit), Opt(RAI_AGENT_ID, gi)]
  }

  function AgentBytes(net: Addr, circuit: Addr, gi: Addr): seq<byte> {
    [RAI_SUBNET_SELECTION, 4] + net + ([RAI_CIRCUIT_ID, 4] + circuit) + ([RAI_AGENT_ID, 4] + gi)
  }

  // What the relay appends to the client's options.
  function RelayOptions(net: Addr, circuit: Addr, gi: Addr): seq<Option> {
    [Opt(OPTION_SUBNET_SELECTION, net), Opt(OPTION_AGENT, AgentBytes(net, circuit, gi))]
  }

  function RelayBytes(net: Addr, circuit: Addr, gi: Addr): seq<byte> {
    [OPTION_SUBNET_SELECTION, 4] + net + ([OPTION_AGENT, 18] + AgentBytes(net, circuit, gi)) + [OPTION_END]
  }

  // The option field sent on: the last byte, taken to be END, makes room.
  function ServerOptions(o: seq<byte>, net: Addr, circuit: Addr, gi: Addr): seq<byte>
    requires o != []
  {
    o[..|o| - 1] + RelayBytes(net, circuit, gi)
  }

  // The fixed fields sent on: broadcast flag set, one more hop, this relay's address.
  function ServerBase(base: seq<byte>, gi: Addr): seq<byte>
    requires |base| == BASE_LEN
  {
    base[..3] + [(base[3] as int + 1) % 256] + base[4..10] + [0x80, 0] + base[12..24] + gi + base[28..]
  }

  function MessageOf(p: seq<byte>, net: Addr, circuit: Addr, gi: Addr): seq<byte>
    requires |p| > IP_UDP_LEN + BASE_LEN
  {
    ServerBase(p[IP_UDP_LEN..IP_UDP_LEN + BASE_LEN], gi) + seq(HOLE_LEN, _ => 0)
      + ServerOptions(p[IP_UDP_LEN + BASE_LEN..], net, circuit, gi)
  }

  // The message is built in a struct dhcp_msg, whose fixed fields and option
  // field are the two arrays here; `packet` is the received packet, whose flags
  // are overwritten in place. The caller leaves 26 option bytes free.
  method RelayToServer(packet: array<byte>, len: nat, net: Addr, circuit: Addr, gi: Addr)
    returns (sent: Maybe<seq<byte>>)
    requires IP_UDP_LEN + BASE_LEN < len <= packet.Length
    requires len - IP_UDP_LEN - BASE_LEN + 26 <= OPTIONS_SIZE
    modifies packet
    ensures sent == if old(packet[IP_UDP_LEN]) != BOOTREQUEST then None
                    else Some(MessageOf(old(packet[..len]), net, circuit, gi))
  {
    if packet[IP_UDP_LEN] != BOOTREQUEST {
      return None;
    }
    packet[IP_UDP_LEN + 10], packet[IP_UDP_LEN + 11] := 0x80, 0;
    FlagsAreReplaced(old(packet[..len])[IP_UDP_LEN..IP_UDP_LEN + BASE_LEN],
                     packet[IP_UDP_LEN..IP_UDP_LEN + BASE_LEN], gi);
    var base := BuildServerBase(packet[IP_UDP_LEN..IP_UDP_LEN + BASE_LEN], gi);
    var options := BuildServerOptions(packet[IP_UDP_LEN + BASE_LEN..len], net, circuit, gi);
    assert packet[IP_UDP_LEN + BASE_LEN..len] == old(packet[..len])[IP_UDP_LEN + BASE_LEN..];
    return Some(base + seq(HOLE_LEN, _ => 0) + options);
  }

  lemma FlagsAreReplaced(base: seq<byte>, base': seq<byte>, gi: Addr)
    requires |base| == |base'| == BASE_LEN
    requires forall i :: 0 <= i < BASE_LEN && i != 10 && i != 11 ==> base'[i] == base[i]
    ensures ServerBase(base', gi) == ServerBase(base, gi)
  {
    assert base'[..3] == base[..3] && base'[4..10] == base[4..10];
    assert base'[12..24] == base[12..24] && base'[28..] == base[28..];
  }

  method BuildServerBase(inm: seq<byte>, gi: Addr) returns (base: seq<byte>)
    requires |inm| == BASE_LEN && inm[10..12] == [0x80, 0]
    ensures base == ServerBase(inm, gi)
  {
    var m := new byte[BASE_LEN];
    CopyBytes(m, 0, inm);
    assert m[..] == inm && m[10] == inm[10..12][0] && m[11] == inm[10..12][1];
    m[3] := (m[3] as int + 1) % 256;
    forall i | 0 <= i < 4 {
      m[24 + i] := gi[i];
    }
    return m[..];
  }

  method BuildServerOptions(inm: seq<byte>, net: Addr, circuit: Addr, gi: Addr) returns (options: seq<byte>)
    requires inm != [] && |inm| + 26 <= OPTIONS_SIZE
    ensures options == ServerOptions(inm, net, circuit, gi)
  {
    var m := new byte[OPTIONS_SIZE];
    CopyBytes(m, 0, inm);
    var optptr := |inm| - 1;
    assert m[..optptr] == m[..|inm|][..optptr];
    CopyBytes(m, optptr, RelayBytes(net, circuit, gi));
    return m[..|inm| + 26];
  }

  // The three suboptions fill the declared 18 bytes exactly.
  lemma AgentSuboptions(net: Addr, circuit: Addr, gi: Addr)
    ensures |AgentBytes(net, circuit, gi)| == 18
    ensures Parse(AgentBytes(net, circuit, gi)) == Parsed(SubOptions(net, circuit, gi), false, 18)
  {
    var a, b, c := Opt(RAI_SUBNET_SELECTION, net), Opt(RAI_CIRCUIT_ID, circuit), Opt(RAI_AGENT_ID, gi);
    ParseOne(c, []);
    ParseOne(b, SerOpt(c) + []);
    ParseOne(a, SerOpt(b) + (SerOpt(c) + []));
    assert SerOpt(a) + (SerOpt(b) + (SerOpt(c) + [])) == AgentBytes(net, circuit, gi);
    assert [a] + ([b] + ([c] + [])) == SubOptions(net, circuit, gi);
  }

  lemma RelayOptionParses(o: Option, tail: seq<byte>)
    requires o.code != OPTION_PAD && Standard(tail).Parsed?
    ensures Standard(SerOpt(o) + tail) == Prepend([o], |o.val| + 2, Standard(tail))
  {
    var b, n := SerOpt(o) + tail, |o.val| + 2;
    assert b[n..] == tail && b[2..n] == o.val && b[1] == |o.val|;
  }

  lemma RelayBytesParse(net: Addr, circuit: Addr, gi: Addr)
    ensures var r := RelayBytes(net, circuit, gi);
      && Standard(r) == Parsed(RelayOptions(net, circuit, gi), true, |r|)
      && |r| == 27 && r[0] == OPTION_SUBNET_SELECTION && r[1] == 4
  {
    AgentSuboptions(net, circuit, gi);
    var a, b := Opt(OPTION_SUBNET_SELECTION, net), Opt(OPTION_AGENT, AgentBytes(net, circuit, gi));
    RelayOptionParses(b, [OPTION_END]);
    RelayOptionParses(a, SerOpt(b) + [OPTION_END]);
    assert SerOpt(a) + (SerOpt(b) + [OPTION_END]) == RelayBytes(net, circuit, gi);
    assert [a] + ([b] + []) == RelayOptions(net, circuit, gi);
  }

  // What the server reads, with PAD as the standard has it: the client's options and
  // then the relay's, up to a single END in the last byte, exactly when the options in
  // front of the client's last byte are complete, so that this byte was its END or a
  // PAD. Anything after the client's END hides the relay's options from the server;
  // otherwise the last byte of the client's last option is overwritten.
  lemma ServerSeesRelayOptions(o: seq<byte>, net: Addr, circuit: Addr, gi: Addr)
    requires o != [] && Standard(o).Parsed?
    ensures var r, s, front := Standard(o), ServerOptions(o, net, circuit, gi), o[..|o| - 1];
      && (Complete(front) ==> Standard(s) == Parsed(r.opts + RelayOptions(net, circuit, gi), true, |s|))
      && (r.ended && r.used < |o| ==> Standard(s) == r)
      && (Standard(s).Parsed? && Standard(s).opts == r.opts + RelayOptions(net, circuit, gi) <==> Complete(front))
  {
    var front, relay := o[..|o| - 1], RelayBytes(net, circuit, gi);
    RelayBytesParse(net, circuit, gi);
    if Complete(front) {
      LastByte(o);
      RoomIsMade(o, front, o[|o| - 1], relay);
    } else if Standard(o).ended {
      EndFound(o);
    } else {
      LastOptionIsSpoilt(o, relay, RelayOptions(net, circuit, gi));
    }
    if Standard(o).ended && Standard(o).used < |o| {
      EndSticks(o, |o| - 1, relay);
    }
  }

  lemma LastByte(o: seq<byte>)
    requires o != []
    ensures o == o[..|o| - 1] + [o[|o| - 1]]
  {
  }

  lemma RoomIsMade(o: seq<byte>, front: seq<byte>, c: byte, relay: seq<byte>)
    requires o == front + [c] && Standard(o).Parsed? && Complete(front)
    ensures Standard(front + relay) == Prepend(Standard(o).opts, |front|, Standard(relay))
  {
    LastByteAlone(front, c);
    StandardBehind(front, relay);
  }

  lemma LastByteAlone(front: seq<byte>, c: byte)
    requires Complete(front) && Standard(front + [c]).Parsed?
    ensures Standard(front + [c]).opts == Standard(front).opts
  {
    StandardBehind(front, [c]);
    OneByte(c);
    assert Standard(front).opts + [] == Standard(front).opts;
  }

  lemma OneByte(c: byte)
    ensures Standard([c]).Parsed? ==> Standard([c]).opts == []
  {
    assert [c][1..] == [];
  }

  lemma LastOptionIsSpoilt(o: seq<byte>, relay: seq<byte>, added: seq<Option>)
    requires o != [] && Complete(o) && !Complete(o[..|o| - 1])
    requires 2 <= |relay| < OPTION_SUBNET_SELECTION as int && relay[0] == OPTION_SUBNET_SELECTION && relay[1] == 4
    requires added != [] && added[0].code == OPTION_SUBNET_SELECTION
    ensures var p := Standard(o[..|o| - 1] + relay); p.Parsed? ==> p.opts != Standard(o).opts + added
  {
    var k := LastItem(o);
    if o[k] != OPTION_PAD {
      CutBehind(o, k, relay);
      SpoiltBehind(o[..k], o[k..], relay, added);
    }
  }

  lemma CutBehind(o: seq<byte>, k: nat, relay: seq<byte>)
    requires k < |o|
    ensures o[..k] + o[k..] == o
    ensures var last := o[k..]; o[..k] + (last[..|last| - 1] + relay) == o[..|o| - 1] + relay
  {
  }

  lemma SpoiltBehind(a: seq<byte>, last: seq<byte>, relay: seq<byte>, added: seq<Option>)
    requires Complete(a) && HasItem(last) && ItemSize(last) == |last| && last[0] != OPTION_PAD
    requires 2 <= |relay| < OPTION_SUBNET_SELECTION as int && relay[0] == OPTION_SUBNET_SELECTION && relay[1] == 4
    requires added != [] && added[0].code == OPTION_SUBNET_SELECTION
    ensures Standard(a + last) == Parsed(Standard(a).opts + Item(last), false, |a| + |last|)
    ensures var p := Standard(a + (last[..|last| - 1] + relay));
      p.Parsed? ==> p.opts != Standard(a).opts + Item(last) + added
  {
    var spoilt := last[..|last| - 1] + relay;
    StandardBehind(a, last);
    OneItem(last);
    StandardBehind(a, spoilt);
    SpoiltOption(last, relay);
    if Standard(spoilt).Parsed? {
      DifferBehind(Standard(a).opts, Item(last)[0], Standard(spoilt).opts, added);
    }
  }

  lemma OneItem(o: seq<byte>)
    requires HasItem(o) && ItemSize(o) == |o|
    ensures Standard(o) == Parsed(Item(o), false, |o|)
  {
    assert o[|o|..] == [] && Item(o) + [] == Item(o);
  }

  // One option with its last byte overwritten by the relay's options: an empty
  // option now claims 118 bytes, any other is followed by the length byte 4.
  lemma SpoiltOption(o: seq<byte>, relay: seq<byte>)
    requires HasItem(o) && ItemSize(o) == |o| && o[0] != OPTION_PAD
    requires 2 <= |relay| < OPTION_SUBNET_SELECTION as int && relay[0] == OPTION_SUBNET_SELECTION && relay[1] == 4
    ensures var p := Standard(o[..|o| - 1] + relay); p.Parsed? ==> |p.opts| > 1 && p.opts[1].code == 4
  {
    var b := o[..|o| - 1] + relay;
    assert b[0] == o[0];
    if |o| == 2 {
      assert b[1] == OPTION_SUBNET_SELECTION;
    } else {
      assert b[1] == o[1] && b[|o|..] == relay[1..];
      assert b[|o|..][0] == 4;
    }
  }

  lemma DifferBehind(front: seq<Option>, last: Option, os: seq<Option>, relay: seq<Option>)
    requires |os| > 1 && relay != [] && os[1].code != relay[0].code
    ensures front + os != front + [last] + relay
  {
    assert (front + os)[|front| + 1] == os[1] && (front + [last] + relay)[|front| + 1] == relay[0];
  }

  // Two requests that lose the relay's options: one padded behind its END, one
  // without END.
  lemma RelayOptionsLost(o: seq<byte>, net: Addr, circuit: Addr, gi: Addr)
    requires o == [53, 1, 1, 255, 0] || o == [53, 1, 1]
    ensures Standard(o).Parsed?
    ensures var r, s := Standard(o), ServerOptions(o, net, circuit, gi);
      !(Standard(s).Parsed? && Standard(s).opts == r.opts + RelayOptions(net, circuit, gi))
  {
    if |o| == 5 {
      assert o[3..] == [OPTION_END, OPTION_PAD] && Standard(o[3..]) == Parsed([], true, 1);
      assert o[..4][3..] == [OPTION_END] && Standard(o[..4][3..]) == Parsed([], true, 1);
    } else {
      assert o[3..] == [] && |o[..2]| == 2;
    }
    ServerSeesRelayOptions(o, net, circuit, gi);
  }

  // Field by field: everything the client wrote is passed on except the flags, the
  // hop count and the relay address; the hole is zero and the last byte is END.
  lemma ServerMessageFields(p: seq<byte>, net: Addr, circuit: Addr, gi: Addr)
    requires |p| > IP_UDP_LEN + BASE_LEN + COOKIE_LEN
    ensures var m, base := MessageOf(p, net, circuit, gi), p[IP_UDP_LEN..IP_UDP_LEN + BASE_LEN];
      && |m| == |p| - IP_UDP_LEN + HOLE_LEN + 26
      && (forall i :: 0 <= i < BASE_LEN && i !in {3, 10, 11} && !(24 <= i < 28) ==> m[i] == base[i])
      && m[3] as int == (base[3] as int + 1) % 256 && Word(m, 10) == 0x8000 && m[24..28] == gi
      && (forall i :: BASE_LEN <= i < BASE_LEN + HOLE_LEN ==> m[i] == 0)
      && m[236..240] == p[72..76] && m[|m| - 1] == OPTION_END
      && m[240..] == ServerOptions(p[76..], net, circuit, gi)
  {
    var base, o := p[IP_UDP_LEN..IP_UDP_LEN + BASE_LEN], p[IP_UDP_LEN + BASE_LEN..];
    ServerBaseFields(base, gi);
    var front, relay := o[..|o| - 1], RelayBytes(net, circuit, gi);
    assert front == o[..4] + o[4..][..|o| - 5];
    ServerPieces(ServerBase(base, gi), seq(HOLE_LEN, _ => 0), o[..4], o[4..][..|o| - 5] + relay);
    ConcatAssoc(o[..4], o[4..][..|o| - 5], relay);
    assert o[4..] == p[76..] && o[..4] == p[72..76];
  }

  lemma ServerBaseFields(base: seq<byte>, gi: Addr)
    requires |base| == BASE_LEN
    ensures var b := ServerBase(base, gi);
      && |b| == BASE_LEN && b[3] as int == (base[3] as int + 1) % 256 && Word(b, 10) == 0x8000 && b[24..28] == gi
      && forall i :: 0 <= i < BASE_LEN && i !in {3, 10, 11} && !(24 <= i < 28) ==> b[i] == base[i]
  {
  }

  lemma ServerPieces(base: seq<byte>, hole: seq<byte>, cookie: seq<byte>, options: seq<byte>)
    requires |base| == BASE_LEN && |hole| == HOLE_LEN && |cookie| == COOKIE_LEN
    ensures var m := base + hole + (cookie + options);
      && m[24..28] == base[24..28] && m[236..240] == cookie && m[240..] == options
      && (forall i :: 0 <= i < BASE_LEN ==> m[i] == base[i])
      && (forall i :: BASE_LEN <= i < BASE_LEN + HOLE_LEN ==> m[i] == hole[i - BASE_LEN])
  {
  }

  // ---------- To the client ----------

  // The reply is relayed to the broadcast address when its broadcast bit is set.
  function Destination(reply: seq<byte>): Addr
    requires |reply| >= 20
  {
    if reply[10] >= 0x80 then [255, 255, 255, 255] else reply[16..20]
  }

  function ClientBase(reply: seq<byte>): seq<byte>
    requires |reply| >= BASE_LEN
  {
    reply[..24][3 := (reply[3] as int + 1) % 256] + [0, 0, 0, 0] + reply[28..BASE_LEN]
  }

  function ReplyOptions(reply: seq<byte>): seq<byte>
    requires |reply| > BASE_LEN + HOLE_LEN + COOKIE_LEN
  {
    reply[BASE_LEN + HOLE_LEN + COOKIE_LEN..]
  }

  // A reply with a cookie and well-formed options behind it, read into a
  // struct dhcp_msg.
  predicate WellFormedReply(reply: seq<byte>) {
    && BASE_LEN + HOLE_LEN + COOKIE_LEN < |reply| <= BASE_LEN + HOLE_LEN + OPTIONS_SIZE
    && Parse(ReplyOptions(reply)).Parsed? && AllNamed(Parse(ReplyOptions(reply)).opts)
  }

  // A datagram the relay can take from the DHCP socket.
  type Datagram = r: seq<byte> | r != [] && (r[0] == BOOTREPLY ==> WellFormedReply(r)) witness [0]

  function ClientMessage(reply: seq<byte>): seq<byte>
    requires WellFormedReply(reply)
  {
    ClientBase(reply) + reply[BASE_LEN + HOLE_LEN..BASE_LEN + HOLE_LEN + COOKIE_LEN]
      + ClientBytes(ReplyOptions(reply))
  }

  // Headers with both checksum fields still zero.
  function BareHeaders(len: u16, id: u16, src: Addr, dst: Addr): (h: seq<byte>)
    requires len >= 28
    ensures |h| == 28 && h[0] == 0x45 && h[1] == 0 && h[8] == 64
    ensures Word(h, 2) == len && Word(h, 4) == id && Word(h, 6) == 0
    ensures h[9] == UDP && Word(h, 10) == 0 && h[12..16] == src && h[16..20] == dst
    ensures Word(h, 20) == 67 && Word(h, 22) == 68 && Word(h, 24) == len - 20 && Word(h, 26) == 0
  {
    [0x45, 0, len / 256, len % 256, id / 256, id % 256, 0, 0, 64, UDP, 0, 0] + src + dst
      + [0, 67, 0, 68, (len - 20) / 256, (len - 20) % 256, 0, 0]
  }

  // The checksum stored in the UDP header: never the "no checksum" value 0.
  function UdpField(sum: u16): u16 {
    if sum != 0xFFFF then 0xFFFF - sum else 0xFFFF
  }

  function FillChecksums(m: seq<byte>): seq<byte>
    requires 28 <= |m| < 0x1_0000
  {
    var m1 := SetWord(m, 10, 0xFFFF - Ip4Sum(0, m[..20]));
    SetWord(m1, 26, UdpField(UdpSum(m1)))
  }

  // Pseudo-header and body of a UDP packet without IP options.
  function UdpSum(m: seq<byte>): u16
    requires 28 <= |m| < 0x1_0000
  {
    var start: u16 := (UDP + |m| - 20) % 0x1_0000;
    Ip4Sum(Ip4Sum(start, m[12..20]), m[20..])
  }

  function BarePacket(reply: seq<byte>, gi: Addr, id: u16): (m: seq<byte>)
    requires WellFormedReply(reply)
    ensures PlainUdp(m) && 76 <= |m| <= 384 && |m| == IP_UDP_LEN + |ClientMessage(reply)|
  {
    MessageSize(reply);
    var message := ClientMessage(reply);
    var headers := BareHeaders(IP_UDP_LEN + |message|, id, gi, Destination(reply));
    MakesPlainUdp(headers, message);
    headers + message
  }

  lemma MessageSize(reply: seq<byte>)
    requires WellFormedReply(reply)
    ensures 48 <= |ClientMessage(reply)| <= 356
  {
    ClientBytesParse(ReplyOptions(reply));
  }

  lemma MakesPlainUdp(headers: seq<byte>, message: seq<byte>)
    requires |headers| == IP_UDP_LEN && headers[0] == 0x45 && headers[9] == UDP
    requires Word(headers, 2) == IP_UDP_LEN + |message|
    ensures PlainUdp(headers + message)
  {
  }

  function ClientPacket(reply: seq<byte>, gi: Addr, id: u16): seq<byte>
    requires WellFormedReply(reply)
  {
    FillChecksums(BarePacket(reply, gi, id))
  }

  lemma ComplementBalances(total: nat)
    ensures Balanced(total + (0xFFFF - Norm(total)))
    ensures total > 0 ==> Balanced(total + UdpField(Norm(total)))
    ensures total > 0 ==> UdpField(Norm(total)) != 0
  {
    var k := if total == 0 then 0 else (total - 1) / 65535;
    assert total == Norm(total) + 65535 * k;
  }

  predicate PlainUdp(m: seq<byte>) {
    28 <= |m| < 0x1_0000 && m[0] == 0x45 && Word(m, 2) == |m| && m[9] == UDP
  }

  lemma HeaderFilled(m: seq<byte>)
    requires PlainUdp(m) && Word(m, 10) == 0
    ensures var f := SetWord(m, 10, 0xFFFF - Ip4Sum(0, m[..20]));
      PlainUdp(f) && Balanced(HeaderTotal(f)) && Word(f, 26) == Word(m, 26)
  {
    SliceTotalSet(m, 0, 20, 10, 0xFFFF - Ip4Sum(0, m[..20]));
    ComplementBalances(HeaderTotal(m));
  }

  lemma UdpSumIsPseudoTotal(m: seq<byte>)
    requires PlainUdp(m)
    ensures UdpSum(m) == Norm(PseudoTotal(m, |m|)) && PseudoTotal(m, |m|) > 0
  {
    TransportSumIsPseudoTotal(m, |m|);
    assert m[20..] == m[HeaderLen(m)..|m|];
  }

  lemma PseudoTotalSet(m: seq<byte>, v: u16)
    requires PlainUdp(m) && Word(m, 26) == 0
    ensures var f := SetWord(m, 26, v);
      PlainUdp(f) && HeaderTotal(f) == HeaderTotal(m) && PseudoTotal(f, |m|) == PseudoTotal(m, |m|) + v
  {
    SliceTotalSet(m, 0, 20, 26, v);
    SliceTotalSet(m, 12, 20, 26, v);
    SliceTotalSet(m, 20, |m|, 26, v);
  }

  lemma BodyFilled(m: seq<byte>)
    requires PlainUdp(m) && Word(m, 26) == 0
    ensures var f := SetWord(m, 26, UdpField(UdpSum(m)));
      PlainUdp(f) && HeaderTotal(f) == HeaderTotal(m)
      && Balanced(PseudoTotal(f, |f|)) && Word(f, 26) != 0
  {
    UdpSumIsPseudoTotal(m);
    BodyFilledWith(m, UdpField(UdpSum(m)));
  }

  lemma BodyFilledWith(m: seq<byte>, v: u16)
    requires PlainUdp(m) && Word(m, 26) == 0
    requires var total := PseudoTotal(m, |m|); total > 0 && v == UdpField(Norm(total))
    ensures var f := SetWord(m, 26, v);
      && PlainUdp(f) && |f| == |m| && HeaderTotal(f) == HeaderTotal(m)
      && Balanced(PseudoTotal(f, |f|)) && Word(f, 26) != 0
  {
    PseudoTotalSet(m, v);
    ComplementBalances(PseudoTotal(m, |m|));
  }

  // Packets with a plain header and zero checksum fields become sound.
  lemma FilledIsSound(m: seq<byte>)
    requires PlainUdp(m) && Word(m, 10) == 0 && Word(m, 26) == 0
    ensures var f := FillChecksums(m);
      Readable(f, |f|) && Sound(f, |f|) && Balanced(PseudoTotal(f, |f|)) && Word(f, 26) != 0
  {
    HeaderFilled(m);
    BodyFilled(SetWord(m, 10, 0xFFFF - Ip4Sum(0, m[..20])));
  }

  // Sums the finished packet and fills both checksum fields in.
  method PutChecksums(m: array<byte>)
    requires PlainUdp(m[..])
    modifies m
    ensures m[..] == FillChecksums(old(m[..]))
  {
    var sum := ComputeIp4Sum(0, m[..][..20]);
    StoreField(m, 10, 0xFFFF - sum, Big);
    var pkt := m[..];
    sum := ComputeIp4Sum((UDP + |pkt| - 20) % 0x1_0000, pkt[12..20]);
    sum := ComputeIp4Sum(sum, pkt[20..]);
    StoreField(m, 26, UdpField(sum), Big);
  }

  // relay_dhcp_to_client: what is handed to write_to_serial, and the next ip_id.
  method RelayToClient(reply: Datagram, gi: Addr, ipId: u16) returns (packet: Maybe<seq<byte>>, nextId: u16)
    ensures reply[0] != 2 ==> packet == None && nextId == ipId
    ensures reply[0] == 2 ==> packet == Some(ClientPacket(reply, gi, ipId)) && nextId == (ipId + 1) % 0x1_0000
  {
    if reply[0] != BOOTREPLY {
      return None, ipId;
    }
    var pkt := BuildPacket(reply, gi, ipId);
    PutChecksums(pkt);
    return Some(pkt[..]), (ipId + 1) % 0x1_0000;
  }

  method BuildPacket(reply: seq<byte>, gi: Addr, id: u16) returns (pkt: array<byte>)
    requires WellFormedReply(reply)
    ensures fresh(pkt) && pkt[..] == BarePacket(reply, gi, id)
  {
    var message := BuildMessage(reply);
    MessageSize(reply);
    pkt := Assemble(message, id, gi, Destination(reply));
  }

  // The fixed fields, and the option field filled by the copying loop.
  method BuildMessage(reply: seq<byte>) returns (message: seq<byte>)
    requires WellFormedReply(reply)
    ensures message == ClientMessage(reply)
  {
    var options := new byte[OPTIONS_SIZE];
    var cookie := reply[BASE_LEN + HOLE_LEN..BASE_LEN + HOLE_LEN + COOKIE_LEN];
    CopyBytes(options, 0, cookie);
    assert options[..COOKIE_LEN] == cookie;
    var optlen := CopyOptions(ReplyOptions(reply), options);
    ConcatAssoc(ClientBase(reply), cookie, ClientBytes(ReplyOptions(reply)));
    return ClientBase(reply) + options[..optlen];
  }

  // The packet struct, with both checksum fields cleared.
  method Assemble(message: seq<byte>, id: u16, src: Addr, dst: Addr) returns (pkt: array<byte>)
    requires |message| <= 356
    ensures fresh(pkt) && pkt[..] == BareHeaders(IP_UDP_LEN + |message|, id, src, dst) + message
  {
    var len := IP_UDP_LEN + |message|;
    pkt := new byte[len];
    CopyBytes(pkt, 0, BareHeaders(len, id, src, dst));
    CopyBytes(pkt, IP_UDP_LEN, message);
    assert pkt[..len] == pkt[..];
  }

  lemma BarePacketFields(reply: seq<byte>, gi: Addr, id: u16)
    requires WellFormedReply(reply)
    ensures var m := BarePacket(reply, gi, id);
      && m[1] == 0 && m[8] == 64 && Word(m, 4) == id && Word(m, 6) == 0 && Word(m, 10) == 0 && Word(m, 26) == 0
      && m[12..16] == gi && m[16..20] == Destination(reply)
      && Word(m, 20) == 67 && Word(m, 22) == 68 && Word(m, 24) == |m| - 20
      && m[28..] == ClientMessage(reply)
  {
    var m, message := BarePacket(reply, gi, id), ClientMessage(reply);
    var h := BareHeaders(|m|, id, gi, Destination(reply));
    HeadersInFront(h, message);
    assert m == h + message;
  }

  lemma HeadersInFront(h: seq<byte>, message: seq<byte>)
    requires |h| == 28
    ensures var m := h + message;
      && m[12..16] == h[12..16] && m[16..20] == h[16..20] && m[28..] == message
      && Word(m, 4) == Word(h, 4) && Word(m, 6) == Word(h, 6) && Word(m, 10) == Word(h, 10)
      && Word(m, 20) == Word(h, 20) && Word(m, 22) == Word(h, 22) && Word(m, 24) == Word(h, 24)
      && Word(m, 26) == Word(h, 26)
  {
  }

  // Filled in, such a packet is accepted and needs no id.
  lemma FilledIsAccepted(m: seq<byte>, ipId: u16, e: Endian)
    requires PlainUdp(m) && Word(m, 6) == 0 && Word(m, 10) == 0 && Word(m, 26) == 0
    ensures var f := FillChecksums(m);
      && Handable(f, |f|) && CheckIp(f, |f|) == 0 && SentAsIs(f, ipId, e)
      && Balanced(PseudoTotal(f, |f|)) && Word(f, 26) != 0
  {
    var f := FillChecksums(m);
    FilledKeeps(m);
    FilledIsSound(m);
    AcceptedIffSound(f, |f|);
    NotFragmentable(f, e);
    UnpatchedIsSent(f, ipId, e);
  }

  // For every reply and every id: the packet is accepted, its UDP checksum is live and
  // correct, write_to_serial sends it as it is without using up another id, and it
  // fits the empty output buffer.
  lemma ClientPacketIsAccepted(reply: seq<byte>, gi: Addr, id: u16, ipId: u16, e: Endian)
    requires WellFormedReply(reply)
    ensures var p := ClientPacket(reply, gi, id);
      && Handable(p, |p|) && CheckIp(p, |p|) == 0
      && Balanced(PseudoTotal(p, |p|)) && Word(p, 26) != 0
      && SentAsIs(p, ipId, e)
      && Fits(DRAINED, Encode(p))
  {
    BarePacketFields(reply, gi, id);
    FilledIsAccepted(BarePacket(reply, gi, id), ipId, e);
    CapacityFromEmpty(ClientPacket(reply, gi, id));
  }

  lemma NotFragmentable(p: seq<byte>, e: Endian)
    requires |p| >= 20 && Word(p, 6) == 0
    ensures !DontFragment(p, e)
  {
  }

  lemma FilledKeeps(m: seq<byte>)
    requires 28 <= |m| < 0x1_0000
    ensures var f := FillChecksums(m);
      && |f| == |m| && f[28..] == m[28..] && f[12..16] == m[12..16] && f[16..20] == m[16..20]
      && forall i :: 0 <= i < |m| && i !in {10, 11, 26, 27} ==> f[i] == m[i]
  {
  }

  // Its fields: the addresses and ports of a reply from this relay, and lengths
  // that agree.
  lemma ClientPacketHeaders(reply: seq<byte>, gi: Addr, id: u16)
    requires WellFormedReply(reply)
    ensures var p := ClientPacket(reply, gi, id);
      && 76 <= |p| <= 384 && Word(p, 2) == |p| && Word(p, 24) == |p| - 20 && Word(p, 4) == id
      && p[12..16] == gi && p[16..20] == Destination(reply) && Word(p, 20) == 67 && Word(p, 22) == 68
      && p[0] == 0x45 && p[1] == 0 && Word(p, 6) == 0 && p[8] == 64 && p[9] == 17
  {
    BarePacketFields(reply, gi, id);
    FilledKeeps(BarePacket(reply, gi, id));
  }

  // The address offered to the client, unless the reply's broadcast flag is set.
  lemma DestinationMeans(reply: seq<byte>)
    requires |reply| >= 20
    ensures Destination(reply) == if reply[10] / 128 % 2 == 1 then [255, 255, 255, 255] else reply[16..20]
  {
  }

  // What the relay appends, octet by octet: subnet selection, then agent information of
  // 18 bytes holding subnet selection, circuit and agent, then END.
  lemma RelayBytesAre(net: Addr, circuit: Addr, gi: Addr)
    ensures RelayBytes(net, circuit, gi) ==
      [118, 4, net[0], net[1], net[2], net[3], 82, 18, 5, 4, net[0], net[1], net[2], net[3],
       1, 4, circuit[0], circuit[1], circuit[2], circuit[3], 3, 4, gi[0], gi[1], gi[2], gi[3], 255]
  {
    AgentSuboptions(net, circuit, gi);
  }

  // Its message: the reply's fixed fields with one more hop and no relay address,
  // and the kept options, in order, behind the reply's magic cookie.
  lemma ClientPacketMessage(reply: seq<byte>, gi: Addr, id: u16)
    requires WellFormedReply(reply)
    ensures var message, options := ClientPacket(reply, gi, id)[28..], Parse(ReplyOptions(reply));
      && |message| >= 48
      && message[3] as int == (reply[3] as int + 1) % 256 && message[24..28] == [0, 0, 0, 0]
      && (forall i :: 0 <= i < BASE_LEN && i != 3 && !(24 <= i < 28) ==> message[i] == reply[i])
      && message[44..48] == reply[236..240]
      && Parse(message[48..]) == Parsed(Filter(options.opts), options.ended, |message| - 48)
      && forall o :: o in Parse(message[48..]).opts <==> Survives(o, options.opts)
  {
    BarePacketFields(reply, gi, id);
    FilledKeeps(BarePacket(reply, gi, id));
    ClientMessageFields(reply);
    forall o ensures o in Filter(Parse(ReplyOptions(reply)).opts) <==> Survives(o, Parse(ReplyOptions(reply)).opts) {
      FilterKeeps(Parse(ReplyOptions(reply)).opts, o);
    }
  }

  lemma ClientMessageFields(reply: seq<byte>)
    requires WellFormedReply(reply)
    ensures var message, options := ClientMessage(reply), Parse(ReplyOptions(reply));
      && |message| >= 48
      && message[3] as int == (reply[3] as int + 1) % 256 && message[24..28] == [0, 0, 0, 0]
      && (forall i :: 0 <= i < BASE_LEN && i != 3 && !(24 <= i < 28) ==> message[i] == reply[i])
      && message[44..48] == reply[236..240]
      && Parse(message[48..]) == Parsed(Filter(options.opts), options.ended, |message| - 48)
  {
    ClientBytesParse(ReplyOptions(reply));
    Pieces(ClientBase(reply), reply[236..240], ClientBytes(ReplyOptions(reply)));
    BaseFields(reply);
  }

  lemma Pieces(base: seq<byte>, cookie: seq<byte>, options: seq<byte>)
    requires |base| == BASE_LEN && |cookie| == COOKIE_LEN
    ensures var m := base + cookie + options;
      && m[24..28] == base[24..28] && m[44..48] == cookie && m[48..] == options
      && forall i :: 0 <= i < BASE_LEN ==> m[i] == base[i]
  {
  }

  lemma BaseFields(reply: seq<byte>)
    requires |reply| >= BASE_LEN
    ensures var base := ClientBase(reply);
      && base[3] as int == (reply[3] as int + 1) % 256 && base[24..28] == [0, 0, 0, 0]
      && forall i :: 0 <= i < BASE_LEN && i != 3 && !(24 <= i < 28) ==> base[i] == reply[i]
  {
  }
}
