/** The main loop of the IPv4 gateway, with both packet sources and the receive half. */
module TunslipGateway {
  import opened Bytes
  import opened OnesComplement
  import opened PacketCheck
  import opened SlipCodec
  import opened SlipPorts
  import opened SlipLink
  import opened SlipReceivers
  import opened SlipSenders
  import opened Tunslip
  import opened DhcpRelay
  import opened TunslipReceiver

  class Gateway {
    const sender: Sender
    const receiver: Receiver
    const giaddr: Addr
    var ipId: u16

    ghost function Footprint(): set<object> {
      {this} + sender.Footprint()
    }

    // A sender whose packets have all been checked.
    ghost predicate Valid()
      reads sender, sender.port, sender.port.slipBuf
    {
      sender.Valid() && TunslipRun(sender.history)
    }

    // The receive half, in memory of its own.
    ghost predicate Hears()
      reads receiver, receiver.slip, receiver.slip.inbuf
    {
      receiver.Valid() && receiver.slip.inbuf != sender.port.slipBuf
    }

    constructor (config: Config, startId: u16)
      ensures Valid() && Hears() && fresh(Footprint() + receiver.Footprint())
      ensures sender.View() == START && receiver.slip.View() == IDLE
      ensures receiver.config == config && giaddr == config.giaddr && ipId == startId
    {
      giaddr, ipId := config.giaddr, startId;
      sender := new Sender();
      receiver := new Receiver(config);
    }

    // "?IPA", sent byte by byte; false is the overflow exit.
    method RequestAddress() returns (ok: bool)
      requires Valid()
      modifies sender.Footprint()
      ensures ok <==> Next(old(sender.View()), Control(IPA_REQUEST)).Some?
      ensures ok ==> Valid() && sender.history == old(sender.history) + [Control(IPA_REQUEST)]
      ensures ok ==> sender.queued == old(sender.queued) + [[0x3F, 0x49, 0x50, 0x41]]
      ensures ok ==> sender.Waiting() == old(sender.Waiting()) + |Encode(IPA_REQUEST)| > 0
    {
      ok := sender.SendControl(IPA_REQUEST);
    }

    // Gives the packet the next identification, in place, and mends its checksum.
    method AssignId(mem: array<byte>, e: Endian)
      requires mem.Length >= 20
      modifies this`ipId, mem
      ensures mem[..] == PatchId(old(mem[..]), old(ipId), e)
      ensures ipId == (old(ipId) + 1) % 0x1_0000
    {
      var nid := Host(e, ipId);
      ipId := (ipId + 1) % 0x1_0000;
      StoreField(mem, 4, nid, e);
      nid := 0xFFFF - nid;
      var sum := AddWithCarry(Host(e, Word(mem[..], 10)), nid);
      StoreField(mem, 10, sum, e);
    }

    // The checks in front of the buffer: mem leaves with its final id.
    method Validate(mem: array<byte>, n: nat, e: Endian) returns (r: Outcome)
      requires Patchable(mem[..], n)
      modifies this`ipId, mem
      ensures r == Outgoing(old(mem[..]), n, old(ipId), e)
      ensures ipId == IdAfter(old(mem[..]), n, old(ipId), e)
    {
      var m := mem[..];
      var ecode := CheckIp(m, n);
      if ecode < 0 {
        return Dropped(ecode);
      }
      if NeedsId(m, e) {
        PatchIsReadable(m, n, ipId, e);
        AssignId(mem, e);
        r := Recheck(mem[..], n);
      } else {
        r := Sent(m[..n]);
      }
    }

    // Validates the packet, gives it an id if it needs one, and queues it.
    method WriteToSerial(mem: array<byte>, n: nat, e: Endian) returns (r: Outcome, ok: bool)
      requires Valid() && mem != sender.port.slipBuf && sender.Empty() && Handable(mem[..], n)
      modifies Footprint(), mem
      ensures r == Outgoing(old(mem[..]), n, old(ipId), e) && (r.Sent? ==> |r.packet| == n)
      ensures ipId == IdAfter(old(mem[..]), n, old(ipId), e)
      ensures ok <==> r.Dropped? || Fits(DRAINED, Encode(r.packet))
      ensures ok ==> Valid()
      ensures ok ==> sender.history == old(sender.history) + (if r.Sent? then [Packet(r.packet)] else [])
      ensures ok ==> sender.queued == old(sender.queued) + Frames(r)
      ensures ok ==> sender.Waiting() == if r.Sent? then |Encode(r.packet)| else 0
      ensures r.Sent? && |r.packet| <= 999 ==> ok
    {
      r := ValidateChecked(mem, n, e);
      ok := Queue(r);
    }

    // What passes is checked.
    method ValidateChecked(mem: array<byte>, n: nat, e: Endian) returns (r: Outcome)
      requires Handable(mem[..], n)
      modifies this`ipId, mem
      ensures r == Outgoing(old(mem[..]), n, old(ipId), e) && (r.Sent? ==> Checked(r.packet) && |r.packet| == n)
      ensures ipId == IdAfter(old(mem[..]), n, old(ipId), e)
    {
      OutgoingIsCheckedIfSent(mem[..], n, ipId, e);
      r := Validate(mem, n, e);
    }

    method Queue(r: Outcome) returns (ok: bool)
      requires Valid() && sender.Empty() && (r.Sent? ==> Checked(r.packet))
      modifies sender.Footprint()
      ensures ok <==> r.Dropped? || Fits(DRAINED, Encode(r.packet))
      ensures ok ==> Valid()
      ensures ok ==> sender.history == old(sender.history) + (if r.Sent? then [Packet(r.packet)] else [])
      ensures ok ==> sender.queued == old(sender.queued) + Frames(r)
      ensures ok ==> sender.Waiting() == if r.Sent? then |Encode(r.packet)| else 0
      ensures r.Sent? && |r.packet| <= 999 ==> ok
    {
      ok := true;
      if r.Sent? {
        CapacityFromEmpty(r.packet);
        ok := sender.SendPacket(r.packet);
      }
    }

    method Flush(w: WriteResult) returns (ok: bool)
      requires Valid()
      modifies sender.Footprint()
      ensures ok <==> old(sender.Empty()) || !w.Failed?
      ensures ok ==> Valid() && old(sender.history) <= sender.history && sender.queued == old(sender.queued)
      ensures ok ==> sender.Waiting() == LeftBy(old(sender.Waiting()), w)
    {
      ghost var before := sender.history;
      ok := sender.Flush(w);
      if ok {
        assert sender.history == before + [sender.history[|before|]];
      }
    }

    // The tun device has been selected: queue the packet read from it and flush.
    method TunToSerial(mem: array<byte>, n: nat, e: Endian, w: WriteResult) returns (ok: bool, r: Outcome)
      requires Valid() && mem != sender.port.slipBuf && sender.Empty() && Handable(mem[..], n)
      modifies Footprint(), mem
      ensures r == Outgoing(old(mem[..]), n, old(ipId), e)
      ensures ipId == IdAfter(old(mem[..]), n, old(ipId), e)
      ensures ok ==> Valid() && old(sender.history) <= sender.history
      ensures ok ==> sender.queued == old(sender.queued) + Frames(r) && sender.Waiting() == LeftOf(Frames(r), w)
      ensures n <= 999 && !w.Failed? ==> ok
    {
      r, ok := WriteToSerial(mem, n, e);
      if ok {
        ok := Flush(w);
      }
    }

    // relay_dhcp_to_client up to its call of write_to_serial.
    method BuildReply(reply: Datagram, ghost e: Endian) returns (packet: Maybe<seq<byte>>)
      modifies this`ipId
      ensures RelayedFrames(reply, giaddr, old(ipId)) == if packet.Some? then [packet.value] else []
      ensures ipId == ReplyId(Some(reply), old(ipId))
      ensures packet.Some? ==> Unhindered(packet.value, ipId, e)
    {
      ghost var id := ipId;
      packet, ipId := RelayToClient(reply, giaddr, ipId);
      if packet.Some? {
        ClientPacketIsUnhindered(reply, giaddr, id, ipId, e);
      }
    }

    method QueueBuilt(p: seq<byte>, e: Endian)
      requires Valid() && sender.Empty() && Unhindered(p, ipId, e)
      modifies Footprint()
      ensures Valid() && ipId == old(ipId) && sender.Waiting() == |Encode(p)|
      ensures sender.history == old(sender.history) + [Packet(p)] && sender.queued == old(sender.queued) + [p]
    {
      var mem := CopyOf(p);
      var r, ok := WriteToSerial(mem, |p|, e);
      assert r == Sent(p) && ok;
    }

    // The DHCP socket has been selected: build the client's packet, which uses up an
    // id, queue it and flush. This never overflows.
    method RelayReply(reply: Datagram, e: Endian, w: WriteResult) returns (ok: bool)
      requires Valid() && sender.Empty()
      modifies Footprint()
      ensures ok ==> Valid() && old(sender.history) <= sender.history
      ensures ok ==> sender.queued == old(sender.queued) + RelayedFrames(reply, giaddr, old(ipId))
      ensures ok ==> ipId == ReplyId(Some(reply), old(ipId))
      ensures ok ==> sender.Waiting() == LeftOf(RelayedFrames(reply, giaddr, old(ipId)), w)
      ensures !w.Failed? ==> ok
    {
      QueueReply(reply, e);
      ok := Flush(w);
    }

    // relay_dhcp_to_client: what has been built, if anything, goes through write_to_serial.
    method QueueReply(reply: Datagram, e: Endian)
      requires Valid() && sender.Empty()
      modifies Footprint()
      ensures Valid() && old(sender.history) <= sender.history
      ensures sender.queued == old(sender.queued) + RelayedFrames(reply, giaddr, old(ipId))
      ensures ipId == ReplyId(Some(reply), old(ipId))
      ensures sender.Waiting() == SizeOf(RelayedFrames(reply, giaddr, old(ipId)))
    {
      var packet := BuildReply(reply, e);
      if packet.Some? {
        QueueBuilt(packet.value, e);
      }
    }

    // The first half of a turn: the alarm's request, the bytes that can be read, and
    // whatever can be written. `asked` is whether select() is also told to look for
    // packets.
    method Exchange(alarm: bool, readable: Maybe<seq<byte>>, linux: bool, writable: bool, w: WriteResult)
      returns (ok: bool, asked: bool)
      requires Valid() && Hears() && (readable.Some? && linux ==> readable.value != [])
      modifies sender.Footprint(), receiver.Footprint()
      ensures ok ==> Valid() && old(sender.history) <= sender.history && (asked ==> sender.Empty())
      ensures ok ==> asked == (!alarm && old(sender.Empty()))
      ensures ok ==> sender.queued == old(sender.queued) + (if alarm then [IPA_REQUEST] else [])
      ensures ok ==> Hears() && receiver.slip.View() == Heard(old(receiver.slip.View()), readable)
      ensures ok ==> sender.Waiting() == AfterExchange(old(sender.Waiting()), alarm, writable, w)
      ensures !alarm && !w.Failed? ==> ok
    {
      ok, asked := BeforeSelect(alarm);
      if ok {
        receiver.Hear(readable, linux);
        if writable && !asked {
          ok := Flush(w);
        }
      }
    }

    method BeforeSelect(alarm: bool) returns (ok: bool, asked: bool)
      requires Valid()
      modifies sender.Footprint()
      ensures ok ==> Valid() && old(sender.history) <= sender.history && asked == sender.Empty()
      ensures ok ==> asked == (!alarm && old(sender.Empty()))
      ensures ok ==> sender.queued == old(sender.queued) + (if alarm then [IPA_REQUEST] else [])
      ensures ok ==> sender.Waiting() == old(sender.Waiting()) + if alarm then |Encode(IPA_REQUEST)| else 0
      ensures !alarm ==> ok
    {
      ok, asked := true, false;
      if alarm {
        ok := RequestAddress();
        if !ok {
          return;
        }
      }
      asked := sender.SlipEmpty();
    }

    // The second half: a packet of tunLen bytes may be waiting on the tun device and
    // a reply on the DHCP socket, which is read only if the buffer is empty by then.
    method TakePackets(tun: bool, tunMem: array<byte>, tunLen: nat, dhcp: Maybe<Datagram>, e: Endian,
                       w1: WriteResult, w2: WriteResult) returns (ok: bool, dhcpRead: Maybe<Datagram>)
      requires Valid() && (tun || dhcp.Some? ==> sender.Empty())
      requires tunMem != sender.port.slipBuf && Handable(tunMem[..], tunLen)
      modifies Footprint(), tunMem
      ensures ok ==> Valid() && old(sender.history) <= sender.history
      ensures dhcpRead == None || dhcpRead == dhcp
      ensures !tun ==> dhcpRead == dhcp
      ensures ok ==> (
        var sent := Frames(Outgoing(old(tunMem[..]), tunLen, old(ipId), e));
        var left := if tun then LeftOf(sent, w1) else old(sender.Waiting());
        var id := TunId(tun, old(tunMem[..]), tunLen, old(ipId), e);
        && dhcpRead == (if left == 0 then dhcp else None)
        && sender.Waiting() == if dhcpRead.Some? then LeftOf(ReplyFrames(dhcpRead, giaddr, id), w2) else left)
      ensures ok ==>
        sender.queued == old(sender.queued)
          + TakenFrames(tun, old(tunMem[..]), tunLen, dhcpRead, giaddr, old(ipId), e)
      ensures ok ==> ipId == ReplyId(dhcpRead, TunId(tun, old(tunMem[..]), tunLen, old(ipId), e))
      ensures tunLen <= 999 && !w1.Failed? && !w2.Failed? ==> ok
    {
      ghost var before, id := sender.queued, ipId;
      ghost var taken := if tun then Frames(Outgoing(tunMem[..], tunLen, id, e)) else [];
      ghost var id1 := TunId(tun, tunMem[..], tunLen, id, e);
      dhcpRead := None;
      ok := TakeTun(tun, tunMem, tunLen, e, w1);
      if ok {
        ok, dhcpRead := TakeReply(dhcp, e, w2);
        ConcatAssoc(before, taken, ReplyFrames(dhcpRead, giaddr, id1));
      }
    }

    method TakeTun(tun: bool, tunMem: array<byte>, tunLen: nat, e: Endian, w: WriteResult) returns (ok: bool)
      requires Valid() && (tun ==> sender.Empty())
      requires tunMem != sender.port.slipBuf && Handable(tunMem[..], tunLen)
      modifies Footprint(), tunMem
      ensures ok ==> Valid() && old(sender.history) <= sender.history
      ensures ok ==> (
        var sent := if tun then Frames(Outgoing(old(tunMem[..]), tunLen, old(ipId), e)) else [];
        && sender.queued == old(sender.queued) + sent
        && sender.Waiting() == if tun then LeftOf(sent, w) else old(sender.Waiting()))
      ensures ok ==> ipId == TunId(tun, old(tunMem[..]), tunLen, old(ipId), e)
      ensures !tun || (tunLen <= 999 && !w.Failed?) ==> ok
    {
      ok := true;
      if tun {
        var r;
        ok, r := TunToSerial(tunMem, tunLen, e, w);
      }
    }

    method TakeReply(dhcp: Maybe<Datagram>, e: Endian, w: WriteResult) returns (ok: bool, dhcpRead: Maybe<Datagram>)
      requires Valid()
      modifies Footprint()
      ensures ok ==> Valid() && old(sender.history) <= sender.history
      ensures dhcpRead == if old(sender.Empty()) then dhcp else None
      ensures ok ==> sender.queued == old(sender.queued) + ReplyFrames(dhcpRead, giaddr, old(ipId))
      ensures ok ==> ipId == ReplyId(dhcpRead, old(ipId))
      ensures ok ==> (
        var sent := ReplyFrames(dhcpRead, giaddr, old(ipId));
        sender.Waiting() == if dhcpRead.Some? then LeftOf(sent, w) else old(sender.Waiting()))
      ensures !w.Failed? ==> ok
    {
      ok := true;
      var empty := sender.SlipEmpty();
      dhcpRead := if empty then dhcp else None;
      if dhcpRead.Some? {
        ok := RelayReply(dhcpRead.value, e, w);
      }
    }

    // One turn of the main loop. No packet is read unless the buffer was empty before
    // select(). One turn queues exactly the address request and the packets it read,
    // in that order; it decodes exactly the bytes it read, and Hears() says what has
    // become of the frames in them.
    method Turn(alarm: bool, readable: Maybe<seq<byte>>, linux: bool, writable: bool,
                tun: bool, tunMem: array<byte>, tunLen: nat, dhcp: Maybe<Datagram>, e: Endian,
                w0: WriteResult, w1: WriteResult, w2: WriteResult)
      returns (ok: bool, tunRead: bool, dhcpRead: Maybe<Datagram>)
      requires Valid() && Hears() && (readable.Some? && linux ==> readable.value != [])
      requires tunMem != sender.port.slipBuf && tunMem != receiver.slip.inbuf && Handable(tunMem[..], tunLen)
      requires dhcp.Some? ==> receiver.config.dhcpOpen
      modifies Footprint(), receiver.Footprint(), tunMem
      ensures ok ==> Valid() && old(sender.history) <= sender.history
      ensures ok ==> Hears() && receiver.slip.View() == Heard(old(receiver.slip.View()), readable)
      ensures ok ==> (tunRead <==> tun && !alarm && old(sender.Empty()))
      ensures dhcpRead == None || (dhcpRead == dhcp && !alarm && old(sender.Empty()))
      ensures ok && !tun && !alarm && old(sender.Empty()) ==> dhcpRead == dhcp
      ensures ok ==>
        sender.queued == old(sender.queued)
          + (if alarm then [IPA_REQUEST] else [])
          + TakenFrames(tunRead, old(tunMem[..]), tunLen, dhcpRead, giaddr, old(ipId), e)
      ensures ok ==> ipId == ReplyId(dhcpRead, TunId(tunRead, old(tunMem[..]), tunLen, old(ipId), e))
      ensures ok ==> (
        var before := AfterExchange(old(sender.Waiting()), alarm, writable, w0);
        var sent := Frames(Outgoing(old(tunMem[..]), tunLen, old(ipId), e));
        var left := if tunRead then LeftOf(sent, w1) else before;
        var id := TunId(tunRead, old(tunMem[..]), tunLen, old(ipId), e);
        && dhcpRead == (if !alarm && old(sender.Empty()) && left == 0 then dhcp else None)
        && sender.Waiting() == if dhcpRead.Some? then LeftOf(ReplyFrames(dhcpRead, giaddr, id), w2) else left)
      ensures !alarm && tunLen <= 999 && !w0.Failed? && !w1.Failed? && !w2.Failed? ==> ok
    {
      tunRead, dhcpRead := false, None;
      ghost var m, id := tunMem[..], ipId;
      var asked;
      ok, asked := Exchange(alarm, readable, linux, writable, w0);
      if ok {
        assert tunMem[..] == m && ipId == id;
        ghost var queued := sender.queued;
        tunRead := tun && asked;
        ok, dhcpRead := Rest(tunRead, tunMem, tunLen, if asked then dhcp else None, e, w1, w2);
        assert ok ==> sender.queued == queued + TakenFrames(tunRead, m, tunLen, dhcpRead, giaddr, id, e);
      }
    }

    // The second half leaves the receive half alone.
    method Rest(tun: bool, tunMem: array<byte>, tunLen: nat, dhcp: Maybe<Datagram>, e: Endian,
                w1: WriteResult, w2: WriteResult) returns (ok: bool, dhcpRead: Maybe<Datagram>)
      requires Valid() && Hears() && (tun || dhcp.Some? ==> sender.Empty())
      requires tunMem != sender.port.slipBuf && tunMem != receiver.slip.inbuf && Handable(tunMem[..], tunLen)
      modifies Footprint(), tunMem
      ensures Hears() && receiver.slip.View() == old(receiver.slip.View())
      ensures ok ==> Valid() && old(sender.history) <= sender.history
      ensures dhcpRead == None || dhcpRead == dhcp
      ensures !tun ==> dhcpRead == dhcp
      ensures ok ==> (
        var sent := Frames(Outgoing(old(tunMem[..]), tunLen, old(ipId), e));
        var left := if tun then LeftOf(sent, w1) else old(sender.Waiting());
        var id := TunId(tun, old(tunMem[..]), tunLen, old(ipId), e);
        && dhcpRead == (if left == 0 then dhcp else None)
        && sender.Waiting() == if dhcpRead.Some? then LeftOf(ReplyFrames(dhcpRead, giaddr, id), w2) else left)
      ensures ok ==>
        sender.queued == old(sender.queued)
          + TakenFrames(tun, old(tunMem[..]), tunLen, dhcpRead, giaddr, old(ipId), e)
      ensures ok ==> ipId == ReplyId(dhcpRead, TunId(tun, old(tunMem[..]), tunLen, old(ipId), e))
      ensures tunLen <= 999 && !w1.Failed? && !w2.Failed? ==> ok
    {
      ok, dhcpRead := TakePackets(tun, tunMem, tunLen, dhcp, e, w1, w2);
    }
  }

  // What is waiting after an exchange, of the bytes waiting before it.
  function AfterExchange(waiting: nat, alarm: bool, writable: bool, w: WriteResult): nat {
    var asked := waiting + if alarm then |Encode(IPA_REQUEST)| else 0;
    if writable then LeftBy(asked, w) else asked
  }

  // What is left waiting of the frame just queued, if there is one, after a write.
  function LeftOf(frames: seq<seq<byte>>, w: WriteResult): nat {
    LeftBy(SizeOf(frames), w)
  }

  function SizeOf(frames: seq<seq<byte>>): nat {
    if frames == [] then 0 else |Encode(frames[|frames| - 1])|
  }

  // What a DHCP reply puts on the line.
  function RelayedFrames(reply: Datagram, gi: Addr, id: u16): seq<seq<byte>>
  {
    if reply[0] == BOOTREPLY then [ClientPacket(reply, gi, id)] else []
  }

  function ReplyFrames(dhcp: Maybe<Datagram>, gi: Addr, id: u16): seq<seq<byte>>
  {
    if dhcp.Some? then RelayedFrames(dhcp.value, gi, id) else []
  }

  // What a packet from the tun device and then a DHCP reply put on the line.
  function TakenFrames(tun: bool, m: seq<byte>, n: nat, dhcp: Maybe<Datagram>, gi: Addr, id: u16, e: Endian)
    : seq<seq<byte>>
    requires Patchable(m, n)
  {
    (if tun then Frames(Outgoing(m, n, id, e)) else []) + ReplyFrames(dhcp, gi, TunId(tun, m, n, id, e))
  }

  // The identification counter after the one and after the other.
  function TunId(tun: bool, m: seq<byte>, n: nat, id: u16, e: Endian): u16
    requires Patchable(m, n)
  {
    if tun then IdAfter(m, n, id, e) else id
  }

  function ReplyId(dhcp: Maybe<Datagram>, id: u16): u16
  {
    if dhcp.Some? && dhcp.value[0] == BOOTREPLY then (id + 1) % 0x1_0000 else id
  }

  // write_to_serial takes the packet as it is, and never to its overflow exit.
  ghost predicate Unhindered(p: seq<byte>, id: u16, e: Endian) {
    Handable(p, |p|) && SentAsIs(p, id, e) && Fits(DRAINED, Encode(p))
  }

  lemma ClientPacketIsUnhindered(reply: seq<byte>, gi: Addr, id: u16, ipId: u16, e: Endian)
    requires WellFormedReply(reply)
    ensures Unhindered(ClientPacket(reply, gi, id), ipId, e)
  {
    ClientPacketIsAccepted(reply, gi, id, ipId, e);
  }

  // The check after the patch.
  method Recheck(m: seq<byte>, n: nat) returns (r: Outcome)
    requires Readable(m, n)
    ensures r == if CheckIp(m, n) < 0 then Dropped(CheckIp(m, n)) else Sent(m[..n])
  {
    var ecode := CheckIp(m, n);
    if ecode < 0 {
      return Dropped(ecode);
    }
    r := Sent(m[..n]);
  }

  lemma OutgoingIsCheckedIfSent(m: seq<byte>, n: nat, id: u16, e: Endian)
    requires Handable(m, n)
    ensures var r := Outgoing(m, n, id, e); r.Sent? ==> Checked(r.packet) && |r.packet| == n
  {
    if Outgoing(m, n, id, e).Sent? {
      SentBytes(m, n, id, e);
      OutgoingIsChecked(m, n, id, e);
    }
  }

  // The theorems about runs of checked packets hold of the gateway at any time.
  lemma GatewayIsReached(g: Gateway)
    requires g.Valid()
    ensures TunslipReaches(g.sender.View())
    ensures Conserved(g.sender.View()) && g.sender.rx.frames <= NonEmpty(g.sender.queued)
  {
    assert TunslipRun(g.sender.history) && Runs(START, g.sender.history) == Some(g.sender.View());
    SenderIsReached(g.sender);
  }
}
