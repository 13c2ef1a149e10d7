/** The IPv4 gateway's decisions: which packets are sent, and where received frames go. */
module Tunslip {
  import opened Bytes
  import opened OnesComplement
  import opened PacketCheck
  import opened SlipCodec
  import opened SlipLink
  import opened SlipReceivers

  // ---------- Sending: write_to_serial ----------

  datatype Outcome = Dropped(ecode: int) | Sent(packet: seq<byte>)

  // The "don't fragment" test is made on the host value of the field.
  predicate DontFragment(m: seq<byte>, e: Endian)
    requires |m| >= 20
  {
    Host(e, Word(m, 6)) / 0x4000 % 2 == 1
  }

  predicate NeedsId(m: seq<byte>, e: Endian)
    requires |m| >= 20
  {
    Word(m, 4) == 0 && DontFragment(m, e)
  }

  // The verdict on the packet is its own. Input that does not pass for an IPv4 packet
  // of n bytes is simply dropped.
  predicate Handable(m: seq<byte>, n: nat) {
    Readable(m, n) && Settled(m, n)
  }

  // Enough for the checks and the patch: whatever passes for an IPv4 packet has at
  // least the 20 bytes of the fixed header, whatever header length it claims.
  predicate Patchable(m: seq<byte>, n: nat) {
    Readable(m, n) && (LengthsAgree(m, n) ==> 20 <= n)
  }

  function Outgoing(m: seq<byte>, n: nat, id: u16, e: Endian): Outcome
    requires Patchable(m, n)
  {
    if CheckIp(m, n) < 0 then Dropped(CheckIp(m, n))
    else if !NeedsId(m, e) then Sent(m[..n])
    else
      PatchIsReadable(m, n, id, e);
      var m' := PatchId(m, id, e);
      if CheckIp(m', n) < 0 then Dropped(CheckIp(m', n)) else Sent(m'[..n])
  }

  // The identification counter moves only when an id is used up.
  function IdAfter(m: seq<byte>, n: nat, id: u16, e: Endian): u16
    requires Patchable(m, n)
  {
    if CheckIp(m, n) == 0 && NeedsId(m, e) then (id + 1) % 0x1_0000 else id
  }

  function Frames(r: Outcome): seq<seq<byte>> {
    if r.Sent? then [r.packet] else []
  }

  // The packet p, on its own in memory, is sent unchanged and uses up no id.
  predicate SentAsIs(p: seq<byte>, id: u16, e: Endian) {
    Patchable(p, |p|) && Outgoing(p, |p|, id, e) == Sent(p) && IdAfter(p, |p|, id, e) == id
  }

  lemma UnpatchedIsSent(p: seq<byte>, id: u16, e: Endian)
    requires Patchable(p, |p|) && CheckIp(p, |p|) == 0 && !DontFragment(p, e)
    ensures SentAsIs(p, id, e)
  {
    assert p[..|p|] == p;
  }

  // The test looks at bit 14 of the host value. On a little-endian host that is bit 6
  // of the field, so it tells the flag exactly when those two bits agree.
  lemma FlagIsReadIff(m: seq<byte>, e: Endian)
    requires |m| >= 20
    ensures (DontFragment(m, e) <==> Flag(m)) <==>
      e == Big || Word(m, 6) / 0x4000 % 2 == Word(m, 6) / 0x40 % 2
  {
    HostFlag(Word(m, 6), e);
  }

  lemma HostFlag(w: u16, e: Endian)
    ensures Host(e, w) / 0x4000 % 2 == if e == Big then w / 0x4000 % 2 else w / 0x40 % 2
  {
    if e == Little {
      var high, low := w / 256, w % 256;
      assert SwapBytes(w) == low * 256 + high && w == high * 256 + low;
      SwappedFlag(high, low);
    }
  }

  lemma SwappedFlag(high: byte, low: byte)
    ensures (low as int * 256 + high as int) / 0x4000 % 2 == (high as int * 256 + low as int) / 0x40 % 2
  {
    var bits := low as int / 0x40;
    assert (low as int * 256 + high as int) / 0x4000 == bits;
    assert (high as int * 256 + low as int) / 0x40 == 4 * high as int + bits;
  }

  // The "don't fragment" flag as section 3.1 of RFC 791 places it.
  predicate Flag(m: seq<byte>)
    requires |m| >= 20
  {
    Word(m, 6) / 0x4000 % 2 == 1
  }

  // An unfragmented packet with the flag set gets no id on a little-endian host; with
  // the flag clear and a fragment offset that has bit 6 it does.
  lemma FlagIsMissed(m: seq<byte>)
    requires |m| >= 20 && Word(m, 4) == 0
    ensures Word(m, 6) == 0x4000 ==> Flag(m) && NeedsId(m, Big) && !NeedsId(m, Little)
    ensures Word(m, 6) == 0x0040 ==> !Flag(m) && !NeedsId(m, Big) && NeedsId(m, Little)
  {
  }

  // Exactly what is sent: every sound packet, except one with a header of 8 bytes
  // that is given an id not congruent to 0.
  predicate SpoiltByPatch(m: seq<byte>, id: u16, e: Endian)
    requires |m| >= 20
  {
    NeedsId(m, e) && HeaderLen(m) == 8 && id % 65535 != 0
  }

  lemma SentIffSound(m: seq<byte>, n: nat, id: u16, e: Endian)
    requires Patchable(m, n)
    ensures Outgoing(m, n, id, e).Sent? <==> Sound(m, n) && !SpoiltByPatch(m, id, e)
    ensures !Sound(m, n) ==> Outgoing(m, n, id, e) == Dropped(CheckIp(m, n))
    ensures Sound(m, n) && SpoiltByPatch(m, id, e) ==> Outgoing(m, n, id, e) == Dropped(-4)
  {
    AcceptedIffSound(m, n);
    if CheckIp(m, n) == 0 && Word(m, 4) == 0 {
      PatchKeepsAcceptance(m, n, id, e);
      PatchIsEndianFree(m, id, e);
      if HeaderLen(m) == 8 && id % 65535 != 0 {
        SpoiltCode(m, n, id);
      }
    }
  }

  // p is m with the id in place, its checksum moved by just as much, and nothing else
  // touched. (In ones' complement 0 and 0xFFFF are both zero; 0 comes out only where
  // the checksum was 0 and the id is 0xFFFF.)
  predicate PatchOf(p: seq<byte>, m: seq<byte>, id: u16)
    requires 20 <= |p| <= |m|
  {
    && Word(p, 4) == id && Balanced(Word(p, 10) + id - Word(m, 10))
    && (Word(p, 10) == 0 <==> Word(m, 10) == 0 && id == 0xFFFF)
    && forall i :: 0 <= i < |p| && i !in {4, 5, 10, 11} ==> p[i] == m[i]
  }

  // The bytes that are sent. A packet with no id whose flag reads as set gets the new
  // one; every other packet is sent as it came.
  lemma SentBytes(m: seq<byte>, n: nat, id: u16, e: Endian)
    requires Patchable(m, n) && Outgoing(m, n, id, e).Sent?
    ensures var p, flag := Outgoing(m, n, id, e).packet, if e == Big then 0x4000 else 0x40;
      && |p| == n >= 20
      && if m[4] == 0 && m[5] == 0 && Word(m, 6) / flag % 2 == 1 then PatchOf(p, m, id) else p == m[..n]
  {
    HostFlag(Word(m, 6), e);
    AcceptedIffSound(m, n);
    if NeedsId(m, e) {
      PatchIsEndianFree(m, id, e);
      PatchedBytes(m, n, id);
    }
  }

  lemma PatchedBytes(m: seq<byte>, n: nat, id: u16)
    requires 20 <= n <= |m|
    ensures PatchOf(Patched(m, id)[..n], m, id)
  {
    var p := Patched(m, id)[..n];
    PatchBalance(Word(m, 10), id);
    assert Word(p, 10) == Norm(Word(m, 10) + 0xFFFF - id);
  }

  // An id is used up exactly by a sound packet that is patched, and the next packet
  // patched gets another.
  lemma IdIsUsedUp(m: seq<byte>, n: nat, id: u16, e: Endian)
    requires Patchable(m, n)
    ensures var next, flag := IdAfter(m, n, id, e), if e == Big then 0x4000 else 0x40;
      && (next != id <==> Sound(m, n) && m[4] == 0 && m[5] == 0 && Word(m, 6) / flag % 2 == 1)
      && (next != id ==> next == if id == 0xFFFF then 0 else id + 1)
  {
    HostFlag(Word(m, 6), e);
    AcceptedIffSound(m, n);
  }

  // So the check after the patch never drops a packet with a header of at least 20
  // bytes: a drop always carries the code of the first check.
  lemma SecondCheckNeverDrops(m: seq<byte>, n: nat, id: u16, e: Endian)
    requires Patchable(m, n) && (LengthsAgree(m, n) ==> 20 <= HeaderLen(m))
    ensures Outgoing(m, n, id, e).Sent? <==> Sound(m, n)
    ensures Outgoing(m, n, id, e).Dropped? ==> Outgoing(m, n, id, e) == Dropped(CheckIp(m, n))
  {
    SentIffSound(m, n, id, e);
  }

  // It does drop this one, on a little-endian host: sound as received, header length
  // 8, new id 1. (The same field read by a big-endian host asks for no id.)
  lemma ShortHeaderIsDropped()
    ensures var m := [0x42, 0, 0, 28, 0, 0, 0xBD, 0xE3] + seq(20, _ => 0);
      && Patchable(m, 28) && Sound(m, 28)
      && NeedsId(m, Little) && Outgoing(m, 28, 1, Little).Dropped?
      && !NeedsId(m, Big)
  {
    var h: seq<byte> := [0x42, 0, 0, 28, 0, 0, 0xBD, 0xE3];
    var m := h + seq(20, _ => 0);
    EightByteSum(h);
    assert m[..HeaderLen(m)] == h;
    AcceptedIffSound(m, 28);
    assert Word(m, 6) == 0xBDE3 && SwapBytes(0xBDE3) == 0xE3BD;
    SentIffSound(m, 28, 1, Little);
  }

  // ---------- Receiving: what serial_to_tun does with a frame ----------

  datatype Delivery =
    | Address(ipa: Addr)           // "=IPA" announcement
    | DebugText(text: seq<byte>)   // copied to stderr
    | Rejected(ecode: int)
    | Relayed                      // handed to the DHCP server side
    | Tun(packet: seq<byte>)       // written to the tun device

  predicate DhcpFromClient(m: seq<byte>)
    requires |m| >= 28
  {
    m[9] == UDP && m[16..20] == [255, 255, 255, 255] && Word(m, 20) == 68 && Word(m, 22) == 67
  }

  const IPA_ANNOUNCE: seq<byte> := [0x3D, 0x49, 0x50, 0x41]  // "=IPA"
  const IPA_REQUEST: seq<byte> := [0x3F, 0x49, 0x50, 0x41]   // "?IPA"

  // m is the whole receive buffer, n the length of the frame in it.
  function Deliver(m: seq<byte>, n: nat, dhcpOpen: bool): Delivery
    requires Readable(m, n) && n > 0
  {
    var ecode := CheckIp(m, n);
    if ecode < 0 && n == 8 && m[..4] == IPA_ANNOUNCE then Address(m[4..8])
    else if ecode < 0 then
      if m[0] == 13 then DebugText(m[1..n])
      else if SensibleString(m, n) then DebugText(m[..n])
      else Rejected(ecode)
    else if dhcpOpen && DhcpFromClient(m) then Relayed
    else Tun(m[..n])
  }

  // Which frames go where: a sound packet to the tun device, or to the DHCP side if
  // that is open and the packet is a UDP broadcast from port 68 to port 67; an
  // announcement, "=IPA" and four bytes, is told by itself, since '=' is no IPv4
  // version; the rest is text, behind a carriage return or of printable bytes, or
  // refused with the code of the check.
  lemma DeliveredWhere(m: seq<byte>, n: nat, dhcpOpen: bool)
    requires Readable(m, n) && n > 0
    ensures Deliver(m, n, dhcpOpen) ==
      if Sound(m, n) then
        if dhcpOpen && m[9] == 17 && m[16..24] == [255, 255, 255, 255, 0, 68, 0, 67] then Relayed else Tun(m[..n])
      else if n == 8 && m[..4] == [0x3D, 0x49, 0x50, 0x41] then Address(m[4..8])
      else if m[0] == 0x0D then DebugText(m[1..n])
      else if forall i :: 1 <= i < n ==> m[i] in {0, 9, 10, 13} || 32 <= m[i] <= 126 then DebugText(m[..n])
      else Rejected(CheckIp(m, n))
    ensures Deliver(m, n, dhcpOpen).Address? <==> n == 8 && m[..4] == [0x3D, 0x49, 0x50, 0x41]
  {
    AcceptedIffSound(m, n);
    ClientBroadcast(m);
    if m[..4] == IPA_ANNOUNCE {
      assert m[..4][0] == m[0] == 0x3D;
    }
  }

  lemma ClientBroadcast(m: seq<byte>)
    requires |m| >= 28
    ensures DhcpFromClient(m) <==> m[9] == 17 && m[16..24] == [255, 255, 255, 255, 0, 68, 0, 67]
  {
    var field, ports := m[16..24], m[20..24];
    assert field[..4] == m[16..20] && field == m[16..20] + ports;
    assert ports == [m[20], m[21], m[22], m[23]];
    assert field == [255, 255, 255, 255, 0, 68, 0, 67] ==>
      field[4] == 0 && field[5] == 68 && field[6] == 0 && field[7] == 67;
  }

  // ---------- End to end for IP packets ----------

  // A packet that check_ip accepts on its own: the bytes behind it in memory are
  // immaterial, so they are taken as zeros.
  ghost predicate Checked(p: seq<byte>) {
    var m := p + seq(28, _ => 0);
    Handable(m, |p|) && CheckIp(m, |p|) == 0
  }

  lemma CheckedAnywhere(p: seq<byte>, m: seq<byte>)
    requires Checked(p) && |m| >= 28 && |p| <= |m| && m[..|p|] == p
    ensures Handable(m, |p|) && CheckIp(m, |p|) == 0
  {
    var m0 := p + seq(28, _ => 0);
    assert m0[..|p|] == p;
    StaleBytesAreIrrelevant(m0, m, |p|);
  }

  lemma CheckedFromMemory(m: seq<byte>, n: nat)
    requires Handable(m, n) && CheckIp(m, n) == 0
    ensures Checked(m[..n])
  {
    var m0: seq<byte> := m[..n] + seq(28, _ => 0);
    assert m0[..n] == m[..n];
    StaleBytesAreIrrelevant(m, m0, n);
  }

  lemma OutgoingIsChecked(m: seq<byte>, n: nat, id: u16, e: Endian)
    requires Handable(m, n) && Outgoing(m, n, id, e).Sent?
    ensures Checked(Outgoing(m, n, id, e).packet)
  {
    if NeedsId(m, e) {
      PatchIsReadable(m, n, id, e);
      PatchIsSettled(m, n, id, e);
      CheckedFromMemory(PatchId(m, id, e), n);
    } else {
      CheckedFromMemory(m, n);
    }
  }

  // A UDP packet without room for its checksum field stays balanced in the patch.
  lemma PatchIsSettled(m: seq<byte>, n: nat, id: u16, e: Endian)
    requires Handable(m, n) && CheckIp(m, n) == 0 && Word(m, 4) == 0
    requires Readable(PatchId(m, id, e), n) && CheckIp(PatchId(m, id, e), n) == 0
    ensures Settled(PatchId(m, id, e), n)
  {
    PatchKeepsAcceptance(m, n, id, e);
    PatchIsEndianFree(m, id, e);
    PatchKeepsTransportSum(m, n, id);
  }

  ghost predicate TunslipRun(acts: seq<Action>) {
    forall a :: a in acts ==>
      (a.Packet? ==> Checked(a.p)) && (a.Control? ==> a.c == IPA_REQUEST)
  }

  ghost predicate TunslipReaches(l: Link) {
    exists acts :: TunslipRun(acts) && Runs(START, acts) == Some(l)
  }

  lemma QueuedAreChecked(l: Link)
    requires TunslipReaches(l)
    ensures Reachable(l)
    ensures forall q :: q in l.queued ==> q == IPA_REQUEST || Checked(q)
  {
    var acts :| TunslipRun(acts) && Runs(START, acts) == Some(l);
    QueuedWereActions(acts);
    forall q | q in l.queued ensures q == IPA_REQUEST || Checked(q) {
      assert Packet(q) in acts || Control(q) in acts;
    }
  }

  // In every state the gateway reaches, every frame f the peer has been handed is
  // the address request or a packet that passes the peer's own check_ip, whatever
  // its buffer m held before, and is written to its tun device byte for byte.
  // An open DHCP relay takes the clients' broadcasts instead, and nothing else.
  lemma PacketsReachTheTunDevice(l: Link, f: seq<byte>, m: seq<byte>)
    requires TunslipReaches(l) && f in l.rx.frames && f != IPA_REQUEST
    requires |m| >= 28 && |f| <= |m| && m[..|f|] == f
    ensures |f| > 0 && Handable(m, |f|) && CheckIp(m, |f|) == 0
    ensures forall dhcpOpen :: Deliver(m, |f|, dhcpOpen) == if dhcpOpen && DhcpFromClient(m) then Relayed else Tun(f)
  {
    QueuedAreChecked(l);
    DeliveredIsPrefixOfQueued(l);
    assert f in NonEmpty(l.queued);
    NonEmptyIsSubset(l.queued);
    CheckedAnywhere(f, m);
  }

  method StoreField(mem: array<byte>, k: nat, v: u16, e: Endian)
    requires k + 1 < mem.Length
    modifies mem
    ensures mem[..] == StoreWord(e, old(mem[..]), k, v)
  {
    var w := Host(e, v);
    mem[k] := w / 256;
    mem[k + 1] := w % 256;
  }
}
