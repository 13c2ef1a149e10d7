/** The IPv6 gateway: what it does with a received frame, and its prefix reply. */
module Tunslip6 {
  import opened Bytes
  import opened SlipCodec
  import opened SlipPorts
  import opened SlipLink
  import opened SlipReceivers

  const BANG: byte := 0x21
  const QUERY: byte := 0x3F
  const CR: byte := 0x0D
  const LETTER_M: byte := 0x4D
  const LETTER_P: byte := 0x50

  datatype Reaction =
    | ConfigureMac             // "!M": the interface takes the mote's address
    | SendPrefix               // "?P": answered with the first 8 address bytes
    | Ignored                  // any other '!' or '?' frame
    | Printed(text: seq<byte>)
    | Tun(packet: seq<byte>)   // written to the tun device

  // m is the whole receive buffer: the second byte is read even of a one-byte frame.
  function React(m: seq<byte>, n: nat): Reaction
    requires 0 < n <= |m| && 2 <= |m|
  {
    if m[0] == BANG then (if m[1] == LETTER_M then ConfigureMac else Ignored)
    else if m[0] == QUERY then (if m[1] == LETTER_P then SendPrefix else Ignored)
    else if m[0] == CR then Printed(m[1..n])
    else if SensibleString(m, n) then Printed(m[..n])
    else Tun(m[..n])
  }

  // The frame itself decides whether it is forwarded.
  predicate Forwarded(f: seq<byte>)
    requires f != []
  {
    f[0] !in {BANG, QUERY, CR} && exists i :: 1 <= i < |f| && f[i] !in {0, 9, 10, 13} && !(32 <= f[i] <= 126)
  }

  // In every reachable state each frame the peer has been handed is the one queued
  // in its place, and it is written to the tun device, unaltered, exactly when it
  // is Forwarded.
  lemma FramesReachTheTunDevice(l: Link, i: nat, m: seq<byte>)
    requires Reachable(l) && i < |l.rx.frames|
    requires var f := l.rx.frames[i]; |f| <= |m| && 2 <= |m| && m[..|f|] == f
    ensures var f := l.rx.frames[i];
      && f != [] && i < |NonEmpty(l.queued)| && f == NonEmpty(l.queued)[i]
      && (React(m, |f|) == Tun(f) <==> Forwarded(f))
  {
    DeliveredIsPrefixOfQueued(l);
    NonEmptyHasNoEmpty(l.queued);
    assert l.rx.frames[i] == NonEmpty(l.queued)[i] && NonEmpty(l.queued)[i] in NonEmpty(l.queued);
    ForwardedIffTun(l.rx.frames[i], m);
  }

  lemma {:induction false} NonEmptyHasNoEmpty(ps: seq<seq<byte>>)
    ensures forall p :: p in NonEmpty(ps) ==> p != []
  {
    if ps != [] {
      NonEmptyHasNoEmpty(ps[..|ps| - 1]);
    }
  }

  lemma ForwardedIffTun(f: seq<byte>, m: seq<byte>)
    requires f != [] && |f| <= |m| && 2 <= |m| && m[..|f|] == f
    ensures React(m, |f|) == Tun(f) <==> Forwarded(f)
  {
    assert forall i :: 0 <= i < |f| ==> m[i] == m[..|f|][i] == f[i];
    if Forwarded(f) {
      assert !SensibleString(m, |f|);
    }
  }

  // ---------- The prefix reply ----------

  function PrefixReply(addr: seq<byte>): seq<byte>
    requires |addr| >= 8
  {
    [BANG, LETTER_P] + addr[..8]
  }

  // '!' and 'P' need no stuffing, so the hand-made frame is the encoding of a frame.
  lemma MarkerNeedsNoStuffing()
    ensures Escape([BANG]) == [BANG] && Escape([BANG, LETTER_P]) == [BANG, LETTER_P]
  {
    assert [BANG, LETTER_P][..1] == [BANG] && [BANG][..0] == [];
  }

  // "!P" by two plain sends; a failure here is a failure of the whole reply.
  method SendMarker(port: SlipPort, ghost reply: seq<byte>) returns (ok: bool)
    requires port.Valid() && |reply| >= 2 && reply[..2] == [BANG, LETTER_P]
    modifies port`slipEnd, port`sent, port.slipBuf
    ensures port.Valid() && port.written == old(port.written)
    ensures ok == Fits(old(port.View()), Escape(reply[..2]))
    ensures port.View() == Pushed(old(port.View()), Escape(reply[..2]))
  {
    ghost var q := port.View();
    MarkerNeedsNoStuffing();
    PushedTwice(q, [BANG], [LETTER_P]);
    assert [BANG] + [LETTER_P] == [BANG, LETTER_P];
    ok := port.SlipSend(BANG);
    if ok {
      ok := port.SlipSend(LETTER_P);
    }
  }

  // The reply is queued at once, whatever is waiting in the buffer; false is the
  // overflow exit. It is one more frame of the link.
  method SendPrefixReply(port: SlipPort, addr: seq<byte>) returns (ok: bool)
    requires port.Valid() && |addr| >= 8
    modifies port`slipEnd, port`sent, port.slipBuf
    ensures port.Valid() && port.written == old(port.written)
    ensures ok == Fits(old(port.View()), Encode(PrefixReply(addr)))
    ensures port.View() == Pushed(old(port.View()), Encode(PrefixReply(addr)))
  {
    ghost var q, reply := port.View(), PrefixReply(addr);
    ok := SendMarker(port, reply);
    if !ok {
      OverflowIsFinal(q, reply, 2);
      return;
    }
    ok := SendPrefixBytes(port, addr, q);
    if ok {
      PushEnd(q, reply);
      ok := port.SlipSend(END);
    }
  }

  // The eight bytes behind the marker; q is the buffer before the reply.
  method SendPrefixBytes(port: SlipPort, addr: seq<byte>, ghost q: Port) returns (ok: bool)
    requires port.Valid() && |addr| >= 8 && |q.data| <= BUFFER_SIZE
    requires var e := Escape(PrefixReply(addr)[..2]); Fits(q, e) && port.View() == Pushed(q, e)
    modifies port`slipEnd, port`sent, port.slipBuf
    ensures port.Valid() && port.written == old(port.written)
    ensures ok ==> Fits(q, Escape(PrefixReply(addr))) && port.View() == Pushed(q, Escape(PrefixReply(addr)))
    ensures !ok ==> !Fits(q, Encode(PrefixReply(addr))) && port.View() == Pushed(q, Encode(PrefixReply(addr)))
  {
    ghost var reply := PrefixReply(addr);
    for i := 0 to 8
      invariant port.Valid() && port.written == old(port.written)
      invariant Fits(q, Escape(reply[..i + 2])) && port.View() == Pushed(q, Escape(reply[..i + 2]))
    {
      ok := port.SendNext(q, reply, i + 2, addr[i]);
      if !ok {
        return;
      }
    }
    assert reply[..10] == reply;
    return true;
  }

  // Its octets: "!P" and the first eight of the address.
  lemma PrefixReplyIs(addr: seq<byte>)
    requires |addr| >= 8
    ensures var r := PrefixReply(addr);
      |r| == 10 && r[0] == 0x21 && r[1] == 0x50 && forall i :: 0 <= i < 8 ==> r[i + 2] == addr[i]
  {
  }

  // All reactions, by the octets of the buffer.
  lemma ReactionsMean(m: seq<byte>, n: nat)
    requires 0 < n <= |m| && 2 <= |m|
    ensures React(m, n) ==
      if m[0] == 0x21 then (if m[1] == 0x4D then ConfigureMac else Ignored)
      else if m[0] == 0x3F then (if m[1] == 0x50 then SendPrefix else Ignored)
      else if m[0] == 0x0D then Printed(m[1..n])
      else if forall i :: 1 <= i < n ==> m[i] in {0, 9, 10, 13} || 32 <= m[i] <= 126 then Printed(m[..n])
      else Tun(m[..n])
  {
  }
}
