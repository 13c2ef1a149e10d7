/** The main loop of the IPv6 gateway: prefix replies, pacing, one packet at a time. */
module Tunslip6Gateway {
  import opened Bytes
  import opened SlipCodec
  import opened SlipPorts
  import opened SlipLink
  import opened SlipReceivers
  import opened SlipSenders
  import opened Tunslip6
  import opened Pacing

  // The address of the interface.
  type Addr6 = a: seq<byte> | |a| == 16 witness seq(16, _ => 0)

  // A frame in buffer m asks for the prefix by its first two bytes; of a one-byte
  // frame the second is what the buffer held before.
  lemma AsksMeans(m: seq<byte>, f: seq<byte>)
    requires Holds(m, f)
    ensures React(m, |f|) == SendPrefix <==> m[..2] == [QUERY, LETTER_P]
    ensures |f| >= 2 ==> (React(m, |f|) == SendPrefix <==> f[..2] == [QUERY, LETTER_P])
  {
    assert m[..2] == [m[0], m[1]];
    assert |f| >= 2 ==> f[..2] == m[..|f|][..2] == m[..2];
  }

  // What the frames fs, ending in the buffers ms, ask for.
  function Reactions(ms: seq<seq<byte>>, fs: seq<seq<byte>>): seq<Reaction>
    requires AllHold(ms, fs)
  {
    seq(|fs|, i requires 0 <= i < |fs| => React(ms[i], |fs[i]|))
  }

  // How many ask for the prefix.
  function Requests(rs: seq<Reaction>): nat {
    if rs == [] then 0
    else Requests(rs[..|rs| - 1]) + if rs[|rs| - 1] == SendPrefix then 1 else 0
  }

  // What is put on the tun device.
  function TunFrames(rs: seq<Reaction>): seq<seq<byte>> {
    if rs == [] then [] else TunFrames(rs[..|rs| - 1]) + TunWrites(rs[|rs| - 1])
  }

  function TunWrites(r: Reaction): seq<seq<byte>> {
    if r.Tun? then [r.packet] else []
  }

  // It is told from the frames alone: those that are Forwarded.
  function ForwardedOf(fs: seq<seq<byte>>): seq<seq<byte>> {
    if fs == [] then []
    else
      var last := |fs| - 1;
      ForwardedOf(fs[..last]) + if fs[last] != [] && Forwarded(fs[last]) then [fs[last]] else []
  }

  lemma {:induction false} TunFramesAreForwarded(ms: seq<seq<byte>>, fs: seq<seq<byte>>)
    requires AllHold(ms, fs)
    ensures TunFrames(Reactions(ms, fs)) == ForwardedOf(fs)
  {
    if fs != [] {
      var last := |fs| - 1;
      TunFramesAreForwarded(ms[..last], fs[..last]);
      assert Reactions(ms, fs)[..last] == Reactions(ms[..last], fs[..last]);
      assert Holds(ms[last], fs[last]);
      ForwardedIffTun(fs[last], ms[last]);
    }
  }

  lemma {:induction false} ForwardedConcat(a: seq<seq<byte>>, b: seq<seq<byte>>)
    ensures ForwardedOf(a + b) == ForwardedOf(a) + ForwardedOf(b)
  {
    if b == [] {
      assert a + b == a;
    } else {
      assert (a + b)[..|a + b| - 1] == a + b[..|b| - 1];
      ForwardedConcat(a, b[..|b| - 1]);
    }
  }

  function Replies(addr: Addr6, n: nat): seq<seq<byte>> {
    if n == 0 then [] else Replies(addr, n - 1) + [PrefixReply(addr)]
  }

  // The bytes n replies take up.
  function SizeOf(addr: Addr6, n: nat): nat {
    if n == 0 then 0 else SizeOf(addr, n - 1) + |Encode(PrefixReply(addr))|
  }

  // What is known of the clock during a turn: the reading for the test of the delay,
  // the time a packet is encoded, and the reading after it has been flushed.
  datatype Clock = Clock(now: Time, encoding: Time, after: Time)

  predicate InOrder(start: Time, c: Clock) {
    && Proper(c.now) && Proper(c.encoding) && Proper(c.after)
    && NotAfter(start, c.now) && NotAfter(c.now, c.encoding) && NotAfter(c.encoding, c.after)
  }

  class Gateway6 {
    const sender: Sender
    const pacer: Pacer
    const receiver: SlipReceiver
    const addr: Addr6
    var tunOut: seq<seq<byte>>

    ghost function Footprint(): set<object> {
      {pacer} + sender.Footprint()
    }

    ghost predicate Valid()
      reads sender, sender.port, sender.port.slipBuf, pacer
    {
      sender.Valid() && pacer.Valid()
    }

    ghost function EarFootprint(): set<object> {
      {this, receiver, receiver.inbuf}
    }

    // The receive half, in memory of its own: what has been written to the tun device
    // is the forwarded ones among the frames received so far.
    ghost predicate Hears()
      reads this, receiver, receiver.inbuf
    {
      receiver.Valid() && receiver.inbuf != sender.port.slipBuf && tunOut == ForwardedOf(receiver.frames)
    }

    constructor (addr: Addr6, basedelay: u16)
      ensures Valid() && Hears() && fresh(Footprint() + EarFootprint())
      ensures sender.View() == START && receiver.View() == IDLE
      ensures this.addr == addr && pacer.basedelay == basedelay && pacer.encoded == []
    {
      this.addr, tunOut := addr, [];
      sender := new Sender();
      pacer := new Pacer(basedelay);
      receiver := new SlipReceiver();
    }

    // "!P" and the prefix; false is the overflow exit.
    method Reply() returns (ok: bool)
      requires sender.Valid()
      modifies sender.Footprint()
      ensures ok <==> Fits(old(sender.View().port), Encode(PrefixReply(addr)))
      ensures ok ==> sender.Valid() && sender.history == old(sender.history) + [Control(PrefixReply(addr))]
      ensures ok ==> sender.queued == old(sender.queued) + [PrefixReply(addr)]
      ensures ok ==> sender.Waiting() == old(sender.Waiting()) + |Encode(PrefixReply(addr))| > 0
    {
      ghost var l := sender.View();
      ok := SendPrefixReply(sender.port, addr);
      if ok {
        sender.RecordControl(l, PrefixReply(addr));
      }
    }

    // The END branch, for one frame.
    method Handle(r: Reaction) returns (ok: bool)
      requires sender.Valid()
      modifies this`tunOut, sender.Footprint()
      ensures ok <==> r != SendPrefix || Fits(old(sender.View().port), Encode(PrefixReply(addr)))
      ensures tunOut == old(tunOut) + TunWrites(r)
      ensures ok ==> sender.Valid() && old(sender.history) <= sender.history
      ensures ok ==> sender.queued == old(sender.queued) + if r == SendPrefix then [PrefixReply(addr)] else []
      ensures ok ==> (sender.Empty() <==> r != SendPrefix && old(sender.Empty()))
      ensures ok ==> (
        sender.Waiting() == old(sender.Waiting()) + if r == SendPrefix then |Encode(PrefixReply(addr))| else 0)
    {
      ok := true;
      match r {
        case SendPrefix =>
          ok := Reply();
        case Tun(p) =>
          tunOut := tunOut + [p];
        case _ =>
      }
    }

    // All of them, in order.
    method HandleAll(rs: seq<Reaction>) returns (ok: bool)
      requires sender.Valid()
      modifies this`tunOut, sender.Footprint()
      ensures ok ==> sender.Valid() && old(sender.history) <= sender.history
      ensures ok ==> sender.queued == old(sender.queued) + Replies(addr, Requests(rs))
      ensures ok ==> (sender.Empty() <==> Requests(rs) == 0 && old(sender.Empty()))
      ensures ok ==> sender.Waiting() == old(sender.Waiting()) + SizeOf(addr, Requests(rs))
      ensures ok ==> tunOut == old(tunOut) + TunFrames(rs)
      ensures !ok ==> Requests(rs) > 0
      decreases rs
    {
      ok := true;
      if rs != [] {
        var front, last := rs[..|rs| - 1], rs[|rs| - 1];
        AnswerOneMore(sender.queued, addr, Requests(front));
        ConcatAssoc(tunOut, TunFrames(front), TunWrites(last));
        ok := HandleAll(front);
        if ok {
          ok := Handle(last);
        }
      }
    }

    // A packet is taken, flushed, and starts the delay if there is one.
    method TunToSerial(p: seq<byte>, c: Clock, w: WriteResult) returns (ok: bool)
      requires Valid() && sender.Empty() && pacer.delaymsec == 0 && InOrder(pacer.clock, c)
      modifies Footprint()
      ensures ok ==> Valid() && old(sender.history) <= sender.history
      ensures ok ==> sender.queued == old(sender.queued) + [p] && sender.Waiting() == LeftBy(|Encode(p)|, w)
      ensures ok ==> pacer.encoded == old(pacer.encoded) + if pacer.basedelay != 0 then [c.encoding] else []
      ensures ok <==> Fits(DRAINED, Encode(p)) && !w.Failed?
    {
      ok := sender.SendPacket(p);
      if !ok {
        return;
      }
      ok := sender.Flush(w);
      if ok && pacer.basedelay != 0 {
        pacer.MarkSent(c.encoding, c.after);
      }
    }

    // The end of a turn: the test of the delay, and the packet if there is one.
    // `ready`: the buffer is empty and the tun device has been selected.
    method TakePacket(ready: bool, tun: Maybe<seq<byte>>, c: Clock, w: WriteResult) returns (ok: bool, tunRead: bool)
      requires Valid() && InOrder(pacer.clock, c) && (ready ==> tun.Some? && sender.Empty())
      modifies Footprint()
      ensures ok ==> Valid() && old(sender.history) <= sender.history
      ensures tunRead <==> ready && old(pacer.Over(c.now))
      ensures ready && old(pacer.encoded) == [] ==> tunRead
      ensures ready && old(pacer.encoded) != [] ==> (
        var elapsed := Ms(c.now) - Ms(old(pacer.stamp));
        elapsed < 0x8000_0000 ==> (tunRead <==> old(pacer.delaymsec) == 0 || elapsed > pacer.basedelay))
      ensures ok ==> sender.queued == old(sender.queued) + Taken(tunRead, tun)
      ensures ok ==> pacer.encoded == old(pacer.encoded) + if tunRead && pacer.basedelay != 0 then [c.encoding] else []
      ensures ok ==> sender.Waiting() == if tunRead then LeftBy(|Encode(tun.value)|, w) else old(sender.Waiting())
      ensures (tun.Some? ==> |tun.value| <= 999) && !w.Failed? ==> ok
    {
      ok := true;
      pacer.CheckDelay(c.now);
      tunRead := ready && pacer.delaymsec == 0;
      if tunRead {
        CapacityFromEmpty(tun.value);
        ok := TunToSerial(tun.value, c, w);
      }
    }

    // The receive half of a turn. `asked`: the tun device is in the set. The frames that the bytes bring to an end are
    // handled in order; the replies to them are counted.
    method Hear(readable: Maybe<seq<byte>>, linux: bool) returns (ok: bool, asked: bool, replies: nat)
      requires sender.Valid() && Hears() && (readable.Some? && linux ==> readable.value != [])
      modifies sender.Footprint(), EarFootprint()
      ensures receiver.Valid() && receiver.View() == Heard(old(receiver.View()), readable)
      ensures old(receiver.memory) <= receiver.memory
      ensures replies == Requests(
        Reactions(receiver.memory[|old(receiver.memory)|..], NewFrames(old(receiver.View()), readable)))
      ensures ok ==> sender.Valid() && Hears() && old(sender.history) <= sender.history
      ensures ok ==> sender.queued == old(sender.queued) + Replies(addr, replies)
      ensures ok ==> (sender.Empty() <==> replies == 0 && old(sender.Empty()))
      ensures ok ==> sender.Waiting() == old(sender.Waiting()) + SizeOf(addr, replies)
      ensures asked == old(sender.Empty()) && (replies == 0 ==> ok)
    {
      var n := |receiver.frames|;
      ghost var before := receiver.frames;
      Listen(receiver, readable, linux);
      assert receiver.frames[..n] == before;
      ok, asked, replies := HandleHeard(n);
    }

    // The frames from the n-th on. Decoding has not touched the output buffer, so the
    // test made before select() comes out the same here.
    method HandleHeard(n: nat) returns (ok: bool, asked: bool, replies: nat)
      requires sender.Valid() && receiver.Valid() && receiver.inbuf != sender.port.slipBuf
      requires n <= |receiver.frames| && tunOut == ForwardedOf(receiver.frames[..n])
      modifies this`tunOut, sender.Footprint()
      ensures receiver.Valid() && receiver.View() == old(receiver.View())
      ensures replies == Requests(Reactions(receiver.memory[n..], receiver.frames[n..]))
      ensures ok ==> sender.Valid() && Hears() && old(sender.history) <= sender.history
      ensures ok ==> sender.queued == old(sender.queued) + Replies(addr, replies)
      ensures ok ==> (sender.Empty() <==> replies == 0 && old(sender.Empty()))
      ensures ok ==> sender.Waiting() == old(sender.Waiting()) + SizeOf(addr, replies)
      ensures asked == old(sender.Empty()) && (replies == 0 ==> ok)
    {
      asked := sender.SlipEmpty();
      var ms, fs := receiver.memory[n..], receiver.frames[n..];
      var rs := Reactions(ms, fs);
      replies := Requests(rs);
      ForwardedInTwo(receiver.frames, n, ms);
      ok := HandleAll(rs);
      StillHears();
    }

    // One turn of the main loop, with a packet possibly waiting on the tun device. It
    // answers every frame that asks for the prefix, and takes the packet exactly when
    // the buffer was empty, nothing was answered and the delay is over.
    method Turn(readable: Maybe<seq<byte>>, linux: bool, writable: bool,
                tun: Maybe<seq<byte>>, c: Clock, w0: WriteResult, w1: WriteResult)
      returns (ok: bool, replies: nat, flush: bool, tunRead: bool, ghost waiting: nat)
      requires Valid() && Hears() && (readable.Some? && linux ==> readable.value != [])
      requires InOrder(pacer.clock, c)
      modifies Footprint(), EarFootprint()
      ensures receiver.Valid() && receiver.View() == Heard(old(receiver.View()), readable)
      ensures old(receiver.memory) <= receiver.memory
      ensures replies == Requests(
        Reactions(receiver.memory[|old(receiver.memory)|..], NewFrames(old(receiver.View()), readable)))
      ensures ok ==> Valid() && Hears() && old(sender.history) <= sender.history
      ensures ok ==> (tunRead <==> tun.Some? && replies == 0 && old(sender.Empty()) && old(pacer.Over(c.now)))
      ensures ok ==> sender.queued == old(sender.queued) + Replies(addr, replies) + Taken(tunRead, tun)
      ensures ok ==> pacer.encoded == old(pacer.encoded) + if tunRead && pacer.basedelay != 0 then [c.encoding] else []
      ensures flush <==> writable && !old(sender.Empty())
      ensures ok ==> waiting == old(sender.Waiting()) + SizeOf(addr, replies)
      ensures ok ==> sender.Waiting() == AfterSend(waiting, flush, w0, Taken(tunRead, tun), w1)
      ensures replies == 0 && (tun.Some? ==> |tun.value| <= 999) && !w0.Failed? && !w1.Failed? ==> ok
    {
      tunRead, waiting := false, 0;
      var asked;
      ok, asked, replies := Hear(readable, linux);
      flush := writable && !asked;
      if !ok {
        return;
      }
      waiting := sender.Waiting();
      PacerUndisturbed(c.now);
      ok, tunRead := Send(asked, flush, tun, c, w0, w1);
    }

    twostate lemma PacerUndisturbed(now: Time)
      requires old(pacer.Valid()) && unchanged(pacer)
      ensures pacer.Valid() && pacer.clock == old(pacer.clock) && pacer.encoded == old(pacer.encoded)
      ensures pacer.Over(now) == old(pacer.Over(now))
    {
    }

    twostate lemma StillHears()
      requires old(receiver.Valid()) && unchanged(receiver, receiver.inbuf)
      ensures receiver.Valid() && receiver.View() == old(receiver.View())
    {
    }

    twostate lemma Undisturbed()
      requires old(Hears()) && unchanged(this, receiver, receiver.inbuf)
      ensures Hears() && receiver.View() == old(receiver.View()) && receiver.memory == old(receiver.memory)
    {
    }

    // What a turn does behind serial_to_tun, leaving the receive half alone; `asked`:
    // the tun device was in the set.
    method Send(asked: bool, flush: bool, tun: Maybe<seq<byte>>, c: Clock, w0: WriteResult, w1: WriteResult)
      returns (ok: bool, tunRead: bool)
      requires Valid() && Hears() && InOrder(pacer.clock, c) && (sender.Empty() ==> asked) && !(asked && flush)
      modifies Footprint()
      ensures Hears() && receiver.View() == old(receiver.View()) && receiver.memory == old(receiver.memory)
      ensures ok ==> Valid() && old(sender.history) <= sender.history
      ensures ok ==> (tunRead <==> tun.Some? && asked && old(sender.Empty()) && old(pacer.Over(c.now)))
      ensures ok ==> sender.queued == old(sender.queued) + Taken(tunRead, tun)
      ensures ok ==> pacer.encoded == old(pacer.encoded) + if tunRead && pacer.basedelay != 0 then [c.encoding] else []
      ensures ok ==> sender.Waiting() == AfterSend(old(sender.Waiting()), flush, w0, Taken(tunRead, tun), w1)
      ensures (tun.Some? ==> |tun.value| <= 999) && !w0.Failed? && !w1.Failed? ==> ok
    {
      ok, tunRead := true, false;
      if flush {
        ok := sender.Flush(w0);
      }
      if ok {
        var empty := sender.SlipEmpty();
        ok, tunRead := TakePacket(empty && asked && tun.Some?, tun, c, w1);
      }
      Undisturbed();
    }
  }

  lemma ForwardedInTwo(frames: seq<seq<byte>>, n: nat, ms: seq<seq<byte>>)
    requires n <= |frames| && AllHold(ms, frames[n..])
    ensures ForwardedOf(frames[..n]) + TunFrames(Reactions(ms, frames[n..])) == ForwardedOf(frames)
  {
    var fs := frames[n..];
    TunFramesAreForwarded(ms, fs);
    ForwardedConcat(frames[..n], fs);
    assert frames[..n] + fs == frames;
  }

  lemma AnswerOneMore(queued: seq<seq<byte>>, addr: Addr6, n: nat)
    ensures queued + Replies(addr, n) + [PrefixReply(addr)] == queued + Replies(addr, n + 1)
    ensures queued + Replies(addr, n) + [] == queued + Replies(addr, n)
  {
    ConcatAssoc(queued, Replies(addr, n), [PrefixReply(addr)]);
  }

  // What is left waiting after the flush, if there is one, or of the packet taken.
  function AfterSend(waiting: nat, flush: bool, w0: WriteResult, taken: seq<seq<byte>>, w1: WriteResult): nat {
    if taken != [] then LeftBy(|Encode(taken[0])|, w1)
    else if flush then LeftBy(waiting, w0)
    else waiting
  }

  function Taken(tunRead: bool, tun: Maybe<seq<byte>>): seq<seq<byte>> {
    if tunRead && tun.Some? then [tun.value] else []
  }

  // The theorems about runs hold of the gateway at any time, and its packets have
  // been encoded more than basedelay milliseconds apart.
  lemma Gateway6IsReached(g: Gateway6)
    requires g.Valid()
    ensures Reachable(g.sender.View()) && Conserved(g.sender.View())
    ensures g.sender.rx.frames <= NonEmpty(g.sender.queued) && g.sender.rx.drops == 0
    ensures Spaced(g.pacer.encoded, g.pacer.basedelay)
  {
    SenderIsReached(g.sender);
  }

  // At the other end of a line in any state it reaches, what a gateway has written to
  // its tun device is a prefix of the forwarded ones among the frames queued.
  lemma PeerWritesForwarded(l: Link, g: Gateway6)
    requires Reachable(l) && g.Hears() && g.receiver.frames == l.rx.frames
    ensures g.tunOut <= ForwardedOf(NonEmpty(l.queued))
  {
    DeliveredIsPrefixOfQueued(l);
    ForwardedPrefix(l.rx.frames, NonEmpty(l.queued));
  }

  lemma ForwardedPrefix(a: seq<seq<byte>>, b: seq<seq<byte>>)
    requires a <= b
    ensures ForwardedOf(a) <= ForwardedOf(b)
  {
    var rest := b[|a|..];
    assert a + rest == b;
    ForwardedConcat(a, rest);
  }
}
