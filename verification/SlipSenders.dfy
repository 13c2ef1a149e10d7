/** The sending half every gateway shares: the output buffer and the run it takes part in. */
module SlipSenders {
  import opened Bytes
  import opened SlipCodec
  import opened SlipPorts
  import opened SlipLink

  // How much of what is waiting is still waiting after a write.
  function LeftBy(waiting: nat, w: WriteResult): nat {
    if w.Wrote? && w.n < waiting then waiting - w.n
    else if w.Wrote? then 0
    else waiting
  }

  class Sender {
    const port: SlipPort
    ghost var queued: seq<seq<byte>>
    ghost var taken: nat             // the peer's side of the link
    ghost var rx: Decoder
    ghost var history: seq<Action>   // the run so far

    ghost function Footprint(): set<object> {
      {this, port, port.slipBuf}
    }

    ghost function View(): Link
      reads this, port, port.slipBuf
      requires port.Valid()
    {
      Link(port.View(), queued, port.written, taken, rx)
    }

    // Every state of a sender is the state of a run of the link.
    ghost predicate Valid()
      reads this, port, port.slipBuf
    {
      port.Valid() && Runs(START, history) == Some(View())
    }

    // Nothing is waiting to be written.
    ghost predicate Empty()
      reads this, port, port.slipBuf
      requires Valid()
    {
      View().port.data == []
    }

    // How many bytes are.
    ghost function Waiting(): (n: nat)
      reads this, port, port.slipBuf
      requires Valid()
      ensures n == 0 <==> Empty()
    {
      port.slipEnd - port.slipBegin
    }

    constructor ()
      ensures Valid() && fresh(Footprint()) && View() == START && history == []
      ensures port.View() == Port(0, [0xC0]) && Waiting() == 1
    {
      port := new SlipPort();
      queued, taken, rx, history := [], 0, IDLE, [];
      new;
      var ok := port.SlipSend(END);
      assert [] + [END] == [END];
    }

    method SlipEmpty() returns (empty: bool)
      requires Valid()
      ensures empty == Empty()
    {
      empty := port.SlipEmpty();
    }

    // Extends the run by a step that has just been taken.
    ghost method Record(a: Action)
      requires port.Valid() && Runs(START, history).Some?
      requires Next(Runs(START, history).value, a) == Some(View())
      modifies this`history
      ensures Valid() && history == old(history) + [a]
    {
      RunsSnoc(START, history, a);
      history := history + [a];
    }

    // Accounts for a control frame that has been sent byte by byte; l is the state
    // before it.
    ghost method RecordControl(l: Link, c: seq<byte>)
      requires port.Valid() && Runs(START, history) == Some(l)
      requires Fits(l.port, Encode(c))
      requires View() == l.(port := Pushed(l.port, Encode(c)))
      modifies this`history, this`queued
      ensures Valid() && history == old(history) + [Control(c)] && queued == old(queued) + [c]
      ensures Waiting() == |l.port.data| - l.port.begin + |Encode(c)|
    {
      queued := queued + [c];
      Record(Control(c));
      RunsConserve(old(history));
      PendingAfterPush(l.port, Encode(c));
    }

    // A frame sent whatever is waiting; false is the overflow exit.
    method SendControl(c: seq<byte>) returns (ok: bool)
      requires Valid()
      modifies Footprint()
      ensures ok <==> Fits(old(port.View()), Encode(c))
      ensures ok ==> Valid() && Waiting() == old(Waiting()) + |Encode(c)| > 0 && port.written == old(port.written)
      ensures ok ==> history == old(history) + [Control(c)] && queued == old(queued) + [c]
    {
      ghost var l := View();
      ok := port.WriteToSerial(c);
      if ok {
        RecordControl(l, c);
      }
    }

    // A packet sent with the buffer empty; false is the overflow exit.
    method SendPacket(p: seq<byte>) returns (ok: bool)
      requires Valid() && Empty()
      modifies Footprint()
      ensures ok <==> Fits(DRAINED, Encode(p))
      ensures ok ==> Valid() && history == old(history) + [Packet(p)] && queued == old(queued) + [p]
      ensures ok ==> Waiting() == |Encode(p)| && port.written == old(port.written)
    {
      ok := port.WriteToSerial(p);
      if ok {
        queued := queued + [p];
        Record(Packet(p));
      }
    }

    // slip_flushbuf; a write result of n stands for a descriptor that takes at
    // most n bytes. False is the write-error exit.
    method Flush(w: WriteResult) returns (ok: bool)
      requires Valid()
      modifies Footprint()
      ensures ok <==> old(Empty()) || !w.Failed?
      ensures ok ==> Valid() && queued == old(queued)
      ensures ok ==> old(history) <= history && |history| == |old(history)| + 1
      ensures ok ==> history[|old(history)|].Write? && Waiting() == LeftBy(old(Waiting()), w)
      ensures ok ==> (
        var q := old(Pending(port.View()));
        port.written == old(port.written) + if !w.Wrote? then [] else if w.n < |q| then q[..w.n] else q)
    {
      ghost var l := View();
      var room := port.slipEnd - port.slipBegin;
      var r := if w.Wrote? && w.n > room then Wrote(room) else w;
      ghost var out := if r.Wrote? then Pending(l.port)[..r.n] else [];
      ok := port.SlipFlushbuf(r);
      if ok {
        assert View() == l.(port := Flushed(l.port, r), wire := l.wire + out);
        FlushIsNext(l, r);
        Record(Write(r));
      }
    }

    // The peer's part of the run: k more bytes of what has been written are read in
    // one call of its serial_to_tun.
    ghost method PeerReads(k: nat)
      requires Valid() && k > 0 && taken + k <= |port.written|
      modifies this`taken, this`rx, this`history
      ensures Valid() && history == old(history) + [Chunk(k)]
      ensures rx == Run(old(rx), port.written[old(taken)..taken]) && taken == old(taken) + k
    {
      ghost var l, chunk := View(), port.written[taken..taken + k];
      CallIsRun(rx, chunk);
      rx, taken := Call(rx, chunk), taken + k;
      assert View() == l.(rx := Call(l.rx, chunk), taken := l.taken + k);
      assert Next(l, Chunk(k)) == Some(View());
      Record(Chunk(k));
    }
  }

  // So the theorems about runs hold of a sender and its peer at any time.
  lemma SenderIsReached(s: Sender)
    requires s.Valid()
    ensures Reachable(s.View()) && Conserved(s.View())
    ensures s.rx.frames <= NonEmpty(s.queued) && s.rx.drops == 0
    ensures var line := [0xC0] + EncodeAll(s.queued);
      && |s.port.written| + s.Waiting() == |line| && s.port.written <= line
  {
    assert Runs(START, s.history) == Some(s.View());
    ReachableIsConserved(s.View());
    DeliveredIsPrefixOfQueued(s.View());
  }
}
