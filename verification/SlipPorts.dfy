/** The 2000-byte output buffer in front of the serial descriptor. */
module SlipPorts {
  import opened Bytes
  import opened SlipCodec

  // The buffer as a value: data is slip_buf[..slip_end], of which the first
  // `begin` bytes have already been taken by the descriptor.
  datatype Port = Port(begin: nat, data: seq<byte>)

  const DRAINED: Port := Port(0, [])

  // What write(2) answered: a byte count, EAGAIN, or another error.
  datatype WriteResult = Wrote(n: nat) | Again | Failed

  ghost predicate Consistent(q: Port) {
    && q.begin <= |q.data| <= BUFFER_SIZE
    && (q.begin == |q.data| ==> q == DRAINED)
  }

  function Pending(q: Port): seq<byte>
    requires Consistent(q)
  {
    q.data[q.begin..]
  }

  predicate Fits(q: Port, bs: seq<byte>) {
    |q.data| + |bs| <= BUFFER_SIZE
  }

  // Sending bs one byte at a time; whatever does not fit is never stored.
  function Pushed(q: Port, bs: seq<byte>): Port {
    var all := q.data + bs;
    q.(data := if |all| <= BUFFER_SIZE then all else all[..BUFFER_SIZE])
  }

  function Flushed(q: Port, r: WriteResult): Port {
    if !r.Wrote? || q.data == [] then q
    else if q.begin + r.n == |q.data| then DRAINED
    else q.(begin := q.begin + r.n)
  }

  lemma PushedTwice(q: Port, a: seq<byte>, b: seq<byte>)
    requires |q.data| <= BUFFER_SIZE
    ensures Pushed(Pushed(q, a), b) == Pushed(q, a + b)
    ensures !Fits(q, a) ==> Pushed(q, a + b) == Pushed(q, a)
  {
    assert q.data + a + b == q.data + (a + b);
  }

  lemma PendingAfterPush(q: Port, bs: seq<byte>)
    requires Consistent(q) && Fits(q, bs) && bs != []
    ensures Consistent(Pushed(q, bs)) && Pending(Pushed(q, bs)) == Pending(q) + bs
  {
  }

  // The overflow exit is taken exactly when the stuffed packet is too long; a
  // packet of at most 999 bytes always fits, and one that fits has at most 1999.
  lemma CapacityFromEmpty(p: seq<byte>)
    ensures Fits(DRAINED, Encode(p)) <==> |p| + Count(p, 0xC0) + Count(p, 0xDB) + 1 <= 2000
    ensures |p| <= 999 ==> Fits(DRAINED, Encode(p))
    ensures forall q: Port :: Fits(q, Encode(p)) ==> |p| <= 1999
  {
    EncodedLength(p);
  }

  class SlipPort {
    const slipBuf: array<byte>
    var slipBegin: nat
    var slipEnd: nat
    ghost var sent: seq<byte>     // every byte slip_send has accepted
    ghost var written: seq<byte>  // every byte the descriptor has taken

    ghost predicate Valid()
      reads this, slipBuf
    {
      && slipBuf.Length == BUFFER_SIZE
      && slipBegin <= slipEnd <= BUFFER_SIZE
      && (slipBegin == slipEnd ==> slipEnd == 0)
      && sent == written + slipBuf[slipBegin..slipEnd]
    }

    ghost function View(): (q: Port)
      reads this, slipBuf
      requires Valid()
      ensures Consistent(q) && sent == written + Pending(q)
    {
      assert slipBuf[..slipEnd][slipBegin..] == slipBuf[slipBegin..slipEnd];
      Port(slipBegin, slipBuf[..slipEnd])
    }

    constructor ()
      ensures Valid() && fresh(slipBuf) && View() == DRAINED && sent == [] && written == []
    {
      slipBuf := new byte[BUFFER_SIZE];
      slipBegin, slipEnd, sent, written := 0, 0, [], [];
    }

    method SlipSend(c: byte) returns (ok: bool)
      requires Valid()
      modifies this`slipEnd, this`sent, slipBuf
      ensures Valid() && written == old(written)
      ensures ok == Fits(old(View()), [c])
      ensures View() == Pushed(old(View()), [c])
      ensures sent == old(sent) + (if ok then [c] else [])
    {
      if slipEnd >= BUFFER_SIZE {
        return false;
      }
      slipBuf[slipEnd] := c;
      slipEnd := slipEnd + 1;
      sent := sent + [c];
      return true;
    }

    // The cheap test the main loop uses: nothing is waiting to be written.
    method SlipEmpty() returns (empty: bool)
      requires Valid()
      ensures empty <==> Pending(View()) == []
      ensures empty <==> sent == written
    {
      empty := slipEnd == 0;
    }

    method SlipSendChar(c: byte) returns (ok: bool)
      requires Valid()
      modifies this`slipEnd, this`sent, slipBuf
      ensures Valid() && written == old(written)
      ensures ok == Fits(old(View()), EscapeByte(c))
      ensures View() == Pushed(old(View()), EscapeByte(c))
    {
      ghost var q := View();
      if c == END || c == ESC {
        var e := if c == END then ESC_END else ESC_ESC;
        ok := SlipSend(ESC);
        PushedTwice(q, [ESC], [e]);
        assert [ESC] + [e] == EscapeByte(c);
        if ok {
          ok := SlipSend(e);
        }
      } else {
        ok := SlipSend(c);
      }
    }

    // One turn of the sending loops: q is the buffer before packet p, of which
    // i bytes have been sent.
    method SendNext(ghost q: Port, ghost p: seq<byte>, ghost i: nat, c: byte) returns (ok: bool)
      requires Valid() && i < |p| && c == p[i]
      requires |q.data| <= BUFFER_SIZE && Fits(q, Escape(p[..i])) && View() == Pushed(q, Escape(p[..i]))
      modifies this`slipEnd, this`sent, slipBuf
      ensures Valid() && written == old(written)
      ensures ok ==> Fits(q, Escape(p[..i + 1])) && View() == Pushed(q, Escape(p[..i + 1]))
      ensures !ok ==> !Fits(q, Encode(p)) && View() == Pushed(q, Encode(p))
    {
      PushNext(q, p, i);
      ok := SlipSendChar(c);
      if !ok {
        OverflowIsFinal(q, p, i + 1);
      }
    }

    // Queues one packet, stuffed and ended by END; false is the overflow exit.
    method WriteToSerial(p: seq<byte>) returns (ok: bool)
      requires Valid()
      modifies this`slipEnd, this`sent, slipBuf
      ensures Valid() && written == old(written)
      ensures ok == Fits(old(View()), Encode(p))
      ensures View() == Pushed(old(View()), Encode(p))
      ensures ok ==> sent == old(sent) + Encode(p)
    {
      ghost var q, before := View(), written;
      ok := SendBody(p);
      if ok {
        PushEnd(q, p);
        ConcatAssoc(before, Pending(q), Encode(p));
        ok := SlipSend(END);
      }
    }

    // The loop over the bytes of the packet.
    method SendBody(p: seq<byte>) returns (ok: bool)
      requires Valid()
      modifies this`slipEnd, this`sent, slipBuf
      ensures Valid() && written == old(written)
      ensures ok ==> Fits(old(View()), Escape(p)) && View() == Pushed(old(View()), Escape(p))
      ensures !ok ==> !Fits(old(View()), Encode(p)) && View() == Pushed(old(View()), Encode(p))
    {
      ghost var q := View();
      for i := 0 to |p|
        invariant Valid() && written == old(written)
        invariant Fits(q, Escape(p[..i])) && View() == Pushed(q, Escape(p[..i]))
      {
        ok := SendNext(q, p, i, p[i]);
        if !ok {
          return;
        }
      }
      assert p[..|p|] == p;
      return true;
    }

    // One write(2) of the pending bytes; false is the write-error exit.
    method SlipFlushbuf(r: WriteResult) returns (ok: bool)
      requires Valid()
      requires r.Wrote? ==> r.n <= |Pending(View())|
      modifies this`slipBegin, this`slipEnd, this`written
      ensures Valid() && sent == old(sent)
      ensures ok == (old(slipEnd) == 0 || !r.Failed?)
      ensures View() == Flushed(old(View()), r)
      ensures written == old(written) + (if r.Wrote? then old(Pending(View()))[..r.n] else [])
    {
      if slipEnd == 0 {
        return true;
      }
      match r {
        case Failed => return false;
        case Again => return true;
        case Wrote(n) =>
          assert slipBuf[..slipEnd][slipBegin..][..n] == slipBuf[slipBegin..slipBegin + n];
          written := written + slipBuf[slipBegin..slipBegin + n];
          slipBegin := slipBegin + n;
          if slipBegin == slipEnd {
            slipBegin, slipEnd := 0, 0;
          }
          return true;
      }
    }
  }

  lemma PushNext(q: Port, p: seq<byte>, i: nat)
    requires |q.data| <= BUFFER_SIZE && i < |p| && Fits(q, Escape(p[..i]))
    ensures var q' := Pushed(q, Escape(p[..i]));
      && Pushed(q', EscapeByte(p[i])) == Pushed(q, Escape(p[..i + 1]))
      && (Fits(q', EscapeByte(p[i])) <==> Fits(q, Escape(p[..i + 1])))
  {
    assert p[..i + 1][..i] == p[..i];
    PushedTwice(q, Escape(p[..i]), EscapeByte(p[i]));
  }

  lemma PushEnd(q: Port, p: seq<byte>)
    requires Consistent(q) && Fits(q, Escape(p))
    ensures var q' := Pushed(q, Escape(p));
      && Pushed(q', [END]) == Pushed(q, Encode(p))
      && (Fits(q', [END]) <==> Fits(q, Encode(p)))
    ensures Fits(q, Encode(p)) ==>
      var q' := Pushed(q, Encode(p)); Consistent(q') && Pending(q') == Pending(q) + Encode(p)
  {
    PushedTwice(q, Escape(p), [END]);
    if Fits(q, Encode(p)) {
      PendingAfterPush(q, Encode(p));
    }
  }

  // Once a prefix of the stuffed packet has overflowed, the rest changes nothing.
  lemma {:induction false} OverflowIsFinal(q: Port, p: seq<byte>, i: nat)
    requires |q.data| <= BUFFER_SIZE && i <= |p| && !Fits(q, Escape(p[..i]))
    ensures !Fits(q, Encode(p)) && Pushed(q, Encode(p)) == Pushed(q, Escape(p[..i]))
    decreases |p| - i
  {
    if i == |p| {
      assert p[..i] == p;
      PushedTwice(q, Escape(p), [END]);
    } else {
      assert p[..i + 1][..i] == p[..i];
      PushedTwice(q, Escape(p[..i]), EscapeByte(p[i]));
      OverflowIsFinal(q, p, i + 1);
    }
  }
}
