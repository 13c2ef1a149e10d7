/** The resumable decoder loop of serial_to_tun over a stdio stream. */
module SlipReceivers {
  import opened Bytes
  import opened SlipCodec

  // Text that the tools print instead of forwarding; the first byte is not looked at.
  predicate SensibleString(m: seq<byte>, n: nat)
    requires n <= |m|
  {
    forall i :: 1 <= i < n ==> m[i] in {0, 9, 10, 13} || 32 <= m[i] <= 126
  }

  // m is the receive buffer at the end of frame f.
  predicate Holds(m: seq<byte>, f: seq<byte>) {
    f != [] && |f| <= |m| == BUFFER_SIZE && m[..|f|] == f
  }

  predicate AllHold(ms: seq<seq<byte>>, fs: seq<seq<byte>>) {
    |ms| == |fs| && forall i :: 0 <= i < |fs| ==> Holds(ms[i], fs[i])
  }

  class SlipReceiver {
    const inbuf: array<byte>
    var inbufptr: nat
    var inslip: seq<byte>             // bytes the stream can still give
    var frames: seq<seq<byte>>        // what the END branch has been handed
    var memory: seq<seq<byte>>        // the whole buffer each time, stale bytes included
    ghost var drops: nat

    // Between two calls: room for one more byte, and at most a dangling ESC.
    ghost predicate Valid()
      reads this, inbuf
    {
      && inbuf.Length == BUFFER_SIZE && inbufptr < BUFFER_SIZE && (inslip == [] || inslip == [ESC])
      && AllHold(memory, frames)
    }

    ghost function View(): Decoder
      reads this, inbuf
      requires Valid()
    {
      Decoder(inbuf[..inbufptr], inslip == [ESC], frames, drops)
    }

    constructor ()
      ensures Valid() && fresh(inbuf) && View() == IDLE
    {
      inbuf := new byte[BUFFER_SIZE];
      inbufptr, inslip, frames, memory, drops := 0, [], [], [], 0;
    }

    // The state inside the loop: a full buffer is about to be discarded by the
    // bound check that precedes the next read.
    ghost function Loop(): Decoder
      reads this, inbuf
      requires inbuf.Length == BUFFER_SIZE && inbufptr <= BUFFER_SIZE
    {
      if inbufptr == BUFFER_SIZE then Decoder([], false, frames, drops + 1)
      else Decoder(inbuf[..inbufptr], false, frames, drops)
    }

    method Getc() returns (ret: nat, c: byte)
      modifies this`inslip
      ensures ret == 0 <==> old(inslip) == []
      ensures ret == 0 ==> inslip == []
      ensures ret != 0 ==> ret == 1 && old(inslip) == [c] + inslip
    {
      if inslip == [] {
        ret, c := 0, 0;
      } else {
        ret, c, inslip := 1, inslip[0], inslip[1..];
      }
    }

    // The END branch: a non-empty frame goes to the handler.
    method EndOfFrame()
      requires inbuf.Length == BUFFER_SIZE && inbufptr < BUFFER_SIZE && AllHold(memory, frames)
      modifies this`inbufptr, this`frames, this`memory
      ensures inbufptr == 0 && Loop() == Step(old(Loop()), END)
      ensures AllHold(memory, frames) && old(memory) <= memory
    {
      if inbufptr > 0 {
        assert inbuf[..][..inbufptr] == inbuf[..inbufptr];
        frames, memory := frames + [inbuf[..inbufptr]], memory + [inbuf[..]];
        inbufptr := 0;
      }
    }

    method StoreByte(c: byte)
      requires inbuf.Length == BUFFER_SIZE && inbufptr < BUFFER_SIZE
      modifies this`inbufptr, inbuf
      ensures inbufptr <= BUFFER_SIZE && Loop() == Store(old(Loop()), c)
    {
      inbuf[inbufptr] := c;
      inbufptr := inbufptr + 1;
      assert inbuf[..inbufptr] == old(inbuf[..inbufptr]) + [c];
    }

    // One turn from read_more on: the bound check (skipped when afterFread), then a
    // byte and, behind ESC, its companion. False when the stream gives no more; an
    // ESC without companion is put back. `eaten` is what was read for good.
    method ReadOne(afterFread: bool) returns (more: bool, ghost eaten: seq<byte>)
      requires inbuf.Length == BUFFER_SIZE && inbufptr <= BUFFER_SIZE && AllHold(memory, frames)
      requires afterFread ==> inbufptr < BUFFER_SIZE
      modifies this, inbuf
      ensures inbufptr <= BUFFER_SIZE && AllHold(memory, frames) && old(memory) <= memory
      ensures more ==> eaten != [] && old(inslip) == eaten + inslip && Loop() == Run(old(Loop()), eaten)
      ensures !more ==> Valid() && View() == Run(old(Loop()), old(inslip))
    {
      ghost var d := Loop();
      if !afterFread && inbufptr >= BUFFER_SIZE {
        inbufptr := 0;
        drops := drops + 1;
      }
      eaten := [];
      var ret, c := Getc();
      if ret == 0 {
        return false, [];
      }
      RunOne(d, c);
      eaten := [c];
      if c == END {
        EndOfFrame();
      } else {
        if c == ESC {
          ghost var pending := inslip;
          ret, c := Getc();
          if ret == 0 {
            assert old(inslip) == [ESC];
            inslip := [ESC];
            return false, [];
          }
          assert old(inslip) == [ESC] + pending == [ESC, c] + inslip;
          RunTwo(d, ESC, c);
          eaten := [ESC, c];
          c := Unescape(c);
        }
        StoreByte(c);
      }
      return true, eaten;
    }

    // The loop; afterFread is the entry that skips the first bound check.
    method ReadMore(afterFread: bool)
      requires inbuf.Length == BUFFER_SIZE && inbufptr < BUFFER_SIZE && AllHold(memory, frames)
      modifies this, inbuf
      ensures Valid() && old(memory) <= memory
      ensures View() == Run(old(Loop()), old(inslip))
    {
      ghost var start, input, done := Loop(), inslip, [];
      var more, skip := true, afterFread;
      while more
        invariant inbuf.Length == BUFFER_SIZE && inbufptr <= BUFFER_SIZE
        invariant AllHold(memory, frames) && old(memory) <= memory
        invariant skip ==> inbufptr < BUFFER_SIZE
        invariant more ==> done + inslip == input && Loop() == Run(start, done)
        invariant !more ==> Valid() && View() == Run(start, input)
        decreases more, |inslip|
      {
        ghost var left := inslip;
        ghost var eaten;
        more, eaten := ReadOne(skip);
        skip := false;
        if more {
          RunConcat(start, done, eaten);
          ConcatAssoc(done, eaten, inslip);
          done := done + eaten;
        } else {
          RunConcat(start, done, left);
        }
      }
    }

    // One call: `chunk` has become readable behind any byte pushed back before.
    // On Linux the first read is entered past the bound check, and reading
    // nothing there is the error exit (false).
    method SerialToTun(chunk: seq<byte>, linux: bool) returns (ok: bool)
      requires Valid()
      modifies this, inbuf
      ensures Valid() && old(memory) <= memory
      ensures !ok <==> linux && chunk == [] && !old(View()).esc
      ensures View() == Run(old(View()), chunk)
    {
      CallIsRun(View(), chunk);
      inslip := inslip + chunk;
      if linux && inslip == [] {
        return false;
      }
      ReadMore(linux);
      return true;
    }
  }

  // What is read in a turn, if anything, is decoded, and nothing else.
  function Heard(d: Decoder, readable: Maybe<seq<byte>>): Decoder {
    if readable.Some? then Run(d, readable.value) else d
  }

  lemma NothingIsTakenBack(d: Decoder, readable: Maybe<seq<byte>>)
    ensures d.frames <= Heard(d, readable).frames
  {
    if readable.Some? {
      RunMonotone(d, readable.value);
    }
  }

  // The frames delivered by the bytes that are read.
  function NewFrames(d: Decoder, readable: Maybe<seq<byte>>): seq<seq<byte>> {
    NothingIsTakenBack(d, readable);
    Heard(d, readable).frames[|d.frames|..]
  }

  // The descriptor may have been selected for reading.
  method Listen(receiver: SlipReceiver, readable: Maybe<seq<byte>>, linux: bool)
    requires receiver.Valid() && (readable.Some? && linux ==> readable.value != [])
    modifies receiver, receiver.inbuf
    ensures receiver.Valid() && receiver.View() == Heard(old(receiver.View()), readable)
    ensures old(receiver.frames) <= receiver.frames && old(receiver.memory) <= receiver.memory
  {
    NothingIsTakenBack(receiver.View(), readable);
    if readable.Some? {
      var ok := receiver.SerialToTun(readable.value, linux);
    }
  }
}
