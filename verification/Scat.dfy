/** The stand-alone SLIP dumper: nested read-ahead loops instead of one resumable loop. */
module Scat {
  import opened Bytes
  import opened SlipCodec

  // Everything a decoder has received, delivered or not, as one byte string.
  function Received(d: Decoder): seq<byte> {
    Flatten(d.frames) + d.partial
  }

  // The dumper's output: each stored byte, whatever frame it belongs to.
  datatype Dump = Dump(esc: bool, out: seq<byte>)

  function DumpStep(d: Dump, c: byte): Dump {
    if d.esc then Dump(false, d.out + [Unescape(c)])
    else if c == END then d
    else if c == ESC then Dump(true, d.out)
    else Dump(false, d.out + [c])
  }

  function DumpAll(s: seq<byte>): Dump {
    if s == [] then Dump(false, []) else DumpStep(DumpAll(s[..|s| - 1]), s[|s| - 1])
  }

  lemma DumpSnoc(s: seq<byte>, i: nat)
    requires i < |s|
    ensures DumpAll(s[..i + 1]) == DumpStep(DumpAll(s[..i]), s[i])
  {
    assert s[..i + 1][..i] == s[..i];
  }

  // Reads the stream to its end, where the original takes its error exit.
  method Scat(inslip: seq<byte>) returns (out: seq<byte>)
    ensures out == DumpAll(inslip).out
  {
    out := [];
    var i := 0;
    assert inslip[..|inslip|] == inslip;
    while true
      invariant i <= |inslip| && DumpAll(inslip[..i]) == Dump(false, out)
      decreases |inslip| - i
    {
      // c is inslip[i]; running off the end stands for EOF.
      while i < |inslip| && inslip[i] == END
        invariant i <= |inslip| && DumpAll(inslip[..i]) == Dump(false, out)
      {
        DumpSnoc(inslip, i);
        i := i + 1;
      }
      var more := true;
      while more
        invariant i <= |inslip| && DumpAll(inslip[..i]) == Dump(false, out)
        invariant more ==> i < |inslip| ==> inslip[i] != END
        invariant !more ==> i < |inslip| && inslip[i] == END
        decreases |inslip| - i, more
      {
        if i == |inslip| {
          return;
        }
        var c := inslip[i];
        DumpSnoc(inslip, i);
        i := i + 1;
        if c == ESC {
          if i == |inslip| {
            return;
          }
          c := Unescape(inslip[i]);
          DumpSnoc(inslip, i);
          i := i + 1;
        }
        out := out + [c];
        more := i == |inslip| || inslip[i] != END;
      }
      DumpSnoc(inslip, i);
      i := i + 1;
    }
  }

  lemma FlattenSnoc(fs: seq<seq<byte>>, f: seq<byte>)
    ensures Flatten(fs + [f]) == Flatten(fs) + f
  {
    assert (fs + [f])[..|fs|] == fs;
  }

  ghost predicate InStep(u: Dump, d: Decoder) {
    && u.esc == d.esc
    && |d.partial| < BUFFER_SIZE
    && |u.out| == |Received(d)| + BUFFER_SIZE * d.drops
    && (d.drops == 0 ==> u.out == Received(d))
  }

  // Storing a byte: it is one more on both sides, or the last of a discarded buffer.
  lemma StoresStayInStep(u: Dump, d: Decoder, c: byte)
    requires InStep(u, d)
    ensures InStep(Dump(false, u.out + [c]), Store(d, c))
  {
    ConcatAssoc(Flatten(d.frames), d.partial, [c]);
    assert Flatten(d.frames) + [] == Flatten(d.frames);
  }

  lemma EndsStayInStep(u: Dump, d: Decoder)
    requires InStep(u, d)
    ensures InStep(u, if d.partial == [] then d else d.(partial := [], frames := d.frames + [d.partial]))
  {
    FlattenSnoc(d.frames, d.partial);
    assert Received(d) + [] == Received(d);
  }

  lemma StepsStayInStep(u: Dump, d: Decoder, c: byte)
    requires InStep(u, d)
    ensures InStep(DumpStep(u, c), Step(d, c))
  {
    if d.esc {
      StoresStayInStep(u, d, Unescape(c));
    } else if c == END {
      EndsStayInStep(u, d);
    } else if c != ESC {
      StoresStayInStep(u, d, c);
    }
  }

  // While the decoder has not discarded a full buffer, both tools hold the same
  // bytes; afterwards the dumper is ahead by 2000 bytes per discarded buffer.
  lemma {:induction false} Agreement(s: seq<byte>)
    ensures InStep(DumpAll(s), Run(IDLE, s))
  {
    if s != [] {
      Agreement(s[..|s| - 1]);
      StepsStayInStep(DumpAll(s[..|s| - 1]), Run(IDLE, s[..|s| - 1]), s[|s| - 1]);
    }
  }

  // ---------- When they agree, told from the stream ----------

  // How many bytes have been stored since the last END that was not escaped.
  function Tail(s: seq<byte>): nat {
    if s == [] then 0
    else
      var front, c := s[..|s| - 1], s[|s| - 1];
      if DumpAll(front).esc then Tail(front) + 1
      else if c == END then 0
      else if c == ESC then Tail(front)
      else Tail(front) + 1
  }

  // No frame in the stream reaches 2000 bytes.
  ghost predicate Short(s: seq<byte>) {
    forall k :: 0 <= k <= |s| ==> Tail(s[..k]) < 2000
  }

  lemma ShortSnoc(s: seq<byte>)
    requires s != []
    ensures Short(s) <==> Short(s[..|s| - 1]) && Tail(s) < BUFFER_SIZE
  {
    var front := s[..|s| - 1];
    assert s[..|s|] == s;
    assert forall k :: 0 <= k <= |front| ==> front[..k] == s[..k];
    if Short(front) && Tail(s) < BUFFER_SIZE {
      forall k | 0 <= k <= |s| ensures Tail(s[..k]) < BUFFER_SIZE {
        if k < |s| {
          assert s[..k] == front[..k];
        }
      }
    }
  }

  lemma {:induction false} DropsIffLong(s: seq<byte>)
    ensures Run(IDLE, s).drops == 0 <==> Short(s)
    ensures Run(IDLE, s).drops == 0 ==> |Run(IDLE, s).partial| == Tail(s)
  {
    if s != [] {
      var front := s[..|s| - 1];
      DropsIffLong(front);
      Agreement(front);
      ShortSnoc(s);
    }
  }

  // The two decoders agree on a stream exactly when none of its frames reaches
  // 2000 decoded bytes.
  lemma AgreementExactly(s: seq<byte>)
    ensures DumpAll(s).out == Received(Run(IDLE, s)) <==> Short(s)
  {
    Agreement(s);
    DropsIffLong(s);
  }

  // A stream on which they differ: 2000 ordinary bytes.
  lemma LongStreamDisagrees()
    ensures var s := seq(2000, _ => 0x41); !Short(s) && DumpAll(s).out != Received(Run(IDLE, s))
  {
    var s := seq(2000, _ => 0x41);
    assert s[..|s|] == s;
    OrdinaryTail(s);
    AgreementExactly(s);
  }

  lemma {:induction false} OrdinaryTail(s: seq<byte>)
    requires forall i :: 0 <= i < |s| ==> s[i] == 0x41
    ensures Tail(s) == |s| && !DumpAll(s).esc
  {
    if s != [] {
      OrdinaryTail(s[..|s| - 1]);
    }
  }
}
