/** The SLIP framing of write_to_serial and serial_to_tun, as functions on byte strings. */
module SlipCodec {
  import opened Bytes

  const END: byte := 0xC0
  const ESC: byte := 0xDB
  const ESC_END: byte := 0xDC
  const ESC_ESC: byte := 0xDD
  const BUFFER_SIZE: nat := 2000

  // ---------- The encoder ----------

  function EscapeByte(c: byte): seq<byte> {
    if c == END then [ESC, ESC_END] else if c == ESC then [ESC, ESC_ESC] else [c]
  }

  // Octet by octet, as "PROTOCOL" in RFC 1055 has it; after ESC any other octet is
  // taken as it stands.
  lemma OctetsMean(c: byte)
    ensures EscapeByte(c) == if c == 0xC0 then [0xDB, 0xDC] else if c == 0xDB then [0xDB, 0xDD] else [c]
    ensures Unescape(c) == if c == 0xDC then 0xC0 else if c == 0xDD then 0xDB else c
  {
  }

  // A packet goes out as its octets and one 0xC0.
  lemma {:induction false} EncodeMeans(p: seq<byte>, c: byte)
    ensures Encode([]) == [0xC0]
    ensures Encode(p + [c]) == Encode(p)[..|Encode(p)| - 1]
      + (if c == 0xC0 then [0xDB, 0xDC] else if c == 0xDB then [0xDB, 0xDD] else [c]) + [0xC0]
  {
    assert (p + [c])[..|p|] == p;
    assert Encode(p)[..|Encode(p)| - 1] == Escape(p);
  }

  // One octet read.
  lemma StepMeans(d: Decoder, c: byte)
    requires |d.partial| < 2000
    ensures var x := if !d.esc then c else if c == 0xDC then 0xC0 else if c == 0xDD then 0xDB else c;
      Step(d, c) ==
        if !d.esc && c == 0xC0 then
          (if d.partial == [] then d else Decoder([], false, d.frames + [d.partial], d.drops))
        else if !d.esc && c == 0xDB then Decoder(d.partial, true, d.frames, d.drops)
        else if |d.partial| == 1999 then Decoder([], false, d.frames, d.drops + 1)
        else Decoder(d.partial + [x], false, d.frames, d.drops)
  {
  }

  function Escape(p: seq<byte>): seq<byte> {
    if p == [] then [] else Escape(p[..|p| - 1]) + EscapeByte(p[|p| - 1])
  }

  function Encode(p: seq<byte>): seq<byte> {
    Escape(p) + [END]
  }

  // A line carrying several packets. The empty packet encodes to a lone END, so
  // lists with empty packets are lists with extra END bytes between frames.
  function EncodeAll(ps: seq<seq<byte>>): seq<byte> {
    if ps == [] then [] else EncodeAll(ps[..|ps| - 1]) + Encode(ps[|ps| - 1])
  }

  function NonEmpty(ps: seq<seq<byte>>): seq<seq<byte>> {
    if ps == [] then []
    else NonEmpty(ps[..|ps| - 1]) + (if ps[|ps| - 1] == [] then [] else [ps[|ps| - 1]])
  }

  // ---------- The decoder ----------

  // partial: the frame under construction; esc: an ESC has been read and its
  // companion has not; frames: everything delivered; drops: buffers discarded full.
  datatype Decoder = Decoder(partial: seq<byte>, esc: bool, frames: seq<seq<byte>>, drops: nat)

  const IDLE: Decoder := Decoder([], false, [], 0)

  function Unescape(c: byte): byte {
    if c == ESC_END then END else if c == ESC_ESC then ESC else c
  }

  function Store(d: Decoder, c: byte): Decoder {
    if |d.partial| + 1 >= BUFFER_SIZE
    then d.(partial := [], esc := false, drops := d.drops + 1)
    else d.(partial := d.partial + [c], esc := false)
  }

  function Step(d: Decoder, c: byte): Decoder {
    if d.esc then Store(d, Unescape(c))
    else if c == END then
      if d.partial == [] then d else d.(partial := [], frames := d.frames + [d.partial])
    else if c == ESC then d.(esc := true)
    else Store(d, c)
  }

  function Run(d: Decoder, s: seq<byte>): Decoder {
    if s == [] then d else Step(Run(d, s[..|s| - 1]), s[|s| - 1])
  }

  lemma {:induction false} RunConcat(d: Decoder, a: seq<byte>, b: seq<byte>)
    ensures Run(d, a + b) == Run(Run(d, a), b)
    decreases |b|
  {
    if b == [] {
      assert a + b == a;
    } else {
      assert (a + b)[..|a + b| - 1] == a + b[..|b| - 1];
      RunConcat(d, a, b[..|b| - 1]);
    }
  }

  lemma RunSnoc(d: Decoder, a: seq<byte>, c: byte)
    ensures Run(d, a + [c]) == Step(Run(d, a), c)
  {
    assert (a + [c])[..|a|] == a;
  }

  lemma RunOne(d: Decoder, c: byte)
    ensures Run(d, [c]) == Step(d, c)
  {
    assert [] + [c] == [c];
    RunSnoc(d, [], c);
  }

  lemma RunTwo(d: Decoder, c: byte, e: byte)
    ensures Run(d, [c, e]) == Step(Step(d, c), e)
  {
    assert [c] + [e] == [c, e];
    RunSnoc(d, [c], e);
    RunOne(d, c);
  }

  // Delivery only ever appends.
  lemma {:induction false} RunMonotone(d: Decoder, s: seq<byte>)
    ensures d.frames <= Run(d, s).frames && d.drops <= Run(d, s).drops
  {
    if s != [] {
      RunMonotone(d, s[..|s| - 1]);
    }
  }

  // A decoder holds fewer bytes than its buffer, for ever.
  lemma {:induction false} RunBounded(d: Decoder, s: seq<byte>)
    requires |d.partial| < BUFFER_SIZE
    ensures |Run(d, s).partial| < BUFFER_SIZE
  {
    if s != [] {
      RunBounded(d, s[..|s| - 1]);
    }
  }

  // ---------- Chunking ----------

  function Flatten(chunks: seq<seq<byte>>): seq<byte> {
    if chunks == [] then [] else Flatten(chunks[..|chunks| - 1]) + chunks[|chunks| - 1]
  }

  // One serial_to_tun call per chunk: a pending ESC is given back to the stream
  // at the end of a call and read again, before the next chunk, by the next call.
  function Call(d: Decoder, chunk: seq<byte>): Decoder {
    Run(d.(esc := false), (if d.esc then [ESC] else []) + chunk)
  }

  function Calls(d: Decoder, chunks: seq<seq<byte>>): Decoder {
    if chunks == [] then d else Call(Calls(d, chunks[..|chunks| - 1]), chunks[|chunks| - 1])
  }

  lemma CallIsRun(d: Decoder, chunk: seq<byte>)
    ensures Call(d, chunk) == Run(d, chunk)
  {
    if d.esc {
      RunConcat(d.(esc := false), [ESC], chunk);
      RunOne(d.(esc := false), ESC);
    } else {
      assert [] + chunk == chunk;
    }
  }

  // The frames delivered and the state carried over depend on the bytes only,
  // not on how they were cut into reads.
  lemma {:induction false} ChunkingIndependence(d: Decoder, chunks: seq<seq<byte>>)
    ensures Calls(d, chunks) == Run(d, Flatten(chunks))
  {
    if chunks != [] {
      var front, last := chunks[..|chunks| - 1], chunks[|chunks| - 1];
      ChunkingIndependence(d, front);
      CallIsRun(Calls(d, front), last);
      RunConcat(d, Flatten(front), last);
    }
  }

  // ---------- Round trip ----------

  // What is left in the receive buffer after x has been stored into it: the
  // buffer restarts each time it fills up.
  function Residue(x: seq<byte>): seq<byte> {
    x[|x| - |x| % BUFFER_SIZE..]
  }

  lemma StoreResidue(x: seq<byte>, c: byte, fs: seq<seq<byte>>)
    ensures Store(Decoder(Residue(x), false, fs, |x| / BUFFER_SIZE), c)
         == Decoder(Residue(x + [c]), false, fs, |x + [c]| / BUFFER_SIZE)
  {
    var n := |x|;
    if n % BUFFER_SIZE == BUFFER_SIZE - 1 {
      assert (n + 1) % BUFFER_SIZE == 0 && (n + 1) / BUFFER_SIZE == n / BUFFER_SIZE + 1;
    } else {
      assert (n + 1) % BUFFER_SIZE == n % BUFFER_SIZE + 1 && (n + 1) / BUFFER_SIZE == n / BUFFER_SIZE;
      assert (x + [c])[n - n % BUFFER_SIZE..] == x[n - n % BUFFER_SIZE..] + [c];
    }
  }

  lemma DecodeEscapedByte(d: Decoder, c: byte)
    requires !d.esc
    ensures Run(d, EscapeByte(c)) == Store(d, c)
  {
    if c == END || c == ESC {
      RunTwo(d, ESC, if c == END then ESC_END else ESC_ESC);
    } else {
      RunOne(d, c);
    }
  }

  lemma RunEscapedLast(d: Decoder, p: seq<byte>)
    requires p != [] && !Run(d, Escape(p[..|p| - 1])).esc
    ensures Run(d, Escape(p)) == Store(Run(d, Escape(p[..|p| - 1])), p[|p| - 1])
  {
    var front, c := p[..|p| - 1], p[|p| - 1];
    RunConcat(d, Escape(front), EscapeByte(c));
    DecodeEscapedByte(Run(d, Escape(front)), c);
  }

  lemma StoreLast(p: seq<byte>, fs: seq<seq<byte>>)
    requires p != []
    ensures var front := p[..|p| - 1];
      Store(Decoder(Residue(front), false, fs, |front| / BUFFER_SIZE), p[|p| - 1])
        == Decoder(Residue(p), false, fs, |p| / BUFFER_SIZE)
  {
    StoreResidue(p[..|p| - 1], p[|p| - 1], fs);
    assert p[..|p| - 1] + [p[|p| - 1]] == p;
  }

  lemma {:induction false} DecodeEscaped(p: seq<byte>, fs: seq<seq<byte>>)
    ensures Run(Decoder([], false, fs, 0), Escape(p))
         == Decoder(Residue(p), false, fs, |p| / BUFFER_SIZE)
  {
    if p != [] {
      DecodeEscaped(p[..|p| - 1], fs);
      RunEscapedLast(Decoder([], false, fs, 0), p);
      StoreLast(p, fs);
    }
  }

  lemma DecodeEncoded(p: seq<byte>, fs: seq<seq<byte>>)
    ensures Run(Decoder([], false, fs, 0), Encode(p))
         == Decoder([], false, fs + NonEmpty([Residue(p)]), |p| / BUFFER_SIZE)
  {
    DecodeEscaped(p, fs);
    RunSnoc(Decoder([], false, fs, 0), Escape(p), END);
    NonEmptyOne(Residue(p));
  }

  lemma ResidueIsWhole(p: seq<byte>)
    ensures Residue(p) == p <==> |p| < BUFFER_SIZE
  {
    assert |Residue(p)| == |p| % BUFFER_SIZE;
  }

  // Decoding one encoded packet gives that packet back exactly when it has
  // between 1 and 1999 bytes.
  lemma RoundTripExactly(p: seq<byte>)
    ensures Run(IDLE, Encode(p)).frames == [p] <==> 1 <= |p| <= 1999
  {
    DecodeEncoded(p, []);
    NonEmptyOne(Residue(p));
    ResidueIsWhole(p);
    var fs := NonEmpty([Residue(p)]);
    assert [] + fs == fs;
    if fs == [p] {
      assert fs[0] == p;
    }
  }

  // A packet that does not come back: of 2000 bytes, nothing is delivered.
  lemma FullBufferIsLost()
    ensures Run(IDLE, Encode(seq(2000, _ => 0x41))).frames == []
  {
    var p := seq(BUFFER_SIZE, _ => 0x41);
    DecodeEncoded(p, []);
    NonEmptyOne(Residue(p));
  }

  lemma NonEmptyOne(p: seq<byte>)
    ensures NonEmpty([p]) == if p == [] then [] else [p]
  {
    assert [p][..0] == [];
  }

  // Decoding a line of packets gives back the non-empty ones, in order, none
  // merged, split, altered or dropped.
  lemma {:induction false} RoundTripAll(ps: seq<seq<byte>>)
    requires forall p :: p in ps ==> |p| < BUFFER_SIZE
    ensures Run(IDLE, EncodeAll(ps)) == Decoder([], false, NonEmpty(ps), 0)
  {
    if ps != [] {
      var front, p := ps[..|ps| - 1], ps[|ps| - 1];
      RoundTripAll(front);
      RunConcat(IDLE, EncodeAll(front), Encode(p));
      DecodeEncoded(p, NonEmpty(front));
      ResidueIsWhole(p);
      NonEmptyOne(p);
    }
  }

  // An encoded body holds no bare END.
  lemma {:induction false} BodyHasNoEnd(p: seq<byte>)
    ensures END !in Escape(p)
  {
    if p != [] {
      BodyHasNoEnd(p[..|p| - 1]);
    }
  }

  // ---------- Size ----------

  function Count(p: seq<byte>, c: byte): nat {
    if p == [] then 0 else Count(p[..|p| - 1], c) + (if p[|p| - 1] == c then 1 else 0)
  }

  lemma {:induction false} EncodedLength(p: seq<byte>)
    ensures |Encode(p)| == |p| + Count(p, END) + Count(p, ESC) + 1
    ensures |p| + 1 <= |Encode(p)| <= 2 * |p| + 1
  {
    if p != [] {
      var front := p[..|p| - 1];
      EncodedLength(front);
    }
  }
}
