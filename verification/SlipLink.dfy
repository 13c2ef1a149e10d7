/** The link as a state machine: one sender, its descriptor, and the peer's decoder. */
module SlipLink {
  import opened Bytes
  import opened SlipCodec
  import opened SlipPorts

  datatype Action =
    | Packet(p: seq<byte>)   // a packet is taken, only when slip_empty() holds
    | Control(c: seq<byte>)  // "?IPA" or a "?P" reply, at any time
    | Write(r: WriteResult)  // slip_flushbuf
    | Chunk(k: nat)          // the peer reads k more bytes in one serial_to_tun call

  datatype Link = Link(
    port: Port,
    queued: seq<seq<byte>>,  // the frames queued so far
    wire: seq<byte>,         // the bytes the descriptor has taken so far
    taken: nat,              // how many of them the peer has read
    rx: Decoder
  )

  // main() sends one END before it enters its loop.
  const START: Link := Link(Port(0, [END]), [], [], 0, IDLE)

  function Queue(l: Link, p: seq<byte>): Maybe<Link> {
    if Fits(l.port, Encode(p))
    then Some(l.(port := Pushed(l.port, Encode(p)), queued := l.queued + [p]))
    else None
  }

  // None: the guard does not hold, or the process exits.
  function Next(l: Link, a: Action): Maybe<Link> {
    match a
    case Packet(p) => if l.port.data == [] then Queue(l, p) else None
    case Control(c) => Queue(l, c)
    case Write(r) =>
      if l.port.data == [] || r.Again? then Some(l)
      else if r.Failed? || |l.port.data| < l.port.begin + r.n then None
      else Some(l.(port := Flushed(l.port, r),
                   wire := l.wire + l.port.data[l.port.begin..l.port.begin + r.n]))
    case Chunk(k) =>
      if k == 0 || |l.wire| < l.taken + k then None
      else Some(l.(rx := Call(l.rx, l.wire[l.taken..l.taken + k]), taken := l.taken + k))
  }

  lemma FlushIsNext(l: Link, r: WriteResult)
    requires Consistent(l.port) && (l.port.data == [] || !r.Failed?)
    requires r.Wrote? ==> r.n <= |Pending(l.port)|
    ensures Next(l, Write(r)) == Some(l.(
      port := Flushed(l.port, r),
      wire := l.wire + (if r.Wrote? then Pending(l.port)[..r.n] else [])))
  {
    if r.Wrote? {
      assert Pending(l.port)[..r.n] == l.port.data[l.port.begin..l.port.begin + r.n];
    }
    assert l.wire + [] == l.wire;
  }

  function Runs(l: Link, acts: seq<Action>): Maybe<Link> {
    if acts == [] then Some(l)
    else match Runs(l, acts[..|acts| - 1])
      case None => None
      case Some(l') => Next(l', acts[|acts| - 1])
  }

  // ---------- What every step keeps ----------

  // What has been written and what is pending make up the frames queued.
  ghost predicate LineHolds(port: Port, queued: seq<seq<byte>>, wire: seq<byte>) {
    && Consistent(port)
    && wire + Pending(port) == [END] + EncodeAll(queued)
    && forall p :: p in queued ==> |p| < BUFFER_SIZE
  }

  // The peer is the decoder of the bytes it has read.
  ghost predicate Decoded(wire: seq<byte>, taken: nat, rx: Decoder) {
    taken <= |wire| && rx == Run(IDLE, wire[..taken])
  }

  ghost predicate Conserved(l: Link) {
    LineHolds(l.port, l.queued, l.wire) && Decoded(l.wire, l.taken, l.rx)
  }

  lemma QueueConserves(l: Link, p: seq<byte>)
    requires Conserved(l) && Queue(l, p).Some?
    ensures Conserved(Queue(l, p).value)
  {
    CapacityFromEmpty(p);
    EncodeAllSnoc(l.queued, p);
    PendingAfterPush(l.port, Encode(p));
    Regroup(l.wire, Pending(l.port), EncodeAll(l.queued), Encode(p));
  }

  lemma EncodeAllSnoc(ps: seq<seq<byte>>, p: seq<byte>)
    ensures EncodeAll(ps + [p]) == EncodeAll(ps) + Encode(p)
  {
    assert (ps + [p])[..|ps|] == ps;
  }

  lemma Regroup(wire: seq<byte>, pending: seq<byte>, line: seq<byte>, more: seq<byte>)
    requires wire + pending == [END] + line
    ensures wire + (pending + more) == [END] + (line + more)
  {
    assert wire + (pending + more) == wire + pending + more;
  }

  lemma WriteMovesBytes(port: Port, queued: seq<seq<byte>>, wire: seq<byte>, n: nat)
    requires LineHolds(port, queued, wire) && port.data != [] && port.begin + n <= |port.data|
    ensures LineHolds(Flushed(port, Wrote(n)), queued, wire + port.data[port.begin..port.begin + n])
  {
    var sent, rest := port.data[port.begin..port.begin + n], Pending(Flushed(port, Wrote(n)));
    assert Pending(port) == sent + rest;
    ConcatAssoc(wire, sent, rest);
  }

  lemma WireGrows(wire: seq<byte>, more: seq<byte>, taken: nat, rx: Decoder)
    requires Decoded(wire, taken, rx)
    ensures Decoded(wire + more, taken, rx)
  {
    assert (wire + more)[..taken] == wire[..taken];
  }

  lemma PeerDecodes(wire: seq<byte>, taken: nat, rx: Decoder, k: nat)
    requires Decoded(wire, taken, rx) && taken + k <= |wire|
    ensures Decoded(wire, taken + k, Call(rx, wire[taken..taken + k]))
  {
    var chunk := wire[taken..taken + k];
    assert wire[..taken + k] == wire[..taken] + chunk;
    CallIsRun(rx, chunk);
    RunConcat(IDLE, wire[..taken], chunk);
  }

  lemma PacketConserves(l: Link, p: seq<byte>)
    requires Conserved(l) && Next(l, Packet(p)).Some?
    ensures Conserved(Next(l, Packet(p)).value)
  {
    QueueConserves(l, p);
  }

  lemma ControlConserves(l: Link, c: seq<byte>)
    requires Conserved(l) && Next(l, Control(c)).Some?
    ensures Conserved(Next(l, Control(c)).value)
  {
    QueueConserves(l, c);
  }

  lemma WriteConserves(l: Link, n: nat)
    requires Conserved(l) && l.port.data != [] && l.port.begin + n <= |l.port.data|
    ensures Conserved(l.(port := Flushed(l.port, Wrote(n)),
                         wire := l.wire + l.port.data[l.port.begin..l.port.begin + n]))
  {
    WriteMovesBytes(l.port, l.queued, l.wire, n);
    WireGrows(l.wire, l.port.data[l.port.begin..l.port.begin + n], l.taken, l.rx);
  }

  lemma FlushConserves(l: Link, r: WriteResult)
    requires Conserved(l) && Next(l, Write(r)).Some?
    ensures Conserved(Next(l, Write(r)).value)
  {
    if l.port.data == [] || r.Again? {
      assert Next(l, Write(r)) == Some(l);
    } else {
      WriteConserves(l, r.n);
    }
  }

  lemma ReadConserves(l: Link, k: nat)
    requires Conserved(l) && Next(l, Chunk(k)).Some?
    ensures Conserved(Next(l, Chunk(k)).value)
  {
    PeerDecodes(l.wire, l.taken, l.rx, k);
  }

  lemma NextConserves(l: Link, a: Action)
    requires Conserved(l) && Next(l, a).Some?
    ensures Conserved(Next(l, a).value)
  {
    match a {
      case Packet(p) => PacketConserves(l, p);
      case Control(c) => ControlConserves(l, c);
      case Write(r) => FlushConserves(l, r);
      case Chunk(k) => ReadConserves(l, k);
    }
  }

  lemma {:induction false} RunsConserve(acts: seq<Action>)
    requires Runs(START, acts).Some?
    ensures Conserved(Runs(START, acts).value)
  {
    if acts == [] {
      assert Pending(START.port) == [END];
      assert START.wire[..0] == [];
    } else {
      var front := acts[..|acts| - 1];
      RunsConserve(front);
      NextConserves(Runs(START, front).value, acts[|acts| - 1]);
    }
  }

  // ---------- End to end ----------

  lemma DecodeWholeLine(ps: seq<seq<byte>>)
    requires forall p :: p in ps ==> |p| < BUFFER_SIZE
    ensures Run(IDLE, [END] + EncodeAll(ps)) == Decoder([], false, NonEmpty(ps), 0)
  {
    RunConcat(IDLE, [END], EncodeAll(ps));
    RunSnoc(IDLE, [], END);
    assert [] + [END] == [END];
    RoundTripAll(ps);
  }

  lemma DecodePartOfLine(seen: seq<byte>, rest: seq<byte>, ps: seq<seq<byte>>)
    requires forall p :: p in ps ==> |p| < BUFFER_SIZE
    requires seen + rest == [END] + EncodeAll(ps)
    ensures Run(IDLE, seen).frames <= NonEmpty(ps) && Run(IDLE, seen).drops == 0
  {
    DecodeWholeLine(ps);
    RunConcat(IDLE, seen, rest);
    RunMonotone(Run(IDLE, seen), rest);
  }

  // The states of all runs.
  ghost predicate Reachable(l: Link) {
    exists acts :: Runs(START, acts) == Some(l)
  }

  lemma ReachableIsConserved(l: Link)
    requires Reachable(l)
    ensures Conserved(l)
  {
    var acts :| Runs(START, acts) == Some(l);
    RunsConserve(acts);
  }

  lemma CutWire(wire: seq<byte>, k: nat, pending: seq<byte>)
    requires k <= |wire|
    ensures wire[..k] + (wire[k..] + pending) == wire + pending
  {
    assert wire[..k] + wire[k..] == wire;
    ConcatAssoc(wire[..k], wire[k..], pending);
  }

  lemma DecodeSoFar(wire: seq<byte>, k: nat, pending: seq<byte>, ps: seq<seq<byte>>)
    requires k <= |wire| && wire + pending == [END] + EncodeAll(ps)
    requires forall p :: p in ps ==> |p| < BUFFER_SIZE
    ensures Run(IDLE, wire[..k]).frames <= NonEmpty(ps) && Run(IDLE, wire[..k]).drops == 0
  {
    CutWire(wire, k, pending);
    DecodePartOfLine(wire[..k], wire[k..] + pending, ps);
  }

  // In every reachable state, what the peer has been delivered is a prefix of what
  // was queued (empty packets excepted), and no buffer was ever discarded. No bound
  // on the packets is assumed: a packet too long for the peer does not fit in the
  // sender's buffer either.
  lemma DeliveredIsPrefixOfQueued(l: Link)
    requires Reachable(l)
    ensures l.rx.frames <= NonEmpty(l.queued) && l.rx.drops == 0
  {
    ReachableIsConserved(l);
    DecodeSoFar(l.wire, l.taken, Pending(l.port), l.queued);
  }

  // When the buffer is empty and the wire has been read, nothing is missing.
  lemma EverythingArrives(l: Link)
    requires Reachable(l) && l.port.data == [] && l.taken == |l.wire|
    ensures l.rx == Decoder([], false, NonEmpty(l.queued), 0)
  {
    ReachableIsConserved(l);
    assert l.wire[..l.taken] == l.wire + Pending(l.port);
    DecodeWholeLine(l.queued);
  }

  // The buffer is never full when a packet may be taken: whether the overflow
  // exit follows depends on that packet alone, and 999 bytes are always safe.
  lemma PacketOverflow(l: Link, p: seq<byte>)
    requires Reachable(l) && l.port.data == []
    ensures Next(l, Packet(p)).Some? <==> |p| + Count(p, 0xC0) + Count(p, 0xDB) + 1 <= 2000
    ensures |p| <= 999 ==> Next(l, Packet(p)).Some?
  {
    ReachableIsConserved(l);
    assert l.port == DRAINED;
    CapacityFromEmpty(p);
  }

  // ---------- Runs, step by step ----------

  lemma RunsSnoc(l: Link, acts: seq<Action>, a: Action)
    requires Runs(l, acts).Some?
    ensures Runs(l, acts + [a]) == Next(Runs(l, acts).value, a)
  {
    assert (acts + [a])[..|acts|] == acts;
  }

  lemma {:induction false} QueuedWereActions(acts: seq<Action>)
    requires Runs(START, acts).Some?
    ensures forall q :: q in Runs(START, acts).value.queued ==> Packet(q) in acts || Control(q) in acts
  {
    if acts != [] {
      QueuedWereActions(acts[..|acts| - 1]);
    }
  }

  lemma {:induction false} NonEmptyIsSubset(ps: seq<seq<byte>>)
    ensures forall p :: p in NonEmpty(ps) ==> p in ps
  {
    if ps != [] {
      NonEmptyIsSubset(ps[..|ps| - 1]);
    }
  }
}
