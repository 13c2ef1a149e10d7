/** serial_to_tun of the IPv4 gateway: what it does with the frames, in the order they end. */
module TunslipReceiver {
  import opened Bytes
  import opened PacketCheck
  import opened SlipCodec
  import opened SlipLink
  import opened SlipReceivers
  import opened Tunslip
  import opened DhcpRelay

  datatype Config = Config(dhcpOpen: bool, net: Addr, circuit: Addr, giaddr: Addr)

  // The commands run for announced addresses.
  datatype Route = DeleteRoute(ipa: Addr) | AddRoute(ipa: Addr)

  const NO_ADDRESS: Addr := [0, 0, 0, 0]

  // Everything the branch has done so far; ipa is the address last announced.
  datatype Effects = Effects(tunOut: seq<seq<byte>>, toServer: seq<seq<byte>>, ipa: Addr, routes: seq<Route>)

  const NOTHING_DONE: Effects := Effects([], [], NO_ADDRESS, [])

  // The fate of the n-byte frame in buffer m; None where check_ip would sum past it.
  function Fate(m: seq<byte>, n: nat, dhcpOpen: bool): Maybe<Delivery> {
    if n > 0 && Readable(m, n) then Some(Deliver(m, n, dhcpOpen)) else None
  }

  // A relayed frame is also written to the tun device, with no bytes of it left.
  function TunWrites(fate: Maybe<Delivery>): seq<seq<byte>> {
    match fate
    case Some(Tun(p)) => [p]
    case Some(Relayed) => [[]]
    case _ => []
  }

  // The option field of the message has room for the frame's and the relay's options.
  predicate Servable(n: nat) {
    IP_UDP_LEN + BASE_LEN < n && n - IP_UDP_LEN - BASE_LEN + 26 <= OPTIONS_SIZE
  }

  function ServerMessages(fate: Maybe<Delivery>, m: seq<byte>, n: nat, c: Config): seq<seq<byte>>
    requires n <= |m|
  {
    if fate == Some(Relayed) && Servable(n) && m[IP_UDP_LEN] == BOOTREQUEST
    then [MessageOf(m[..n], c.net, c.circuit, c.giaddr)]
    else []
  }

  // An announcement of the address already in force changes nothing.
  function RouteCommands(fate: Maybe<Delivery>, ipa: Addr): seq<Route> {
    match fate
    case Some(Address(now)) =>
      if now == ipa then []
      else (if ipa == NO_ADDRESS then [] else [DeleteRoute(ipa)]) + (if now == NO_ADDRESS then [] else [AddRoute(now)])
    case _ => []
  }

  function NextAddress(fate: Maybe<Delivery>, ipa: Addr): Addr {
    match fate
    case Some(Address(now)) => now
    case _ => ipa
  }

  function Effect(x: Effects, m: seq<byte>, n: nat, c: Config): Effects
    requires n <= |m|
  {
    var fate := Fate(m, n, c.dhcpOpen);
    Effects(x.tunOut + TunWrites(fate), x.toServer + ServerMessages(fate, m, n, c),
            NextAddress(fate, x.ipa), x.routes + RouteCommands(fate, x.ipa))
  }

  // The frames fs with the buffers they ended in, one after the other.
  function EffectsOf(ms: seq<seq<byte>>, fs: seq<seq<byte>>, c: Config): Effects
    requires AllHold(ms, fs)
  {
    if fs == [] then NOTHING_DONE
    else
      var last := |fs| - 1;
      Effect(EffectsOf(ms[..last], fs[..last], c), ms[last], |fs[last]|, c)
  }

  // trail[i] is what has been done after i frames.
  ghost predicate Step(trail: seq<Effects>, ms: seq<seq<byte>>, fs: seq<seq<byte>>, c: Config, i: nat)
    requires AllHold(ms, fs) && i < |fs| < |trail|
  {
    trail[i + 1] == Effect(trail[i], ms[i], |fs[i]|, c)
  }

  ghost predicate Trail(trail: seq<Effects>, ms: seq<seq<byte>>, fs: seq<seq<byte>>, c: Config)
    requires AllHold(ms, fs)
  {
    |trail| == |fs| + 1 && trail[0] == NOTHING_DONE && forall i :: 0 <= i < |fs| ==> Step(trail, ms, fs, c, i)
  }

  lemma TrailSnoc(trail: seq<Effects>, ms: seq<seq<byte>>, fs: seq<seq<byte>>, c: Config, i: nat)
    requires AllHold(ms, fs) && i < |fs| && Trail(trail, ms[..i], fs[..i], c)
    ensures Trail(trail + [Effect(trail[i], ms[i], |fs[i]|, c)], ms[..i + 1], fs[..i + 1], c)
  {
    var longer := trail + [Effect(trail[i], ms[i], |fs[i]|, c)];
    var ms', fs' := ms[..i + 1], fs[..i + 1];
    forall k | 0 <= k < i + 1 ensures Step(longer, ms', fs', c, k) {
      if k < i {
        assert Step(trail, ms[..i], fs[..i], c, k);
      }
    }
  }

  lemma ShorterTrail(trail: seq<Effects>, ms: seq<seq<byte>>, fs: seq<seq<byte>>, c: Config)
    requires AllHold(ms, fs) && fs != [] && Trail(trail, ms, fs, c)
    ensures Trail(trail[..|fs|], ms[..|fs| - 1], fs[..|fs| - 1], c)
  {
    var shorter, ms', fs' := trail[..|fs|], ms[..|fs| - 1], fs[..|fs| - 1];
    forall k | 0 <= k < |fs'| ensures Step(shorter, ms', fs', c, k) {
      assert Step(trail, ms, fs, c, k);
    }
  }

  lemma {:induction false} TrailIsEffects(trail: seq<Effects>, ms: seq<seq<byte>>, fs: seq<seq<byte>>, c: Config)
    requires AllHold(ms, fs) && Trail(trail, ms, fs, c)
    ensures trail[|fs|] == EffectsOf(ms, fs, c)
  {
    if fs != [] {
      var last := |fs| - 1;
      ShorterTrail(trail, ms, fs, c);
      TrailIsEffects(trail[..|fs|], ms[..last], fs[..last], c);
      assert Step(trail, ms, fs, c, last);
    }
  }

  class Receiver {
    const slip: SlipReceiver
    const config: Config
    var tunOut: seq<seq<byte>>
    var toServer: seq<seq<byte>>
    var ipa: Addr
    var routes: seq<Route>
    ghost var trail: seq<Effects>

    ghost function Footprint(): set<object> {
      {this, slip, slip.inbuf}
    }

    // What has been done was done frame by frame.
    ghost predicate Valid()
      reads this, slip, slip.inbuf
    {
      slip.Valid() && Trail(trail, slip.memory, slip.frames, config) && Done() == trail[|slip.frames|]
    }

    ghost function Done(): Effects
      reads this
    {
      Effects(tunOut, toServer, ipa, routes)
    }

    constructor (config: Config)
      ensures Valid() && fresh(Footprint()) && slip.View() == IDLE && this.config == config
    {
      this.config := config;
      tunOut, toServer, ipa, routes, trail := [], [], NO_ADDRESS, [], [NOTHING_DONE];
      slip := new SlipReceiver();
    }

    // The END branch behind check_ip.
    method Handle(m: seq<byte>, n: nat)
      requires n <= |m|
      modifies this`tunOut, this`toServer, this`ipa, this`routes
      ensures Done() == Effect(old(Done()), m, n, config)
    {
      var fate := Fate(m, n, config.dhcpOpen);
      match fate {
        case Some(Address(now)) =>
          if now != ipa {
            Reroute(now);
          }
        case Some(Relayed) =>
          if Servable(n) {
            Relay(m[..n]);
          }
          tunOut := tunOut + [[]];
        case Some(Tun(p)) =>
          tunOut := tunOut + [p];
        case _ =>
      }
    }

    method Reroute(now: Addr)
      requires now != ipa
      modifies this`ipa, this`routes
      ensures ipa == now && routes == old(routes) + RouteCommands(Some(Address(now)), old(ipa))
    {
      if ipa != NO_ADDRESS {
        routes := routes + [DeleteRoute(ipa)];
      }
      ipa := now;
      if ipa != NO_ADDRESS {
        routes := routes + [AddRoute(ipa)];
      }
    }

    method Relay(p: seq<byte>)
      requires Servable(|p|)
      modifies this`toServer
      ensures toServer == old(toServer)
        + if p[IP_UDP_LEN] == BOOTREQUEST then [MessageOf(p, config.net, config.circuit, config.giaddr)] else []
    {
      var packet := CopyOf(p);
      assert packet[..|p|] == p && packet[IP_UDP_LEN] == p[IP_UDP_LEN];
      var sent := RelayToServer(packet, |p|, config.net, config.circuit, config.giaddr);
      if sent.Some? {
        toServer := toServer + [sent.value];
      }
    }

    // The first i of these frames have been handled.
    ghost predicate Handled(ms: seq<seq<byte>>, fs: seq<seq<byte>>, i: nat)
      requires AllHold(ms, fs) && i <= |fs|
      reads this
    {
      Trail(trail, ms[..i], fs[..i], config) && Done() == trail[i]
    }

    method HandleNext(ms: seq<seq<byte>>, fs: seq<seq<byte>>, i: nat)
      requires AllHold(ms, fs) && i < |fs| && Handled(ms, fs, i)
      modifies this
      ensures Handled(ms, fs, i + 1)
    {
      TrailSnoc(trail, ms, fs, config, i);
      Handle(ms[i], |fs[i]|);
      trail := trail + [Done()];
    }

    // The frames from the n-th on.
    method HandleFrom(ms: seq<seq<byte>>, fs: seq<seq<byte>>, n: nat)
      requires AllHold(ms, fs) && n <= |fs| && Handled(ms, fs, n)
      modifies this
      ensures Handled(ms, fs, |fs|)
    {
      for i := n to |fs|
        invariant Handled(ms, fs, i)
      {
        HandleNext(ms, fs, i);
      }
    }

    // serial_to_tun, if the descriptor has been selected for reading.
    method Hear(readable: Maybe<seq<byte>>, linux: bool)
      requires Valid() && (readable.Some? && linux ==> readable.value != [])
      modifies Footprint()
      ensures Valid() && slip.View() == Heard(old(slip.View()), readable)
      ensures old(slip.frames) <= slip.frames && old(slip.memory) <= slip.memory
    {
      var n := |slip.frames|;
      ghost var ms, fs := slip.memory, slip.frames;
      Listen(slip, readable, linux);
      assert slip.memory[..n] == ms && slip.frames[..n] == fs;
      HandleFrom(slip.memory, slip.frames, n);
      assert slip.memory[..|slip.frames|] == slip.memory && slip.frames[..|slip.frames|] == slip.frames;
    }
  }

  // At any time, what has been done is what the frames received so far ask for.
  lemma DoneIsEffects(r: Receiver)
    requires r.Valid()
    ensures r.Done() == EffectsOf(r.slip.memory, r.slip.frames, r.config)
  {
    TrailIsEffects(r.trail, r.slip.memory, r.slip.frames, r.config);
  }

  // A sound frame, and no other, is written to the tun device: whole, or of a relayed
  // one nothing.
  lemma SoundIsWritten(m: seq<byte>, n: nat, dhcpOpen: bool)
    requires n <= |m|
    ensures TunWrites(Fate(m, n, dhcpOpen)) ==
      if n > 0 && Readable(m, n) && Sound(m, n) then [if dhcpOpen && DhcpFromClient(m) then [] else m[..n]] else []
  {
    if n > 0 && Readable(m, n) {
      DeliveredWhere(m, n, dhcpOpen);
      ClientBroadcast(m);
    }
  }

  // ---------- The requests ----------

  // The frame is a request to be relayed: a sound UDP broadcast from port 68 to port
  // 67 whose message is a BOOTREQUEST, of a length the relay's buffer can take.
  predicate ClientRequest(m: seq<byte>, n: nat) {
    && Readable(m, n) && 73 <= n <= 358 && Sound(m, n)
    && m[9] == 17 && m[16..24] == [255, 255, 255, 255, 0, 68, 0, 67] && m[28] == 1
  }

  // What the server is sent for the frames fs.
  function Served(ms: seq<seq<byte>>, fs: seq<seq<byte>>, c: Config): seq<seq<byte>>
    requires AllHold(ms, fs)
  {
    if fs == [] then []
    else
      var last := |fs| - 1;
      Served(ms[..last], fs[..last], c)
        + if c.dhcpOpen && ClientRequest(ms[last], |fs[last]|)
          then [MessageOf(fs[last], c.net, c.circuit, c.giaddr)]
          else []
  }

  lemma RequestIsServed(m: seq<byte>, n: nat, c: Config)
    requires n <= |m|
    ensures ServerMessages(Fate(m, n, c.dhcpOpen), m, n, c) ==
      if c.dhcpOpen && ClientRequest(m, n) then [MessageOf(m[..n], c.net, c.circuit, c.giaddr)] else []
  {
    if n > 0 && Readable(m, n) {
      DeliveredWhere(m, n, c.dhcpOpen);
    }
  }

  // While the relay is open, every request among the frames reaches the server, once
  // and in order, and nothing else does; while it is closed, nothing does.
  lemma {:induction false} RequestsAreServed(ms: seq<seq<byte>>, fs: seq<seq<byte>>, c: Config)
    requires AllHold(ms, fs)
    ensures EffectsOf(ms, fs, c).toServer == Served(ms, fs, c)
  {
    if fs != [] {
      var last := |fs| - 1;
      RequestsAreServed(ms[..last], fs[..last], c);
      RequestIsServed(ms[last], |fs[last]|, c);
      assert ms[last][..|fs[last]|] == fs[last];
    }
  }

  // ---------- The routes ----------

  // The address in the last announcement, "=IPA" and four bytes.
  function LastAnnounced(fs: seq<seq<byte>>): Addr {
    if fs == [] then [0, 0, 0, 0]
    else
      var f := fs[|fs| - 1];
      if |f| == 8 && f[..4] == [0x3D, 0x49, 0x50, 0x41] then f[4..8] else LastAnnounced(fs[..|fs| - 1])
  }

  lemma AnnouncementIsTaken(m: seq<byte>, f: seq<byte>, ipa: Addr, dhcpOpen: bool)
    requires Holds(m, f)
    ensures NextAddress(Fate(m, |f|, dhcpOpen), ipa) ==
      if |f| == 8 && f[..4] == [0x3D, 0x49, 0x50, 0x41] then f[4..8] else ipa
  {
    assert f == m[..|f|];
    if |f| == 8 {
      assert f[..4] == m[..4] && f[4..8] == m[4..8];
      assert m[..4] == [0x3D, 0x49, 0x50, 0x41] ==> m[..4][0] == m[0] == 0x3D;
    }
    if Readable(m, |f|) {
      DeliveredWhere(m, |f|, dhcpOpen);
    }
  }

  lemma {:induction false} LastIsInForce(ms: seq<seq<byte>>, fs: seq<seq<byte>>, c: Config)
    requires AllHold(ms, fs)
    ensures EffectsOf(ms, fs, c).ipa == LastAnnounced(fs)
  {
    if fs != [] {
      var last := |fs| - 1;
      LastIsInForce(ms[..last], fs[..last], c);
      assert Holds(ms[last], fs[last]);
      AnnouncementIsTaken(ms[last], fs[last], LastAnnounced(fs[..last]), c.dhcpOpen);
    }
  }

  // The addresses with a route in force.
  function Installed(routes: seq<Route>): set<Addr> {
    if routes == [] then {}
    else
      var front := Installed(routes[..|routes| - 1]);
      match routes[|routes| - 1]
      case DeleteRoute(a) => front - {a}
      case AddRoute(a) => front + {a}
  }

  // Only what is in force is deleted, and only what is not is added.
  predicate Orderly(routes: seq<Route>) {
    routes == [] ||
    var front := routes[..|routes| - 1];
    Orderly(front) &&
    match routes[|routes| - 1]
    case DeleteRoute(a) => a in Installed(front)
    case AddRoute(a) => a !in Installed(front)
  }

  lemma RoutesSnoc(routes: seq<Route>, r: Route)
    ensures Installed(routes + [r]) ==
      (if r.AddRoute? then Installed(routes) + {r.ipa} else Installed(routes) - {r.ipa})
    ensures Orderly(routes + [r]) <==> Orderly(routes) && (r.AddRoute? <==> r.ipa !in Installed(routes))
  {
    assert (routes + [r])[..|routes|] == routes;
  }

  lemma DeleteOld(routes: seq<Route>, ipa: Addr)
    requires Orderly(routes) && Installed(routes) == Current(ipa)
    ensures var r := routes + if ipa == NO_ADDRESS then [] else [DeleteRoute(ipa)]; Orderly(r) && Installed(r) == {}
  {
    if ipa == NO_ADDRESS {
      assert routes + [] == routes;
    } else {
      RoutesSnoc(routes, DeleteRoute(ipa));
    }
  }

  lemma AddNew(routes: seq<Route>, now: Addr)
    requires Orderly(routes) && Installed(routes) == {}
    ensures var r := routes + if now == NO_ADDRESS then [] else [AddRoute(now)];
      Orderly(r) && Installed(r) == Current(now)
  {
    if now == NO_ADDRESS {
      assert routes + [] == routes;
    } else {
      RoutesSnoc(routes, AddRoute(now));
    }
  }

  function Current(ipa: Addr): set<Addr> {
    if ipa == NO_ADDRESS then {} else {ipa}
  }

  lemma CommandsKeepOneRoute(routes: seq<Route>, ipa: Addr, fate: Maybe<Delivery>)
    requires Orderly(routes) && Installed(routes) == Current(ipa)
    ensures var r := routes + RouteCommands(fate, ipa);
      Orderly(r) && Installed(r) == Current(NextAddress(fate, ipa))
  {
    if fate.Some? && fate.value.Address? && fate.value.ipa != ipa {
      var now := fate.value.ipa;
      var before: seq<Route> := if ipa == NO_ADDRESS then [] else [DeleteRoute(ipa)];
      DeleteOld(routes, ipa);
      AddNew(routes + before, now);
      ConcatAssoc(routes, before, if now == NO_ADDRESS then [] else [AddRoute(now)]);
    } else {
      assert routes + [] == routes;
    }
  }

  // At any time the one route in force is that of the address last announced.
  lemma {:induction false} OneRoute(ms: seq<seq<byte>>, fs: seq<seq<byte>>, c: Config)
    requires AllHold(ms, fs)
    ensures var x := EffectsOf(ms, fs, c);
      Orderly(x.routes) && Installed(x.routes) == Current(x.ipa)
  {
    if fs != [] {
      var last := |fs| - 1;
      OneRoute(ms[..last], fs[..last], c);
      var x := EffectsOf(ms[..last], fs[..last], c);
      CommandsKeepOneRoute(x.routes, x.ipa, Fate(ms[last], |fs[last]|, c.dhcpOpen));
    }
  }

  // So at any time: the requests that were frames have been sent to the server, and
  // the route of the last announcement is the one in force, if that is not 0.0.0.0.
  lemma ServedAndRouted(r: Receiver)
    requires r.Valid()
    ensures r.toServer == Served(r.slip.memory, r.slip.frames, r.config)
    ensures r.ipa == LastAnnounced(r.slip.frames) && Orderly(r.routes)
    ensures Installed(r.routes) == if r.ipa == [0, 0, 0, 0] then {} else {r.ipa}
  {
    DoneIsEffects(r);
    RequestsAreServed(r.slip.memory, r.slip.frames, r.config);
    LastIsInForce(r.slip.memory, r.slip.frames, r.config);
    OneRoute(r.slip.memory, r.slip.frames, r.config);
  }

  // ---------- The other end of a gateway's line ----------

  ghost predicate Expected(f: seq<byte>) {
    f == IPA_REQUEST || Checked(f)
  }

  // The frames that reach the tun device: all but the requests, and of a client's
  // broadcast under an open relay only the write of no bytes.
  function Arrivals(ms: seq<seq<byte>>, fs: seq<seq<byte>>, dhcpOpen: bool): seq<seq<byte>>
    requires AllHold(ms, fs)
  {
    if fs == [] then []
    else
      var last := |fs| - 1;
      Arrivals(ms[..last], fs[..last], dhcpOpen)
        + if fs[last] == IPA_REQUEST then []
          else if dhcpOpen && DhcpFromClient(ms[last]) then [[]]
          else [fs[last]]
  }

  lemma RequestIsPrinted(m: seq<byte>, dhcpOpen: bool)
    requires Holds(m, IPA_REQUEST)
    ensures Fate(m, 4, dhcpOpen) == Some(DebugText(IPA_REQUEST))
  {
    assert forall i :: 0 <= i < 4 ==> m[i] == m[..4][i];
    assert m[..4] == IPA_REQUEST;
  }

  // Of such frames, nothing but packets is written, all of them, and no route is
  // ever touched.
  lemma {:induction false} ExpectedFramesArrive(ms: seq<seq<byte>>, fs: seq<seq<byte>>, c: Config)
    requires AllHold(ms, fs) && forall f :: f in fs ==> Expected(f)
    ensures var x := EffectsOf(ms, fs, c);
      x.tunOut == Arrivals(ms, fs, c.dhcpOpen) && x.routes == [] && x.ipa == NO_ADDRESS
  {
    if fs != [] {
      var last := |fs| - 1;
      ExpectedFramesArrive(ms[..last], fs[..last], c);
      FrameArrives(ms[last], fs[last], c.dhcpOpen);
    }
  }

  lemma FrameArrives(m: seq<byte>, f: seq<byte>, dhcpOpen: bool)
    requires Holds(m, f) && Expected(f)
    ensures var fate := Fate(m, |f|, dhcpOpen);
      if f == IPA_REQUEST then fate == Some(DebugText(f))
      else fate == Some(if dhcpOpen && DhcpFromClient(m) then Relayed else Tun(f))
  {
    if f == IPA_REQUEST {
      RequestIsPrinted(m, dhcpOpen);
    } else {
      CheckedAnywhere(f, m);
    }
  }

  // In every state a gateway's line reaches, a receiver that has taken in what the
  // peer has read has written to its tun device exactly the packets delivered.
  lemma PeerWritesPackets(l: Link, r: Receiver)
    requires TunslipReaches(l) && r.Valid() && r.slip.frames == l.rx.frames
    ensures r.toServer == Served(r.slip.memory, r.slip.frames, r.config)
    ensures r.tunOut == Arrivals(r.slip.memory, r.slip.frames, r.config.dhcpOpen) && r.routes == []
    ensures r.slip.frames <= NonEmpty(l.queued)
  {
    QueuedAreChecked(l);
    DeliveredIsPrefixOfQueued(l);
    NonEmptyIsSubset(l.queued);
    DoneIsEffects(r);
    ServedAndRouted(r);
    ExpectedFramesArrive(r.slip.memory, r.slip.frames, r.config);
  }
}
