/** DHCP options as tag, length, value, and the selective copy made for the client. */
module DhcpOptions {
  import opened Bytes

  const OPTION_SUBNET_MASK: byte := 1
  const OPTION_ROUTER: byte := 3
  const OPTION_DNS_SERVER: byte := 6
  const OPTION_LEASE_TIME: byte := 51
  const OPTION_MSG_TYPE: byte := 53
  const OPTION_SERVER_ID: byte := 54
  const OPTION_PAD: byte := 0
  const OPTION_END: byte := 255

  datatype RawOpt = Opt(code: byte, val: seq<byte>)

  type Option = o: RawOpt | o.code != OPTION_END && |o.val| < 256 witness Opt(0, [])

  // opts: the options read; ended: END was met; used: bytes read, END included.
  datatype Parsed = Malformed | Parsed(opts: seq<Option>, ended: bool, used: nat)

  // As the relay's own loop reads options: every tag but END has a length byte.
  function Parse(b: seq<byte>): Parsed {
    if b == [] then Parsed([], false, 0)
    else if b[0] == OPTION_END then Parsed([], true, 1)
    else if |b| < 2 || |b| < b[1] as int + 2 then Malformed
    else
      var size := b[1] as int + 2;
      match Parse(b[size..])
      case Malformed => Malformed
      case Parsed(opts, ended, used) => Parsed([Opt(b[0], b[2..size])] + opts, ended, used + size)
  }

  // A parse result with options put in front, taking up n more bytes.
  function Prepend(os: seq<Option>, n: nat, t: Parsed): Parsed {
    if t.Malformed? then t else Parsed(os + t.opts, t.ended, n + t.used)
  }

  // As RFC 2132 has them read (sections 3.1 and 3.2): PAD is a single byte too.
  function Standard(b: seq<byte>): Parsed {
    if b == [] then Parsed([], false, 0)
    else if b[0] == OPTION_END then Parsed([], true, 1)
    else if !HasItem(b) then Malformed
    else Prepend(Item(b), ItemSize(b), Standard(b[ItemSize(b)..]))
  }

  // The PAD or option in front of b.
  function ItemSize(b: seq<byte>): (n: nat)
    requires b != []
    ensures n > 0
  {
    if b[0] == OPTION_PAD then 1 else if |b| < 2 then 2 else b[1] as int + 2
  }

  predicate HasItem(b: seq<byte>) {
    b != [] && b[0] != OPTION_END && ItemSize(b) <= |b|
  }

  function Item(b: seq<byte>): seq<Option>
    requires HasItem(b)
  {
    if b[0] == OPTION_PAD then [] else [Opt(b[0], b[2..ItemSize(b)])]
  }

  // The two agree on what the relay can read exactly when it met no PAD.
  lemma {:induction false} StandardIffNoPad(b: seq<byte>)
    requires Parse(b).Parsed?
    ensures Standard(b) == Parse(b) <==> forall o :: o in Parse(b).opts ==> o.code != OPTION_PAD
    ensures Standard(b).Parsed? ==> forall o :: o in Standard(b).opts ==> o.code != OPTION_PAD
  {
    StandardHasNoPad(b);
    if b != [] && b[0] != OPTION_END {
      var size := b[1] as int + 2;
      var o, rest := Opt(b[0], b[2..size]), Parse(b[size..]);
      assert Parse(b) == Prepend([o], size, rest);
      if b[0] == OPTION_PAD {
        assert o in Parse(b).opts;
      } else {
        StandardIffNoPad(b[size..]);
        NoPadBehind(o, size, rest, Standard(b[size..]));
      }
    }
  }

  lemma NoPadBehind(o: Option, n: nat, p: Parsed, q: Parsed)
    requires o.code != OPTION_PAD && p.Parsed?
    requires q == p <==> forall x :: x in p.opts ==> x.code != OPTION_PAD
    ensures Prepend([o], n, q) == Prepend([o], n, p) <==>
      forall x :: x in Prepend([o], n, p).opts ==> x.code != OPTION_PAD
  {
    SameBehind(o, n, p, q);
    assert forall x :: x in [o] + p.opts <==> x == o || x in p.opts;
  }

  // One PAD in front, and the relay takes a router option for data and drops it.
  lemma PadIsMisread()
    ensures var b := [0, 3, 1, 5, 255];
      && Standard(b) == Parsed([Opt(3, [5])], true, 5)
      && Parse(b) == Parsed([Opt(0, [1, 5, 255])], false, 5)
      && AllNamed(Parse(b).opts) && ClientBytes(b) == []
  {
    var b := [OPTION_PAD, OPTION_ROUTER, 1, 5, OPTION_END];
    var o := b[1..];
    assert b[2..5] == [1, 5, OPTION_END] && b[5..] == [];
    assert o[2..3] == [5] && o[3..] == [OPTION_END] && Standard(o[3..]) == Parsed([], true, 1);
    var misread: Option := Opt(OPTION_PAD, [1, 5, OPTION_END]);
    assert b[1] as int + 2 == 5 && Parse(b[5..]) == Parsed([], false, 0);
    assert Parse(b) == Parsed([misread], false, 5);
    FilterCons(misread, []);
    assert [misread] + [] == [misread] && Filter([misread]) == [];
  }

  lemma {:induction false} StandardHasNoPad(b: seq<byte>)
    ensures Standard(b).Parsed? ==> forall o :: o in Standard(b).opts ==> o.code != OPTION_PAD
  {
    if b != [] && b[0] == OPTION_PAD {
      StandardHasNoPad(b[1..]);
    } else if Standard(b).Parsed? && b != [] && b[0] != OPTION_END {
      StandardHasNoPad(b[b[1] as int + 2..]);
    }
  }

  // Everything is used up, and no END met.
  predicate Complete(b: seq<byte>) {
    Standard(b).Parsed? && !Standard(b).ended
  }

  lemma PrependTwice(a: seq<Option>, n: nat, b: seq<Option>, k: nat, t: Parsed)
    ensures Prepend(a, n, Prepend(b, k, t)) == Prepend(a + b, n + k, t)
  {
    if t.Parsed? {
      ConcatAssoc(a, b, t.opts);
    }
  }

  lemma ItemInFront(a: seq<byte>, b: seq<byte>, tail: seq<byte>)
    requires HasItem(a) && b == a + tail
    ensures HasItem(b) && ItemSize(b) == ItemSize(a) && Item(b) == Item(a)
    ensures b[ItemSize(a)..] == a[ItemSize(a)..] + tail
  {
    if a[0] != OPTION_PAD {
      assert b[2..ItemSize(a)] == a[2..ItemSize(a)];
    }
  }

  // Complete options in front of a tail leave the outcome to the tail.
  lemma {:induction false} StandardBehind(a: seq<byte>, tail: seq<byte>)
    requires Complete(a)
    ensures Standard(a).used == |a|
    ensures Standard(a + tail) == Prepend(Standard(a).opts, |a|, Standard(tail))
  {
    if a == [] {
      assert a + tail == tail && Prepend([], 0, Standard(tail)) == Standard(tail);
    } else {
      var n := ItemSize(a);
      ItemInFront(a, a + tail, tail);
      StandardBehind(a[n..], tail);
      PrependTwice(Item(a), n, Standard(a[n..]).opts, |a| - n, Standard(tail));
    }
  }

  // What is read of b, which holds an END: complete options, and the END.
  ghost predicate EndsAt(b: seq<byte>, k: nat) {
    && 0 < k <= |b| && b[k - 1] == OPTION_END && Complete(b[..k - 1])
    && Standard(b) == Parsed(Standard(b[..k - 1]).opts, true, k)
  }

  lemma {:induction false} EndFound(b: seq<byte>)
    requires Standard(b).Parsed? && Standard(b).ended
    ensures EndsAt(b, Standard(b).used)
  {
    if b[0] == OPTION_END {
      assert b[..0] == [];
    } else {
      var n, rest := ItemSize(b), b[ItemSize(b)..];
      assert Standard(b) == Prepend(Item(b), n, Standard(rest));
      EndFound(rest);
      EndBehindItem(b, Standard(rest).used);
      assert Standard(b).used == n + Standard(rest).used;
    }
  }

  lemma EndBehindItem(b: seq<byte>, k: nat)
    requires HasItem(b) && EndsAt(b[ItemSize(b)..], k)
    ensures EndsAt(b, ItemSize(b) + k)
  {
    var n := ItemSize(b);
    var a, p := b[n..], b[..n + k - 1];
    ItemOfPrefix(b, n + k - 1);
    assert p[n..] == a[..k - 1];
    assert Standard(p) == Prepend(Item(b), n, Standard(a[..k - 1]));
  }

  // What is behind END is not read.
  lemma EndSticks(b: seq<byte>, n: nat, more: seq<byte>)
    requires Standard(b).Parsed? && Standard(b).ended && Standard(b).used <= n <= |b|
    ensures Standard(b[..n] + more) == Standard(b)
  {
    EndFound(b);
    EndThen(b, Standard(b).used, n, more);
  }

  lemma EndThen(b: seq<byte>, k: nat, n: nat, more: seq<byte>)
    requires EndsAt(b, k) && k <= n <= |b|
    ensures Standard(b[..n] + more) == Standard(b)
  {
    var a, tail := b[..k - 1], b[k - 1..n] + more;
    assert b[..n] + more == a + tail;
    StandardBehind(a, tail);
    assert Standard(a).opts + [] == Standard(a).opts;
  }

  lemma ItemOfPrefix(b: seq<byte>, k: nat)
    requires HasItem(b) && ItemSize(b) <= k <= |b|
    ensures HasItem(b[..k]) && ItemSize(b[..k]) == ItemSize(b) && Item(b[..k]) == Item(b)
  {
    if b[0] != OPTION_PAD {
      assert b[..k][2..ItemSize(b)] == b[2..ItemSize(b)];
    }
  }

  // The last of some complete items.
  lemma {:induction false} LastItem(b: seq<byte>) returns (k: nat)
    requires Complete(b) && b != []
    ensures k < |b| && Complete(b[..k]) && HasItem(b[k..]) && ItemSize(b[k..]) == |b| - k
    ensures b[k] == OPTION_PAD ==> k == |b| - 1
  {
    var n := ItemSize(b);
    if n == |b| {
      k := 0;
      assert b[..0] == [] && b[0..] == b;
    } else {
      var j := LastItem(b[n..]);
      k := n + j;
      ItemOfPrefix(b, k);
      assert b[..k][n..] == b[n..][..j] && b[k..] == b[n..][j..];
    }
  }

  lemma SameBehind(o: Option, n: nat, p: Parsed, q: Parsed)
    ensures Prepend([o], n, p) == Prepend([o], n, q) <==> p == q
  {
    if p.Parsed? && q.Parsed? && [o] + p.opts == [o] + q.opts {
      assert ([o] + p.opts)[1..] == p.opts && ([o] + q.opts)[1..] == q.opts;
    }
  }

  function SerOpt(o: Option): seq<byte> {
    [o.code, |o.val|] + o.val
  }

  function Ser(os: seq<Option>): seq<byte> {
    if os == [] then [] else SerOpt(os[0]) + Ser(os[1..])
  }

  lemma SerCons(o: Option, os: seq<Option>)
    ensures Ser([o] + os) == SerOpt(o) + Ser(os)
    ensures Ser([o]) == SerOpt(o)
  {
    assert ([o] + os)[1..] == os;
    assert Ser([o]) == SerOpt(o) + Ser([o][1..]);
  }

  lemma {:induction false} SerConcat(a: seq<Option>, b: seq<Option>)
    ensures Ser(a + b) == Ser(a) + Ser(b)
  {
    if a == [] {
      assert a + b == b;
    } else {
      SerConcat(a[1..], b);
      assert a + b == [a[0]] + (a[1..] + b);
      SerCons(a[0], a[1..] + b);
      assert SerOpt(a[0]) + (Ser(a[1..]) + Ser(b)) == SerOpt(a[0]) + Ser(a[1..]) + Ser(b);
    }
  }

  lemma ParseOne(o: Option, tail: seq<byte>)
    requires Parse(tail).Parsed?
    ensures var t := Parse(tail);
      Parse(SerOpt(o) + tail) == Parsed([o] + t.opts, t.ended, |o.val| + 2 + t.used)
  {
    var b, size := SerOpt(o) + tail, |o.val| + 2;
    assert b[size..] == tail && b[2..size] == o.val && b[1] == |o.val|;
  }

  lemma ParseSerCons(o: Option, os: seq<Option>, tail: seq<byte>)
    requires Parse(tail).Parsed? && Parse(Ser(os) + tail) == Prepend(os, |Ser(os)|, Parse(tail))
    ensures Parse(Ser([o] + os) + tail) == Prepend([o] + os, |Ser([o] + os)|, Parse(tail))
  {
    SerCons(o, os);
    ConcatAssoc(SerOpt(o), Ser(os), tail);
    ParseOne(o, Ser(os) + tail);
    ConcatAssoc([o], os, Parse(tail).opts);
  }

  // Printing options in front of anything parseable and parsing gives them back.
  lemma {:induction false} ParseSer(os: seq<Option>, tail: seq<byte>)
    requires Parse(tail).Parsed?
    ensures Parse(Ser(os) + tail) == Prepend(os, |Ser(os)|, Parse(tail))
  {
    if os == [] {
      assert Ser(os) + tail == tail && os + Parse(tail).opts == Parse(tail).opts;
    } else {
      ParseSer(os[1..], tail);
      ParseSerCons(os[0], os[1..], tail);
      assert [os[0]] + os[1..] == os;
    }
  }

  // The bytes that a parse result accounts for.
  function Printed(r: Parsed): seq<byte>
    requires r.Parsed?
  {
    Ser(r.opts) + (if r.ended then [OPTION_END] else [])
  }

  lemma PrintedCons(o: Option, rest: Parsed, r: Parsed)
    requires rest.Parsed? && r.Parsed? && r.opts == [o] + rest.opts && r.ended == rest.ended
    ensures Printed(r) == SerOpt(o) + Printed(rest)
  {
    SerCons(o, rest.opts);
    ConcatAssoc(SerOpt(o), Ser(rest.opts), if r.ended then [OPTION_END] else []);
  }

  // What was parsed, printed again, is what was read.
  lemma {:induction false} SerParse(b: seq<byte>)
    requires Parse(b).Parsed?
    ensures var r := Parse(b);
      r.used <= |b| && (!r.ended ==> r.used == |b|) && b[..r.used] == Printed(r)
  {
    if b != [] && b[0] != OPTION_END {
      var size := b[1] as int + 2;
      SerParse(b[size..]);
      PrintOne(b, size, Parse(b[size..]), Parse(b));
    }
  }

  // The printed form of one more option in front of a printed rest.
  lemma PrintOne(b: seq<byte>, size: nat, rest: Parsed, r: Parsed)
    requires 2 <= size <= |b| && b[1] as int + 2 == size && b[0] != OPTION_END
    requires rest.Parsed? && rest.used <= |b| - size && b[size..][..rest.used] == Printed(rest)
    requires r == Parsed([Opt(b[0], b[2..size])] + rest.opts, rest.ended, rest.used + size)
    ensures b[..r.used] == Printed(r)
  {
    var o := Opt(b[0], b[2..size]);
    PrintedCons(o, rest, r);
    SplitPrefix(b, size, rest.used);
    assert [b[0], b[1]] + b[2..size] == SerOpt(o);
  }

  lemma SplitPrefix(b: seq<byte>, size: nat, more: nat)
    requires size >= 2 && size + more <= |b|
    ensures b[..size + more] == [b[0], b[1]] + b[2..size] + b[size..][..more]
  {
  }

  // ---------- The copy for the client ----------

  predicate Copied(code: byte) {
    code in {OPTION_SUBNET_MASK, OPTION_ROUTER, OPTION_LEASE_TIME, OPTION_MSG_TYPE, OPTION_SERVER_ID}
  }

  // A DNS option names at least one server.
  predicate Named(o: Option) {
    o.code == OPTION_DNS_SERVER ==> |o.val| >= 4
  }

  predicate AllNamed(os: seq<Option>) {
    os == [] || (Named(os[0]) && AllNamed(os[1..]))
  }

  function Keep(o: Option): seq<Option>
    requires Named(o)
  {
    if Copied(o.code) then [o]
    else if o.code == OPTION_DNS_SERVER then [Opt(o.code, o.val[..4])]
    else []
  }

  function Filter(os: seq<Option>): seq<Option>
    requires AllNamed(os)
  {
    if os == [] then [] else Keep(os[0]) + Filter(os[1..])
  }

  lemma FilterCons(o: Option, os: seq<Option>)
    requires Named(o) && AllNamed(os)
    ensures AllNamed([o] + os) && Filter([o] + os) == Keep(o) + Filter(os)
  {
    assert ([o] + os)[1..] == os;
  }

  // What is kept of one option: subnet mask, router, lease time, message type and
  // server identifier whole, of the name servers the first, and of the rest nothing.
  lemma FilterOne(o: Option)
    requires Named(o)
    ensures AllNamed([o])
    ensures Filter([o]) ==
      if o.code in {1, 3, 51, 53, 54} then [o] else if o.code == 6 then [Opt(6, o.val[..4])] else []
  {
    FilterCons(o, []);
    assert [o] + [] == [o] && Keep(o) + [] == Keep(o);
  }

  // Option by option, in order.
  lemma {:induction false} FilterConcat(a: seq<Option>, b: seq<Option>)
    requires AllNamed(a) && AllNamed(b)
    ensures AllNamed(a + b) && Filter(a + b) == Filter(a) + Filter(b)
  {
    if a == [] {
      assert a + b == b;
    } else {
      FilterConcat(a[1..], b);
      assert a + b == [a[0]] + (a[1..] + b);
      FilterCons(a[0], a[1..] + b);
      ConcatAssoc(Keep(a[0]), Filter(a[1..]), Filter(b));
    }
  }

  // The client gets o out of the options the server sent.
  ghost predicate Survives(o: Option, os: seq<Option>) {
    if o.code in {1, 3, 51, 53, 54} then o in os
    else o.code == 6 && exists x :: x in os && FirstServer(o, x)
  }

  predicate FirstServer(o: Option, x: Option) {
    x.code == 6 && |x.val| >= 4 && o == Opt(6, x.val[..4])
  }

  lemma {:induction false} FilterKeeps(os: seq<Option>, o: Option)
    requires AllNamed(os)
    ensures o in Filter(os) <==> Survives(o, os)
  {
    if os != [] {
      FilterKeeps(os[1..], o);
      OneMoreToSurvive(o, os);
      assert o in Filter(os) <==> o in Keep(os[0]) || o in Filter(os[1..]);
    }
  }

  lemma OneMoreToSurvive(o: Option, os: seq<Option>)
    requires os != [] && Named(os[0])
    ensures Survives(o, os) <==> o in Keep(os[0]) || Survives(o, os[1..])
  {
    var head := os[0];
    assert forall x :: x in os <==> x == head || x in os[1..];
    assert o in Keep(head) <==> if o.code in {1, 3, 51, 53, 54} then o == head else FirstServer(o, head);
    if o.code == 6 && Survives(o, os) {
      var x :| x in os && FirstServer(o, x);
      assert x == head || x in os[1..];
    }
  }

  // Filtering never lengthens a list, and a second pass finds nothing to do.
  lemma {:induction false} FilterTwice(os: seq<Option>)
    requires AllNamed(os)
    ensures AllNamed(Filter(os)) && Filter(Filter(os)) == Filter(os)
    ensures |Ser(Filter(os))| <= |Ser(os)|
  {
    if os != [] {
      var kept, rest := Keep(os[0]), Filter(os[1..]);
      FilterTwice(os[1..]);
      if kept == [] {
        assert Filter(os) == rest;
      } else {
        assert kept == [kept[0]];
        assert kept[0].val[..|kept[0].val|] == kept[0].val;
        FilterCons(kept[0], rest);
        SerCons(kept[0], rest);
      }
    }
  }

  function ClientBytes(b: seq<byte>): seq<byte>
    requires Parse(b).Parsed? && AllNamed(Parse(b).opts)
  {
    Printed(Parse(b).(opts := Filter(Parse(b).opts)))
  }

  // The copied bytes parse, by either reading, as the kept options, they are no longer than what was
  // read, and copying the copy changes nothing.
  lemma ClientBytesParse(b: seq<byte>)
    requires Parse(b).Parsed? && AllNamed(Parse(b).opts)
    ensures var r, c := Parse(b), ClientBytes(b);
      && Parse(c) == Parsed(Filter(r.opts), r.ended, |c|)
      && |c| <= r.used <= |b|
      && AllNamed(Filter(r.opts)) && ClientBytes(c) == c
      && Standard(c) == Parse(c)
  {
    var r := Parse(b);
    SerParse(b);
    FilterTwice(r.opts);
    ParseSer(Filter(r.opts), if r.ended then [OPTION_END] else []);
    assert Filter(r.opts) + [] == Filter(r.opts);
    FilterKeepsNoPad(r.opts);
    StandardIffNoPad(ClientBytes(b));
  }

  lemma {:induction false} FilterKeepsNoPad(os: seq<Option>)
    requires AllNamed(os)
    ensures forall o :: o in Filter(os) ==> o.code != OPTION_PAD
  {
    if os != [] {
      FilterKeepsNoPad(os[1..]);
    }
  }

  method CopyBytes(out: array<byte>, t: nat, bs: seq<byte>)
    requires t + |bs| <= out.Length
    modifies out
    ensures out[..t + |bs|] == old(out[..t]) + bs
    ensures out[t + |bs|..] == old(out[t + |bs|..])
  {
    forall i | 0 <= i < |bs| {
      out[t + i] := bs[i];
    }
  }

  // Between two turns of the loop: `kept` has been written, `b` is still to read.
  ghost predicate StillToRead(all: Parsed, b: seq<byte>, kept: seq<Option>) {
    && all.Parsed? && Parse(b).Parsed? && Parse(b).ended == all.ended
    && AllNamed(all.opts) && AllNamed(Parse(b).opts)
    && Filter(all.opts) == kept + Filter(Parse(b).opts)
  }

  lemma ReadNext(all: Parsed, b: seq<byte>, kept: seq<Option>)
    requires StillToRead(all, b, kept) && b != [] && b[0] != OPTION_END
    ensures var size := b[1] as int + 2;
      && 2 <= size <= |b|
      && var o := Opt(b[0], b[2..size]);
      Named(o) && StillToRead(all, b[size..], kept + Keep(o)) && Ser(kept + Keep(o)) == Ser(kept) + Ser(Keep(o))
  {
    var size := b[1] as int + 2;
    var o, rest := Opt(b[0], b[2..size]), Parse(b[size..]).opts;
    assert Parse(b).opts == [o] + rest && ([o] + rest)[1..] == rest;
    assert kept + (Keep(o) + Filter(rest)) == kept + Keep(o) + Filter(rest);
    SerConcat(kept, Keep(o));
  }

  // What one turn writes for an option of the given bytes.
  lemma KeptBytes(b: seq<byte>)
    requires |b| >= 2 && b[0] != OPTION_END && 2 <= b[1] as int + 2 <= |b| && Named(Opt(b[0], b[2..b[1] as int + 2]))
    ensures var size := b[1] as int + 2; var o := Opt(b[0], b[2..size]);
      && (Copied(b[0]) ==> Ser(Keep(o)) == b[..size])
      && (b[0] == OPTION_DNS_SERVER ==> size >= 6 && Ser(Keep(o)) == [b[0], 4] + b[2..6])
      && (!Copied(b[0]) && b[0] != OPTION_DNS_SERVER ==> Ser(Keep(o)) == [])
  {
    var o := Opt(b[0], b[2..b[1] as int + 2]);
    if Copied(b[0]) {
      SerCons(o, []);
    } else if b[0] == OPTION_DNS_SERVER {
      SerCons(Opt(b[0], o.val[..4]), []);
      assert o.val[..4] == b[2..6];
    }
  }

  // The loop body: the option at the front of b is copied, cut or skipped.
  method CopyOption(b: seq<byte>, ghost o: Option, out: array<byte>, t: nat) returns (size: nat, t': nat)
    requires |b| >= 2 && b[0] != OPTION_END && b[1] as int + 2 <= |b| && t + |b| <= out.Length
    requires o == Opt(b[0], b[2..b[1] as int + 2]) && Named(o)
    modifies out
    ensures size == b[1] as int + 2 && t <= t' <= t + size
    ensures out[..t'] == old(out[..t]) + Ser(Keep(o))
  {
    KeptBytes(b);
    size, t' := b[1] as int + 2, t;
    if Copied(b[0]) {
      CopyBytes(out, t, b[..size]);
      t' := t + size;
    } else if b[0] == OPTION_DNS_SERVER {
      CopyBytes(out, t, [b[0], 4] + b[2..6]);
      t' := t + 6;
    }
  }

  // The two-pointer loop: `b` is what the read pointer still points at in the
  // options behind the reply's magic cookie, t writes `out`, the whole option
  // field of the packet being built. The write offset never passes the read
  // offset, so `out` is never overrun.
  method CopyOptions(options: seq<byte>, out: array<byte>) returns (t: nat)
    requires options != [] && |options| + 4 <= out.Length
    requires Parse(options).Parsed? && AllNamed(Parse(options).opts)
    modifies out
    ensures 4 <= t <= |options| + 4
    ensures out[..t] == old(out[..4]) + ClientBytes(options)
  {
    ghost var all, kept: seq<Option> := Parse(options), [];
    ghost var cookie := out[..4];
    var b := options;
    t := 4;
    while b != [] && b[0] != OPTION_END
      invariant 4 <= t <= |options| - |b| + 4
      invariant StillToRead(all, b, kept)
      invariant out[..t] == cookie + Ser(kept)
      decreases |b|
    {
      ghost var o := Opt(b[0], b[2..b[1] as int + 2]);
      ReadNext(all, b, kept);
      ConcatAssoc(cookie, Ser(kept), Ser(Keep(o)));
      var size;
      size, t := CopyOption(b, o, out, t);
      b, kept := b[size..], kept + Keep(o);
    }
    NothingLeft(options, b, kept, cookie);
    if b != [] {
      CopyBytes(out, t, [OPTION_END]);
      t := t + 1;
    }
  }

  lemma NothingLeft(options: seq<byte>, b: seq<byte>, kept: seq<Option>, cookie: seq<byte>)
    requires StillToRead(Parse(options), b, kept) && (b == [] || b[0] == OPTION_END)
    ensures cookie + ClientBytes(options) == cookie + Ser(kept) + if b == [] then [] else [OPTION_END]
  {
    assert kept + [] == kept;
    ConcatAssoc(cookie, Ser(kept), if b == [] then [] else [OPTION_END]);
  }
}
