/** Packet validation by check_ip and the in-place identification patch of write_to_serial. */
module PacketCheck {
  import opened Bytes
  import opened OnesComplement

  const ICMP := 1
  const TCP := 6
  const UDP := 17

  // m is the memory at the packet pointer, n the length the caller claims.
  function HeaderLen(m: seq<byte>): nat
    requires m != []
  {
    4 * (m[0] % 16)
  }

  predicate LengthsAgree(m: seq<byte>, n: nat)
    requires |m| >= 4
  {
    m[0] / 16 == 4 && Word(m, 2) == n
  }

  // The reads of check_ip stay inside the memory: the struct is there, and a
  // header that is going to be summed is not longer than its packet.
  predicate Readable(m: seq<byte>, n: nat) {
    28 <= |m| && n <= |m| && (LengthsAgree(m, n) ==> HeaderLen(m) <= n)
  }

  predicate Passes(sum: u16) {
    sum == 0xFFFF || sum == 0
  }

  // Pseudo-header and body; the first addition is made without carry.
  function TransportSum(m: seq<byte>, n: nat): u16
    requires 20 <= |m| && HeaderLen(m) <= n <= |m|
  {
    var start: u16 := (m[9] as int + n - HeaderLen(m)) % 0x1_0000;
    Ip4Sum(Ip4Sum(start, m[12..20]), m[HeaderLen(m)..n])
  }

  function CheckIp(m: seq<byte>, n: nat): (ecode: int)
    requires Readable(m, n)
  {
    if m[0] / 16 != 4 then -1
    else if Word(m, 2) > n then -2
    else if Word(m, 2) < n then -3
    else if !Passes(Ip4Sum(0, m[..HeaderLen(m)])) then -4
    else if m[9] == TCP || m[9] == UDP then
      if Passes(TransportSum(m, n)) then 0
      else if m[9] == TCP then -5
      else if Word(m, 26) != 0 then -6
      else 0
    else if m[9] == ICMP then
      if Passes(Ip4Sum(0, m[HeaderLen(m)..n])) then 0 else -7
    else 0
  }

  // ---------- What acceptance means ----------

  function HeaderTotal(m: seq<byte>): nat
    requires m != [] && HeaderLen(m) <= |m|
  {
    WordSum(m[..HeaderLen(m)])
  }

  function BodyTotal(m: seq<byte>, n: nat): nat
    requires m != [] && HeaderLen(m) <= n <= |m|
  {
    WordSum(m[HeaderLen(m)..n])
  }

  function PseudoTotal(m: seq<byte>, n: nat): nat
    requires 20 <= |m| && HeaderLen(m) <= n <= |m|
  {
    (m[9] as int + n - HeaderLen(m)) % 0x1_0000 + WordSum(m[12..20]) + BodyTotal(m, n)
  }

  predicate Balanced(total: int) {
    total % 65535 == 0
  }

  // RFC 1071 read as congruences: every covered total is a multiple of 65535.
  predicate Sound(m: seq<byte>, n: nat)
    requires Readable(m, n)
  {
    && LengthsAgree(m, n)
    && Balanced(HeaderTotal(m))
    && (m[9] == TCP ==> Balanced(PseudoTotal(m, n)))
    && (m[9] == UDP ==> Balanced(PseudoTotal(m, n)) || Word(m, 26) == 0)
    && (m[9] == ICMP ==> Balanced(BodyTotal(m, n)))
  }

  lemma PassesIffBalanced(total: nat)
    ensures Passes(Norm(total)) <==> Balanced(total)
  {
  }

  lemma TransportSumIsPseudoTotal(m: seq<byte>, n: nat)
    requires 20 <= |m| && HeaderLen(m) <= n <= |m|
    ensures TransportSum(m, n) == Norm(PseudoTotal(m, n))
  {
    var start: u16 := (m[9] as int + n - HeaderLen(m)) % 0x1_0000;
    NormAbsorbs(start + WordSum(m[12..20]), BodyTotal(m, n));
  }

  lemma AcceptedIffSound(m: seq<byte>, n: nat)
    requires Readable(m, n)
    ensures CheckIp(m, n) == 0 <==> Sound(m, n)
  {
    if LengthsAgree(m, n) {
      TransportSumIsPseudoTotal(m, n);
      PassesIffBalanced(HeaderTotal(m));
      PassesIffBalanced(PseudoTotal(m, n));
      PassesIffBalanced(BodyTotal(m, n));
    }
  }

  // Each code, told from the packet's totals.
  lemma CodesMean(m: seq<byte>, n: nat)
    requires Readable(m, n)
    ensures var c, len := CheckIp(m, n), m[2] as int * 256 + m[3] as int;
      && (c == -1 <==> m[0] / 16 != 4)
      && (c == -2 <==> m[0] / 16 == 4 && len > n)
      && (c == -3 <==> m[0] / 16 == 4 && len < n)
      && (m[0] / 16 == 4 && len == n ==>
            var bad, body := !Balanced(HeaderTotal(m)), !Balanced(PseudoTotal(m, n));
            && (c == -4 <==> bad)
            && (c == -5 <==> !bad && m[9] == 6 && body)
            && (c == -6 <==> !bad && m[9] == 17 && body && (m[26] != 0 || m[27] != 0))
            && (c == -7 <==> !bad && m[9] == 1 && !Balanced(BodyTotal(m, n)))
            && (c == 0 <==> c !in {-4, -5, -6, -7}))
  {
    if LengthsAgree(m, n) {
      TransportSumIsPseudoTotal(m, n);
      PassesIffBalanced(HeaderTotal(m));
      PassesIffBalanced(PseudoTotal(m, n));
      PassesIffBalanced(BodyTotal(m, n));
    }
  }

  // What the totals cover: the pseudo-header is protocol, length and both addresses.
  lemma TotalsMean(m: seq<byte>, n: nat)
    requires 20 <= |m| && 4 * (m[0] % 16) <= n <= |m|
    ensures var hl := 4 * (m[0] % 16);
      && HeaderTotal(m) == WordSum(m[..hl]) && BodyTotal(m, n) == WordSum(m[hl..n])
      && PseudoTotal(m, n) == (m[9] as int + n - hl) % 0x1_0000
           + Word(m, 12) + Word(m, 14) + Word(m, 16) + Word(m, 18) + WordSum(m[hl..n])
  {
    var a := m[12..20];
    EightByteSum(a);
  }

  // The header test passes exactly on a nonzero multiple of 65535.
  lemma HeaderTest(m: seq<byte>, n: nat)
    requires Readable(m, n) && LengthsAgree(m, n) && HeaderLen(m) > 0
    ensures CheckIp(m, n) != -4 <==> HeaderTotal(m) > 0 && Balanced(HeaderTotal(m))
  {
    PassesIffBalanced(HeaderTotal(m));
    ZeroSum(m[..HeaderLen(m)]);
    assert m[..HeaderLen(m)][0] == m[0];
  }

  // Of the two sums that pass, 0 is met only by an ICMP body of zeros.
  lemma ZeroIsOnlyAnEmptyIcmpBody(m: seq<byte>, n: nat)
    requires Readable(m, n) && CheckIp(m, n) == 0 && HeaderLen(m) >= 20
    ensures Ip4Sum(0, m[..HeaderLen(m)]) == 0xFFFF
    ensures m[9] == TCP ==> TransportSum(m, n) == 0xFFFF
    ensures m[9] == UDP && Word(m, 26) != 0 ==> TransportSum(m, n) == 0xFFFF
    ensures m[9] == ICMP ==>
      (Ip4Sum(0, m[HeaderLen(m)..n]) == 0 <==> forall i :: HeaderLen(m) <= i < n ==> m[i] == 0)
  {
    ZeroSum(m[..HeaderLen(m)]);
    assert m[..HeaderLen(m)][0] == m[0];
    if m[9] == TCP || m[9] == UDP {
      TransportSumIsNotZero(m, n);
    }
    ZeroBody(m, n);
  }

  lemma TransportSumIsNotZero(m: seq<byte>, n: nat)
    requires 20 <= |m| && 20 <= HeaderLen(m) <= n <= |m| && n < 0x1_0000 && (m[9] == TCP || m[9] == UDP)
    ensures TransportSum(m, n) != 0
  {
    TransportSumIsPseudoTotal(m, n);
    assert (m[9] as int + n - HeaderLen(m)) % 0x1_0000 > 0;
  }

  lemma ZeroBody(m: seq<byte>, n: nat)
    requires m != [] && HeaderLen(m) <= n <= |m|
    ensures Ip4Sum(0, m[HeaderLen(m)..n]) == 0 <==> forall i :: HeaderLen(m) <= i < n ==> m[i] == 0
  {
    var body := m[HeaderLen(m)..n];
    ZeroSum(body);
    assert forall i :: HeaderLen(m) <= i < n ==> m[i] == body[i - HeaderLen(m)];
  }

  // ---------- Changing one word ----------

  // How replacing the word at k moves the total of the slice lo..hi.
  lemma SliceTotalSet(m: seq<byte>, lo: nat, hi: nat, k: nat, v: u16)
    requires lo <= hi <= |m| && lo % 2 == 0 && k % 2 == 0 && k + 1 < |m|
    ensures lo <= k && k + 1 < hi ==>
      WordSum(SetWord(m, k, v)[lo..hi]) == WordSum(m[lo..hi]) - Word(m, k) + v
    ensures k < lo || hi <= k ==> SetWord(m, k, v)[lo..hi] == m[lo..hi]
  {
    if lo <= k && k + 1 < hi {
      WordSumSet(m[lo..hi], k - lo, v);
      assert SetWord(m, k, v)[lo..hi] == SetWord(m[lo..hi], k - lo, v);
    }
  }

  // The body is covered by a checksum: always for TCP and ICMP, for UDP when the
  // checksum field is in use.
  predicate BodyCovered(m: seq<byte>)
    requires |m| >= 28
  {
    m[9] == TCP || m[9] == ICMP || (m[9] == UDP && Word(m, 26) != 0)
  }

  // Any change of one aligned word to an incongruent value, in the header or in a
  // body covered before and after, turns acceptance into rejection.
  lemma OneWordChangeIsRejected(m: seq<byte>, n: nat, k: nat, v: u16)
    requires Readable(m, n) && CheckIp(m, n) == 0 && 20 <= HeaderLen(m)
    requires k % 2 == 0 && k + 1 < n && v % 65535 != Word(m, k) % 65535
    requires k < HeaderLen(m) ==> k != 0 || v / 256 == m[0]
    requires k >= HeaderLen(m) ==> BodyCovered(m) && BodyCovered(SetWord(m, k, v))
    ensures var m' := SetWord(m, k, v); Readable(m', n) && CheckIp(m', n) < 0
  {
    var m' := SetWord(m, k, v);
    AcceptedIffSound(m, n);
    if LengthsAgree(m', n) {
      AcceptedIffSound(m', n);
      if k < HeaderLen(m) {
        SliceTotalSet(m, 0, HeaderLen(m), k, v);
        Incongruent(HeaderTotal(m), Word(m, k), v);
      } else {
        BodyChange(m, n, k, v);
      }
    }
  }

  lemma BodyChange(m: seq<byte>, n: nat, k: nat, v: u16)
    requires Readable(m, n) && Sound(m, n)
    requires k % 2 == 0 && 20 <= HeaderLen(m) <= k && k + 1 < n && v % 65535 != Word(m, k) % 65535
    requires BodyCovered(m) && BodyCovered(SetWord(m, k, v))
    ensures !Sound(SetWord(m, k, v), n)
  {
    BodyTotalsMove(m, n, k, v);
    Incongruent(PseudoTotal(m, n), Word(m, k), v);
    Incongruent(BodyTotal(m, n), Word(m, k), v);
  }

  lemma BodyTotalsMove(m: seq<byte>, n: nat, k: nat, v: u16)
    requires 20 <= n <= |m| && k % 2 == 0 && 20 <= HeaderLen(m) <= k && k + 1 < n
    ensures var m' := SetWord(m, k, v);
      && HeaderLen(m') == HeaderLen(m) && m'[9] == m[9]
      && BodyTotal(m', n) == BodyTotal(m, n) - Word(m, k) + v
      && PseudoTotal(m', n) == PseudoTotal(m, n) - Word(m, k) + v
  {
    SliceTotalSet(m, 12, 20, k, v);
    SliceTotalSet(m, HeaderLen(m), n, k, v);
  }

  lemma Incongruent(total: int, w: u16, v: u16)
    requires v % 65535 != w % 65535
    ensures Balanced(total) ==> !Balanced(total - w + v)
  {
  }

  // The same packet in other memory.
  predicate SamePacket(m: seq<byte>, m': seq<byte>, n: nat) {
    28 <= |m| && 28 <= |m'| && n <= |m| && n <= |m'| && m[..n] == m'[..n]
  }

  // What passes for an IPv4 packet has the 20 bytes of the fixed header, and a UDP
  // packet too short for its checksum field does not need the field to be 0.
  predicate Settled(m: seq<byte>, n: nat)
    requires Readable(m, n)
  {
    LengthsAgree(m, n) ==> 20 <= n && (m[9] == UDP && n < 28 ==> Passes(TransportSum(m, n)))
  }

  lemma StaleBytesAreIrrelevant(m: seq<byte>, m': seq<byte>, n: nat)
    requires Readable(m, n) && Settled(m, n) && CheckIp(m, n) == 0 && SamePacket(m, m', n)
    ensures Readable(m', n) && Settled(m', n) && CheckIp(m', n) == 0
  {
    var hl := HeaderLen(m);
    assert forall i :: 0 <= i < n ==> m'[i] == m[..n][i] == m[i];
    assert m'[..hl] == m[..hl] && m'[hl..n] == m[hl..n] && m'[12..20] == m[12..20];
  }

  // Acceptance is the packet's own, whatever lies behind it in memory, exactly when
  // it is Settled: a short UDP packet that fails its sum is accepted or not by two
  // bytes that are not its own.
  lemma OwnVerdictIffSettled(m: seq<byte>, n: nat)
    requires Readable(m, n) && CheckIp(m, n) == 0 && 20 <= n
    ensures Settled(m, n) <==>
      forall m' :: SamePacket(m, m', n) ==> Readable(m', n) && CheckIp(m', n) == 0
  {
    if Settled(m, n) {
      forall m' | SamePacket(m, m', n) ensures Readable(m', n) && CheckIp(m', n) == 0 {
        StaleBytesAreIrrelevant(m, m', n);
      }
    } else {
      StaleFieldDecides(m, n);
    }
  }

  lemma StaleFieldDecides(m: seq<byte>, n: nat)
    requires Readable(m, n) && CheckIp(m, n) == 0 && 20 <= n && !Settled(m, n)
    ensures var m' := SetWord(m, 26, 1); SamePacket(m, m', n) && Readable(m', n) && CheckIp(m', n) == -6
  {
    var m', hl := SetWord(m, 26, 1), HeaderLen(m);
    assert m'[..n] == m[..n];
    assert m'[..hl] == m[..hl] && m'[hl..n] == m[hl..n] && m'[12..20] == m[12..20];
  }

  // ---------- The identification patch ----------

  datatype Endian = Little | Big

  // The host value of two octets in memory that read w in network order; this is
  // ntohs and htons.
  function Host(e: Endian, w: u16): u16 {
    if e == Big then w else SwapBytes(w)
  }

  // A host value stored to a 16-bit field.
  function StoreWord(e: Endian, m: seq<byte>, k: nat, v: u16): seq<byte>
    requires k + 1 < |m|
  {
    SetWord(m, k, Host(e, v))
  }

  // The two field updates, carried out on host values as the source does.
  function PatchId(m: seq<byte>, id: u16, e: Endian): seq<byte>
    requires |m| >= 20
  {
    var nid := Host(e, id);
    var m1 := StoreWord(e, m, 4, nid);
    StoreWord(e, m1, 10, OcAdd(Host(e, Word(m1, 10)), 0xFFFF - nid))
  }

  // The patch leaves version, header length, total length and protocol alone.
  lemma PatchIsReadable(m: seq<byte>, n: nat, id: u16, e: Endian)
    requires Readable(m, n)
    ensures |PatchId(m, id, e)| == |m| && Readable(PatchId(m, id, e), n)
  {
  }

  function PatchedSum(m: seq<byte>, id: u16): u16
    requires |m| >= 20
  {
    Norm(Word(m, 10) + 0xFFFF - id)
  }

  lemma SwapComplement(w: u16)
    ensures SwapBytes(0xFFFF - w) == 0xFFFF - SwapBytes(w)
    ensures SwapBytes(SwapBytes(w)) == w
  {
    assert (0xFFFF - w) / 256 == 255 - w / 256 && (0xFFFF - w) % 256 == 255 - w % 256;
  }

  // In network order both machines do the same: store the id and subtract it
  // from the checksum in ones' complement.
  lemma PatchIsEndianFree(m: seq<byte>, id: u16, e: Endian)
    requires |m| >= 20
    ensures PatchId(m, id, e) == Patched(m, id)
  {
    HostTwice(id, e);
    var m1 := SetWord(m, 4, id);
    assert PatchId(m, id, e) == SetWord(m1, 10, Host(e, OcAdd(Host(e, Word(m1, 10)), 0xFFFF - Host(e, id))));
    SubtractIsEndianFree(Word(m1, 10), id, e);
    assert Word(m1, 10) == Word(m, 10);
  }

  lemma SubtractIsEndianFree(c: u16, id: u16, e: Endian)
    ensures Host(e, OcAdd(Host(e, c), 0xFFFF - Host(e, id))) == Norm(c + 0xFFFF - id)
    ensures Host(e, Host(e, id)) == id
  {
    OcAddIsNorm(c, 0xFFFF - id);
    HostTwice(id, e);
    if e == Little {
      SubtractSwapped(c, id);
    }
  }

  lemma HostTwice(w: u16, e: Endian)
    ensures Host(e, Host(e, w)) == w
  {
    SwapComplement(w);
  }

  lemma SubtractSwapped(c: u16, id: u16)
    ensures SwapBytes(OcAdd(SwapBytes(c), 0xFFFF - SwapBytes(id))) == OcAdd(c, 0xFFFF - id)
  {
    var d: u16 := 0xFFFF - id;
    SwapComplement(id);
    SwapOfAdd(c, d);
    SwapComplement(OcAdd(c, d));
  }

  lemma PatchBalance(c: u16, id: u16)
    ensures Balanced(Norm(c + 0xFFFF - id) - c + id)
    ensures Balanced(Norm(c + 0xFFFF - id) - c) <==> id % 65535 == 0
  {
    var x := c + 0xFFFF - id;
    var k := if x == 0 then 0 else (x - 1) / 65535;
    assert x == Norm(x) + 65535 * k;
  }

  // Rewriting a zero identification keeps an accepted packet accepted, on either
  // kind of machine and for every new id, except that a header of 8 bytes (which
  // covers the id but not the checksum) survives only ids congruent to 0.
  lemma PatchKeepsAcceptance(m: seq<byte>, n: nat, id: u16, e: Endian)
    requires Readable(m, n) && CheckIp(m, n) == 0 && Word(m, 4) == 0 && 20 <= n
    ensures var m' := PatchId(m, id, e); Readable(m', n)
    ensures CheckIp(PatchId(m, id, e), n) == 0 <==> HeaderLen(m) != 8 || id % 65535 == 0
  {
    PatchIsEndianFree(m, id, e);
    AcceptedIffSound(m, n);
    PatchKeepsSoundness(m, n, id);
    AcceptedIffSound(PatchId(m, id, e), n);
  }

  function Patched(m: seq<byte>, id: u16): seq<byte>
    requires |m| >= 20
  {
    SetWord(SetWord(m, 4, id), 10, PatchedSum(m, id))
  }

  // Two packets that differ only in what their header and body words add up to.
  ghost predicate Shifted(m: seq<byte>, m': seq<byte>, n: nat, header: int, body: int)
    requires Readable(m, n) && LengthsAgree(m, n)
  {
    && Readable(m', n) && LengthsAgree(m', n)
    && HeaderLen(m') == HeaderLen(m) && m'[9] == m[9] && Word(m', 26) == Word(m, 26)
    && m'[12..20] == m[12..20]
    && HeaderTotal(m') == HeaderTotal(m) + header
    && BodyTotal(m', n) == BodyTotal(m, n) + body
  }

  lemma BalanceShift(total: int, moved: int)
    requires Balanced(moved)
    ensures Balanced(total + moved) <==> Balanced(total)
  {
  }

  lemma ShiftKeepsSoundness(m: seq<byte>, m': seq<byte>, n: nat, header: int, body: int)
    requires Readable(m, n) && Sound(m, n) && Shifted(m, m', n, header, body)
    ensures Sound(m', n) ==> Balanced(header)
    ensures Balanced(header) && Balanced(body) ==> Sound(m', n)
  {
    BalanceShift(header, HeaderTotal(m));
    if Balanced(body) {
      BalanceShift(BodyTotal(m, n), body);
      BalanceShift(PseudoTotal(m, n), body);
    }
  }

  // The id at offset 4 and the checksum at offset 10, moved by d, count in the header
  // or in the body depending on the header's length.
  function HeaderShift(hl: nat, id: u16, d: int): int {
    (if hl > 4 then id else 0) + (if hl > 8 then d else 0)
  }

  function BodyShift(hl: nat, id: u16, d: int): int {
    (if hl > 4 then 0 else id) + (if hl > 8 then 0 else d)
  }

  lemma SplitBalance(hl: nat, id: u16, d: int)
    requires hl % 4 == 0 && Balanced(d + id) && (Balanced(d) <==> id % 65535 == 0)
    ensures Balanced(HeaderShift(hl, id, d)) <==> hl != 8 || id % 65535 == 0
    ensures Balanced(HeaderShift(hl, id, d)) ==> Balanced(BodyShift(hl, id, d))
  {
  }

  lemma PatchKeepsSoundness(m: seq<byte>, n: nat, id: u16)
    requires Readable(m, n) && Sound(m, n) && Word(m, 4) == 0 && 20 <= n
    ensures Readable(Patched(m, id), n)
    ensures Sound(Patched(m, id), n) <==> HeaderLen(m) != 8 || id % 65535 == 0
  {
    PatchShifts(m, n, id);
    PatchBalance(Word(m, 10), id);
    BalancedShift(m, Patched(m, id), n, id, PatchedSum(m, id) - Word(m, 10));
  }

  lemma BalancedShift(m: seq<byte>, m': seq<byte>, n: nat, id: u16, d: int)
    requires Readable(m, n) && Sound(m, n)
    requires Shifted(m, m', n, HeaderShift(HeaderLen(m), id, d), BodyShift(HeaderLen(m), id, d))
    requires Balanced(d + id) && (Balanced(d) <==> id % 65535 == 0)
    ensures Sound(m', n) <==> HeaderLen(m) != 8 || id % 65535 == 0
  {
    var hl := HeaderLen(m);
    SplitBalance(hl, id, d);
    ShiftKeepsSoundness(m, m', n, HeaderShift(hl, id, d), BodyShift(hl, id, d));
  }

  // A word outside the inspected fields counts in the header or in the body.
  lemma SetShifts(m: seq<byte>, n: nat, k: nat, v: u16)
    requires Readable(m, n) && LengthsAgree(m, n) && 20 <= n && k in {4, 10}
    ensures var d := v - Word(m, k);
      Shifted(m, SetWord(m, k, v), n, if k < HeaderLen(m) then d else 0, if k < HeaderLen(m) then 0 else d)
  {
    SliceTotalSet(m, 0, HeaderLen(m), k, v);
    SliceTotalSet(m, HeaderLen(m), n, k, v);
  }

  lemma PatchShifts(m: seq<byte>, n: nat, id: u16)
    requires Readable(m, n) && LengthsAgree(m, n) && Word(m, 4) == 0 && 20 <= n
    ensures var hl, d := HeaderLen(m), PatchedSum(m, id) - Word(m, 10);
      Shifted(m, Patched(m, id), n, HeaderShift(hl, id, d), BodyShift(hl, id, d))
  {
    SetShifts(m, n, 4, id);
    SetShifts(SetWord(m, 4, id), n, 10, PatchedSum(m, id));
  }

  // Whenever the patch keeps the header sum it keeps the transport sum.
  lemma PatchKeepsTransportSum(m: seq<byte>, n: nat, id: u16)
    requires Readable(m, n) && LengthsAgree(m, n) && Word(m, 4) == 0 && 20 <= n
    requires HeaderLen(m) != 8 || id % 65535 == 0
    ensures Readable(Patched(m, id), n) && LengthsAgree(Patched(m, id), n)
    ensures Passes(TransportSum(Patched(m, id), n)) <==> Passes(TransportSum(m, n))
  {
    PatchShifts(m, n, id);
    PatchBalance(Word(m, 10), id);
    SumShift(m, Patched(m, id), n, id, PatchedSum(m, id) - Word(m, 10));
  }

  lemma SumShift(m: seq<byte>, m': seq<byte>, n: nat, id: u16, d: int)
    requires Readable(m, n) && LengthsAgree(m, n) && 20 <= n && (HeaderLen(m) != 8 || id % 65535 == 0)
    requires Shifted(m, m', n, HeaderShift(HeaderLen(m), id, d), BodyShift(HeaderLen(m), id, d))
    requires Balanced(d + id) && (Balanced(d) <==> id % 65535 == 0)
    ensures Passes(TransportSum(m', n)) <==> Passes(TransportSum(m, n))
  {
    var hl := HeaderLen(m);
    SplitBalance(hl, id, d);
    BalanceShift(PseudoTotal(m, n), BodyShift(hl, id, d));
    TransportSumIsPseudoTotal(m, n);
    TransportSumIsPseudoTotal(m', n);
    PassesIffBalanced(PseudoTotal(m, n));
    PassesIffBalanced(PseudoTotal(m', n));
  }

  // In a header of 8 bytes the id counts and the checksum does not.
  lemma SpoiltCode(m: seq<byte>, n: nat, id: u16)
    requires Readable(m, n) && Sound(m, n) && Word(m, 4) == 0 && 20 <= n
    requires HeaderLen(m) == 8 && id % 65535 != 0
    ensures Readable(Patched(m, id), n) && CheckIp(Patched(m, id), n) == -4
  {
    var d := PatchedSum(m, id) - Word(m, 10);
    PatchShifts(m, n, id);
    UnbalancedHeader(m, Patched(m, id), n, HeaderShift(8, id, d), BodyShift(8, id, d));
  }

  lemma UnbalancedHeader(m: seq<byte>, m': seq<byte>, n: nat, header: int, body: int)
    requires Readable(m, n) && Sound(m, n) && Shifted(m, m', n, header, body) && !Balanced(header)
    ensures CheckIp(m', n) == -4
  {
    BalanceShift(header, HeaderTotal(m));
    PassesIffBalanced(HeaderTotal(m'));
  }
}
