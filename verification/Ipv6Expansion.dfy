/** The "::" expansion ifconf performs on its own text address. */
module Ipv6Expansion {
  import opened Bytes

  // ---------- Text ----------

  predicate IsHex(c: char) {
    '0' <= c <= '9' || 'a' <= c <= 'f' || 'A' <= c <= 'F'
  }

  // c & 0xdf for a letter is its upper case.
  function Digit(c: char): (d: nat)
    requires IsHex(c)
    ensures d < 16
  {
    if c <= '9' then c as int - '0' as int
    else 10 + (if c >= 'a' then c as int - 0x20 else c as int) - 'A' as int
  }

  // A digit is worth its place in either row.
  lemma DigitMeans(i: nat)
    requires i < 16
    ensures var lower, upper := "0123456789abcdef"[i], "0123456789ABCDEF"[i];
      IsHex(lower) && IsHex(upper) && Digit(lower) == Digit(upper) == i
  {
  }

  lemma OnlyDigitsAreHex(c: char)
    ensures IsHex(c) <==> c in "0123456789abcdefABCDEF"
  {
    if IsHex(c) {
      assert c in "0123456789" || c in "abcdef" || c in "ABCDEF" by {
        var i := Digit(c);
        assert c == "0123456789abcdef"[i] || c == "0123456789ABCDEF"[i];
      }
    }
  }

  predicate IsGroup(g: string) {
    1 <= |g| <= 4 && forall i :: 0 <= i < |g| ==> IsHex(g[i])
  }

  type Group = g: string | IsGroup(g) witness "0"

  function Number(g: string): nat
    requires forall i :: 0 <= i < |g| ==> IsHex(g[i])
  {
    if g == "" then 0 else Number(g[..|g| - 1]) * 16 + Digit(g[|g| - 1])
  }

  function Values(gs: seq<Group>): (vs: seq<u16>)
    ensures |vs| == |gs|
  {
    if gs == [] then []
    else NumberFits(gs[|gs| - 1]); Values(gs[..|gs| - 1]) + [Number(gs[|gs| - 1])]
  }

  lemma NumberFits(g: Group)
    ensures Number(g) < 0x1_0000
  {
    NumberBound(g);
  }

  lemma {:induction false} NumberBound(g: string)
    requires |g| <= 4 && forall i :: 0 <= i < |g| ==> IsHex(g[i])
    ensures Number(g) < [1, 0x10, 0x100, 0x1000, 0x1_0000][|g|]
  {
    if g != "" {
      NumberBound(g[..|g| - 1]);
    }
  }

  function Join(gs: seq<Group>): string {
    if gs == [] then ""
    else if |gs| == 1 then gs[0]
    else Join(gs[..|gs| - 1]) + ":" + gs[|gs| - 1]
  }

  function Zeros(n: nat): seq<u16> {
    seq(n, _ => 0)
  }

  // ---------- The scanning loop ----------

  datatype Scan = Scan(a: seq<u16>, ai: nat, cc: bool, scc: nat, stop: bool)

  predicate InRange(st: Scan) {
    |st.a| == 8 && st.scc <= st.ai <= 8 && (!st.stop ==> st.ai <= 7)
  }

  predicate IsAddressChar(c: char) {
    IsHex(c) || c == ':'
  }

  predicate IsAddress(s: string) {
    forall i :: 0 <= i < |s| ==> IsAddressChar(s[i])
  }

  function ScanChar(st: Scan, c: char): (st': Scan)
    requires InRange(st) && (!st.stop ==> IsAddressChar(c))
    ensures InRange(st')
  {
    if st.stop then st
    else if c == ':' then
      Scan(st.a, st.ai + 1, true, if st.cc then st.ai else st.scc, st.ai + 1 > 7)
    else
      st.(cc := false, a := st.a[st.ai := (st.a[st.ai] as int * 16 + Digit(c)) % 0x1_0000])
  }

  const START: Scan := Scan(Zeros(8), 0, false, 0, false)

  function ScanAll(st: Scan, s: string): (st': Scan)
    requires InRange(st)
    requires IsAddress(s)
    ensures InRange(st')
  {
    if s == "" then st else ScanChar(ScanAll(st, s[..|s| - 1]), s[|s| - 1])
  }

  lemma {:induction false} ScanConcat(st: Scan, s: string, t: string)
    requires InRange(st)
    requires IsAddress(s)
    requires IsAddress(t)
    ensures ScanAll(st, s + t) == ScanAll(ScanAll(st, s), t)
    decreases |t|
  {
    if t == "" {
      assert s + t == s;
    } else {
      ScanConcat(st, s, t[..|t| - 1]);
      assert (s + t)[..|s + t| - 1] == s + t[..|t| - 1];
    }
  }

  // ---------- The shifting loop ----------

  // Slot k after i turns: the last i slots have been filled from the slots that
  // end at ai, as far as those lie behind scc, and the latter are left zero.
  function Slot(s: seq<u16>, ai: nat, scc: nat, i: nat, k: nat): u16
    requires |s| == 8 && scc <= ai <= 6 && i <= 8 - ai && k < 8
  {
    if k > 7 - i then (if ai + k - 7 > scc then s[ai + k - 7] else 0)
    else if k > scc && ai - i < k <= ai then 0
    else s[k]
  }

  // What the loop leaves. With one group elided, the only turn moves the last
  // slot onto itself and then clears it.
  function Shifted(s: seq<u16>, ai: nat, scc: nat): (r: seq<u16>)
    requires |s| == 8 && scc <= ai <= 8
    ensures |r| == 8
  {
    if ai == 8 then s
    else if ai == 7 then s[7 := 0]
    else (seq(8, k requires 0 <= k < 8 => Slot(s, ai, scc, 8 - ai, k)))
  }

  method Shift(a: array<u16>, ai: nat, scc: nat)
    requires a.Length == 8 && scc <= ai <= 8
    modifies a
    ensures a[..] == Shifted(old(a[..]), ai, scc)
  {
    ghost var s := a[..];
    var cc := 8 - ai;
    for i := 0 to cc
      invariant i == 0 ==> a[..] == s
      invariant ai == 7 && i == 1 ==> a[..] == s[7 := 0]
      invariant ai < 7 ==> forall k :: 0 <= k < 8 ==> a[k] == Slot(s, ai, scc, i, k)
    {
      ghost var prev := a[..];
      if 8 - i - cc <= scc {
        a[7 - i] := 0;
      } else {
        a[7 - i] := a[8 - i - cc];
        a[8 - i - cc] := 0;
      }
      if ai < 7 {
        forall k | 0 <= k < 8 ensures a[k] == Slot(s, ai, scc, i + 1, k) {
          assert prev[k] == Slot(s, ai, scc, i, k);
          assert ai - i > scc ==> prev[ai - i] == Slot(s, ai, scc, i, ai - i) == s[ai - i];
        }
      }
    }
  }

  // ---------- When the shift is the expansion ----------

  function Slots(vs: seq<u16>): (s: seq<u16>)
    requires |vs| <= 8
    ensures |s| == 8
  {
    vs + Zeros(8 - |vs|)
  }

  // l: the slots before the elided groups, r: those behind them.
  predicate Placed(l: seq<u16>, r: seq<u16>)
    requires l != [] && r != [] && |l| + |r| <= 7
  {
    var elided := 8 - |l| - |r|;
    if elided == 1 then r[|r| - 1] == 0
    else forall j :: 0 <= j < |r| - elided ==> r[j] == 0
  }

  lemma PlacedSuffices(l: seq<u16>, r: seq<u16>, k: nat)
    requires l != [] && r != [] && |l| + |r| <= 6 && Placed(l, r) && k < 8
    ensures Slot(Slots(l + [0] + r), |l| + |r|, |l|, 8 - |l| - |r|, k)
         == (l + Zeros(8 - |l| - |r|) + r)[k]
  {
  }

  lemma {:induction false} PlacedIsNecessary(l: seq<u16>, r: seq<u16>, j: nat)
    requires l != [] && r != [] && |l| + |r| <= 6 && j < |r| - (8 - |l| - |r|)
    requires Shifted(Slots(l + [0] + r), |l| + |r|, |l|) == l + Zeros(8 - |l| - |r|) + r
    ensures r[j] == 0
    decreases j
  {
    var e, k := 8 - |l| - |r|, |l| + 1 + j;
    var s, x := Slots(l + [0] + r), l + Zeros(e) + r;
    assert Shifted(s, |l| + |r|, |l|)[k] == Slot(s, |l| + |r|, |l|, e, k) == s[k] == r[j];
    if j + 1 < e {
      assert x[k] == 0;
    } else {
      assert x[k] == r[j + 1 - e];
      PlacedIsNecessary(l, r, j + 1 - e);
    }
  }

  // The slots behind "::" end up in place exactly when the loop has turns enough
  // to move them all, or those it does not reach are zero; when "::" stands for a
  // single group, exactly when the last group is zero.
  lemma ShiftIsExpansionIff(l: seq<u16>, r: seq<u16>)
    requires l != [] && r != [] && |l| + |r| <= 7
    ensures Shifted(Slots(l + [0] + r), |l| + |r|, |l|) == l + Zeros(8 - |l| - |r|) + r <==> Placed(l, r)
  {
    var s, e := Slots(l + [0] + r), 8 - |l| - |r|;
    var y, x := Shifted(s, |l| + |r|, |l|), l + Zeros(e) + r;
    if e == 1 {
      assert s == x && y == x[7 := 0] && x[7] == r[|r| - 1];
    } else {
      if Placed(l, r) {
        forall k | 0 <= k < 8 ensures y[k] == x[k] {
          PlacedSuffices(l, r, k);
        }
      }
      if y == x {
        forall j | 0 <= j < |r| - e ensures r[j] == 0 {
          PlacedIsNecessary(l, r, j);
        }
      }
    }
  }

  // ---------- From the text ----------

  lemma {:induction false} JoinIsAddress(gs: seq<Group>)
    ensures IsAddress(Join(gs))
  {
    if gs != [] {
      JoinIsAddress(gs[..|gs| - 1]);
    }
  }

  // The scanner in front of a fresh slot, after the slots vs.
  function At(vs: seq<u16>, cc: bool, scc: nat): Scan
    requires |vs| <= 7
  {
    Scan(Slots(vs), |vs|, cc, scc, false)
  }

  lemma {:induction false} ScanDigits(vs: seq<u16>, cc: bool, scc: nat, g: string)
    requires |vs| <= 7 && scc <= |vs| && 1 <= |g| <= 4 && forall i :: 0 <= i < |g| ==> IsHex(g[i])
    ensures Number(g) < 0x1_0000
    ensures ScanAll(At(vs, cc, scc), g) == Scan(Slots(vs + [Number(g)]), |vs|, false, scc, false)
  {
    var front, st := g[..|g| - 1], At(vs, cc, scc);
    NumberBound(g);
    NumberBound(front);
    if |g| == 1 {
      assert front == "";
      assert st.a[|vs| := Number(g)] == Slots(vs + [Number(g)]);
    } else {
      ScanDigits(vs, cc, scc, front);
      assert Slots(vs + [Number(front)])[|vs| := Number(g)] == Slots(vs + [Number(g)]);
    }
  }

  lemma {:induction false} ScanGroups(vs: seq<u16>, cc: bool, scc: nat, gs: seq<Group>)
    requires gs != [] && |vs| + |gs| <= 8 && scc <= |vs|
    ensures IsAddress(Join(gs))
    ensures ScanAll(At(vs, cc, scc), Join(gs))
         == Scan(Slots(vs + Values(gs)), |vs| + |gs| - 1, false, scc, false)
  {
    JoinIsAddress(gs);
    var front, g := gs[..|gs| - 1], gs[|gs| - 1];
    if front == [] {
      ScanDigits(vs, cc, scc, g);
      assert Values(gs) == [Number(g)];
    } else {
      var vs' := vs + Values(front);
      ScanGroups(vs, cc, scc, front);
      ScanConcat(At(vs, cc, scc), Join(front) + ":", g);
      ScanConcat(At(vs, cc, scc), Join(front), ":");
      ScanColon(ScanAll(At(vs, cc, scc), Join(front)));
      ScanDigits(vs', true, scc, g);
      assert vs + Values(gs) == vs' + [Number(g)];
    }
  }

  lemma ScanColon(st: Scan)
    requires InRange(st)
    ensures ScanAll(st, ":") == ScanChar(st, ':')
  {
    assert ":"[..0] == "";
  }

  lemma {:induction false} StopIsFinal(st: Scan, s: string)
    requires InRange(st) && st.stop && IsAddress(s)
    ensures ScanAll(st, s) == st
  {
    if s != "" {
      StopIsFinal(st, s[..|s| - 1]);
    }
  }

  lemma ScanSnoc(st: Scan, s: string, c: char)
    requires InRange(st) && IsAddress(s) && IsAddressChar(c)
    ensures IsAddress(s + [c]) && ScanAll(st, s + [c]) == ScanChar(ScanAll(st, s), c)
  {
    assert (s + [c])[..|s|] == s;
  }

  // The address in front of an optional "/prefix-length".
  function Body(s: string): (b: string)
    ensures |b| <= |s|
  {
    if s == "" || s[0] == '/' then "" else [s[0]] + Body(s[1..])
  }

  // What is in front of the first '/', or everything.
  lemma {:induction false} BodyMeans(s: string, rest: string)
    requires '/' !in s
    ensures Body(s) == s && Body(s + "/" + rest) == s
  {
    var t := s + "/" + rest;
    if s == "" {
      assert t[0] == '/';
    } else {
      BodyMeans(s[1..], rest);
      assert t[0] == s[0] && t[1..] == s[1..] + "/" + rest;
    }
  }

  function Expansion(body: string): seq<u16>
    requires IsAddress(body)
  {
    var st := ScanAll(START, body);
    Shifted(st.a, st.ai, st.scc)
  }

  lemma ScanNext(rest: string, done: string, body: string)
    requires rest != "" && rest[0] != '/' && IsAddress(body)
    requires IsAddress(done) && done + Body(rest) == body
    ensures var c := rest[0];
      && IsAddress(done + [c]) && done + [c] + Body(rest[1..]) == body
      && ScanAll(START, done + [c]) == ScanChar(ScanAll(START, done), c)
  {
    var c := rest[0];
    assert body[|done|] == c;
    ConcatAssoc(done, [c], Body(rest[1..]));
    ScanSnoc(START, done, c);
  }

  // The parse loop of ifconf; `rest` is what the advancing pointer still points at.
  method Parse(ptr: string) returns (a: array<u16>, ai: nat, scc: nat)
    requires IsAddress(Body(ptr))
    ensures fresh(a) && a.Length == 8
    ensures var st := ScanAll(START, Body(ptr)); a[..] == st.a && ai == st.ai && scc == st.scc
  {
    a := new u16[8](_ => 0);
    ai, scc := 0, 0;
    var cc, rest := false, ptr;
    ghost var done: string := "";
    assert a[..] == Zeros(8) && done + Body(rest) == Body(ptr);
    while rest != "" && rest[0] != '/' && ai <= 7
      invariant scc <= ai <= 8
      invariant IsAddress(done) && done + Body(rest) == Body(ptr)
      invariant ScanAll(START, done) == Scan(a[..], ai, cc, scc, ai > 7)
      decreases |rest|
    {
      var c := rest[0];
      ScanNext(rest, done, Body(ptr));
      done := done + [c];
      ai, cc, scc := ParseChar(a, ai, cc, scc, c);
      rest := rest[1..];
    }
    ScanRest(done, Body(rest), Body(ptr));
  }

  // The body of the loop.
  method ParseChar(a: array<u16>, ai: nat, cc: bool, scc: nat, c: char) returns (ai': nat, cc': bool, scc': nat)
    requires a.Length == 8 && scc <= ai <= 7 && IsAddressChar(c)
    modifies a
    ensures Scan(a[..], ai', cc', scc', ai' > 7) == ScanChar(Scan(old(a[..]), ai, cc, scc, false), c)
  {
    ai', cc', scc' := ai, cc, scc;
    if c == ':' {
      if cc {
        scc' := ai;
      }
      cc', ai' := true, ai + 1;
    } else {
      cc' := false;
      a[ai] := (a[ai] as int * 16 + Digit(c)) % 0x1_0000;
    }
  }

  // The parse and the shift after it.
  method Expand(ptr: string) returns (a: array<u16>)
    requires IsAddress(Body(ptr))
    ensures fresh(a) && a[..] == Expansion(Body(ptr))
  {
    var ai, scc;
    a, ai, scc := Parse(ptr);
    Shift(a, ai, scc);
  }

  lemma ScanRest(done: string, rest: string, body: string)
    requires IsAddress(done) && IsAddress(body) && done + rest == body
    requires ScanAll(START, done).stop || rest == ""
    ensures ScanAll(START, body) == ScanAll(START, done)
  {
    assert IsAddress(rest) by {
      assert forall i :: 0 <= i < |rest| ==> rest[i] == body[|done| + i];
    }
    ScanConcat(START, done, rest);
    if rest != "" {
      StopIsFinal(ScanAll(START, done), rest);
    }
  }

  // ---------- Exactly when the written address is expanded ----------

  function Text(left: seq<Group>, right: seq<Group>): string {
    Join(left) + "::" + Join(right)
  }

  // Section 2.2 of RFC 4291: "::" stands for as many zero groups as make eight.
  function Canonical(left: seq<Group>, right: seq<Group>): seq<u16>
    requires |left| + |right| <= 7
  {
    Values(left) + Zeros(8 - |left| - |right|) + Values(right)
  }

  // An end of the text that "::" leaves empty still takes up a zero slot.
  function Side(gs: seq<Group>): (vs: seq<u16>)
    ensures vs != [] && |vs| <= |gs| + 1
  {
    if gs == [] then [0] else Values(gs)
  }

  predicate Expandable(left: seq<Group>, right: seq<Group>)
    requires |left| + |right| <= 7
  {
    var l, r := Side(left), Side(right);
    if |l| + |r| <= 7 then Placed(l, r)
    else right == [] || forall j :: 0 <= j < |right| ==> r[j] == 0
  }

  lemma ZeroSlot(vs: seq<u16>)
    requires |vs| <= 7
    ensures Slots(vs + [0]) == Slots(vs)
  {
  }

  lemma TwoColons(st: Scan)
    requires InRange(st) && !st.stop && !st.cc && st.ai <= 6
    ensures ScanChar(ScanChar(st, ':'), ':') == Scan(st.a, st.ai + 2, true, st.ai + 1, st.ai + 2 > 7)
  {
  }

  // The scanner behind the slots l and "::".
  function Gap(l: seq<u16>): Scan
    requires l != [] && |l| <= 7
  {
    Scan(Slots(l + [0]), |l| + 1, true, |l|, |l| + 1 > 7)
  }

  lemma ScanTwoColons(s: string)
    requires IsAddress(s)
    requires var st := ScanAll(START, s); !st.stop && !st.cc && st.ai <= 6
    ensures IsAddress(s + "::")
    ensures var st := ScanAll(START, s);
      ScanAll(START, s + "::") == Scan(st.a, st.ai + 2, true, st.ai + 1, st.ai + 2 > 7)
  {
    var s1 := s + [':'];
    ScanSnoc(START, s, ':');
    ScanSnoc(START, s1, ':');
    TwoColons(ScanAll(START, s));
    assert s1 + [':'] == s + "::";
  }

  lemma ScanLeftEmpty()
    ensures IsAddress("::") && ScanAll(START, "::") == Gap([0])
  {
    ScanTwoColons("");
    assert "" + "::" == "::" && START.a == Slots([0] + [0]);
  }

  lemma ScanLeftGroups(left: seq<Group>)
    requires left != [] && |left| <= 7
    ensures IsAddress(Join(left))
    ensures ScanAll(START, Join(left)) == Scan(Slots(Values(left)), |left| - 1, false, 0, false)
  {
    ScanGroups([], false, 0, left);
    assert START == At([], false, 0);
    assert [] + Values(left) == Values(left);
  }

  lemma ScanLeft(left: seq<Group>)
    requires |left| <= 7
    ensures IsAddress(Join(left) + "::")
    ensures ScanAll(START, Join(left) + "::") == Gap(Side(left))
  {
    if left == [] {
      ScanLeftEmpty();
      assert Join(left) + "::" == "::";
    } else {
      ScanLeftGroups(left);
      ScanTwoColons(Join(left));
      ZeroSlot(Values(left));
    }
  }

  lemma ScanRight(l: seq<u16>, right: seq<Group>)
    requires l != [] && |l| + |Side(right)| <= 7
    ensures IsAddress(Join(right))
    ensures var r := Side(right); var st := ScanAll(Gap(l), Join(right));
      st.a == Slots(l + [0] + r) && st.ai == |l| + |r| && st.scc == |l|
  {
    if right == [] {
      ZeroSlot(l + [0]);
    } else {
      assert Gap(l) == At(l + [0], true, |l|);
      ScanGroups(l + [0], true, |l|, right);
    }
  }

  lemma ScanText(left: seq<Group>, right: seq<Group>)
    requires |left| + |right| <= 7
    ensures IsAddress(Text(left, right)) && IsAddress(Join(right))
    ensures ScanAll(START, Text(left, right)) == ScanAll(Gap(Side(left)), Join(right))
  {
    JoinIsAddress(right);
    ScanLeft(left);
    ScanConcat(START, Join(left) + "::", Join(right));
  }

  // Seven groups in front of "::": the text is used up with the slots.
  lemma SevenInFront(left: seq<Group>)
    requires |left| == 7
    ensures IsAddress(Text(left, [])) && Expansion(Text(left, [])) == Values(left) + [0]
  {
    ScanText(left, []);
    assert Slots(Values(left) + [0]) == Values(left) + [0];
  }

  // Seven groups behind "::": the slots are used up before the last group.
  lemma SevenBehind(right: seq<Group>)
    requires |right| == 7
    ensures IsAddress(Text([], right)) && Expansion(Text([], right)) == [0, 0] + Values(right)[..6]
  {
    var six, vs: seq<u16> := right[..6], [0, 0];
    ScanText([], right);
    assert [0] + [0] == vs && Gap([0]) == At(vs, true, 1);
    ScanGroups(vs, true, 1, six);
    var st := ScanAll(At(vs, true, 1), Join(six));
    ScanSnoc(At(vs, true, 1), Join(six), ':');
    assert ScanChar(st, ':').stop;
    StopIsFinal(ScanChar(st, ':'), right[6]);
    ScanConcat(At(vs, true, 1), Join(six) + ":", right[6]);
    assert Join(right) == Join(six) + ":" + right[6];
    assert Slots(vs + Values(six)) == vs + Values(right)[..6];
  }

  lemma ShiftedByOne(r: seq<u16>)
    requires |r| == 7
    ensures [0, 0] + r[..6] == [0] + r <==> forall j :: 0 <= j < 7 ==> r[j] == 0
  {
    var x, y: seq<u16> := [0, 0] + r[..6], [0] + r;
    if x == y {
      assert x[1] == 0 == y[1] == r[0];
      assert x[2] == r[0] && y[2] == r[1] && x[3] == r[1] && y[3] == r[2] && x[4] == r[2] && y[4] == r[3];
      assert x[5] == r[3] && y[5] == r[4] && x[6] == r[4] && y[6] == r[5] && x[7] == r[5] && y[7] == r[6];
    }
  }

  lemma CanonicalBySides(left: seq<Group>, right: seq<Group>)
    requires |left| + |right| <= 7 && |Side(left)| + |Side(right)| <= 7
    ensures var l, r := Side(left), Side(right);
      Canonical(left, right) == l + Zeros(8 - |l| - |r|) + r
  {
  }

  // For every address with "::", the eight groups are right exactly when it is
  // Expandable.
  lemma ExpansionIsCanonicalIff(left: seq<Group>, right: seq<Group>)
    requires |left| + |right| <= 7
    ensures IsAddress(Text(left, right))
    ensures Expansion(Text(left, right)) == Canonical(left, right) <==> Expandable(left, right)
  {
    if |Side(left)| + |Side(right)| <= 7 {
      ShortForms(left, right);
    } else if right == [] {
      SevenInFrontIsCanonical(left);
    } else {
      assert left == [];
      SevenBehindIff(right);
    }
  }

  lemma SevenInFrontIsCanonical(left: seq<Group>)
    requires |left| == 7
    ensures IsAddress(Text(left, [])) && Expansion(Text(left, [])) == Canonical(left, [])
  {
    SevenInFront(left);
    assert Canonical(left, []) == Values(left) + [0];
  }

  lemma SevenBehindIff(right: seq<Group>)
    requires |right| == 7
    ensures IsAddress(Text([], right))
    ensures Expansion(Text([], right)) == Canonical([], right) <==> Expandable([], right)
  {
    assert Side([]) == [0] && Side(right) == Values(right);
    SevenBehind(right);
    ShiftedByOne(Values(right));
    assert Canonical([], right) == [0] + Values(right);
  }

  lemma ShortForms(left: seq<Group>, right: seq<Group>)
    requires |left| + |right| <= 7 && |Side(left)| + |Side(right)| <= 7
    ensures IsAddress(Text(left, right))
    ensures Expansion(Text(left, right)) == Canonical(left, right) <==> Placed(Side(left), Side(right))
  {
    ExpansionBySides(left, right);
    ShiftIsExpansionIff(Side(left), Side(right));
    CanonicalBySides(left, right);
  }

  lemma ExpansionBySides(left: seq<Group>, right: seq<Group>)
    requires |left| + |right| <= 7 && |Side(left)| + |Side(right)| <= 7
    ensures IsAddress(Text(left, right))
    ensures var l, r := Side(left), Side(right);
      Expansion(Text(left, right)) == Shifted(Slots(l + [0] + r), |l| + |r|, |l|)
  {
    ScanText(left, right);
    ScanRight(Side(left), right);
  }

  // In particular: two or more groups elided, and no more groups behind "::"
  // than that.
  lemma EnoughElided(left: seq<Group>, right: seq<Group>)
    requires |left| + |right| <= 7
    requires var e := 8 - |Side(left)| - |Side(right)|; e >= 2 && |Side(right)| <= e
    ensures IsAddress(Text(left, right)) && Expansion(Text(left, right)) == Canonical(left, right)
  {
    ExpansionIsCanonicalIff(left, right);
  }

  // Two addresses it gets wrong: "1::2:3:4:5:6" elides two groups but has five
  // behind them, and "1::2:3:4:5:6:7" elides one.
  lemma NotAlwaysExpanded(right: seq<Group>)
    requires right == ["2", "3", "4", "5", "6"] || right == ["2", "3", "4", "5", "6", "7"]
    ensures IsAddress(Text(["1"], right)) && Expansion(Text(["1"], right)) != Canonical(["1"], right)
  {
    ExpansionIsCanonicalIff(["1"], right);
    FirstValue(right);
    LastValue(right);
  }

  lemma LastValue(gs: seq<Group>)
    requires gs != []
    ensures Values(gs)[|gs| - 1] == Number(gs[|gs| - 1])
    ensures Number("7") == 7 && Number("2") == 2
  {
    assert "7"[..0] == "" && "2"[..0] == "";
  }

  lemma {:induction false} FirstValue(gs: seq<Group>)
    requires gs != []
    ensures Values(gs)[0] == Number(gs[0])
  {
    if |gs| > 1 {
      FirstValue(gs[..|gs| - 1]);
    }
  }

  // An address written in full, without "::", loses its last group.
  lemma FullFormLosesLastGroup(gs: seq<Group>)
    requires |gs| == 8
    ensures IsAddress(Join(gs)) && Expansion(Join(gs)) == Values(gs)[7 := 0]
  {
    assert START == At([], false, 0);
    ScanGroups([], false, 0, gs);
    assert [] + Values(gs) == Values(gs) == Slots(Values(gs));
  }
}
