/** The 16-bit sum with end-around carry of ip4sum, and its algebra. */
module OnesComplement {
  import opened Bytes

  // The representative of n that end-around carry produces: 0 only for 0,
  // otherwise the residue modulo 65535 taken in 1..65535.
  function Norm(n: nat): (r: u16)
    ensures r == 0 <==> n == 0
    ensures r % 65535 == n % 65535
  {
    if n == 0 then 0 else 1 + (n - 1) % 65535
  }

  // One step of the source's loop: a wrapping 16-bit addition, then the carry.
  function OcAdd(a: u16, b: u16): u16 {
    var s := (a + b) % 0x1_0000;
    if s < b then s + 1 else s
  }

  // The total of the big-endian words of p; an odd last byte is a high half.
  function WordSum(p: seq<byte>): nat {
    SumFrom(p, 0)
  }

  function SumFrom(p: seq<byte>, i: nat): nat
    requires i <= |p|
    decreases |p| - i
  {
    if i == |p| then 0
    else if i + 1 == |p| then p[i] as int * 256
    else Word(p, i) + SumFrom(p, i + 2)
  }

  lemma {:induction false} SumFromSame(p: seq<byte>, i: nat, q: seq<byte>, j: nat)
    requires i <= |p| && j <= |q| && p[i..] == q[j..]
    ensures SumFrom(p, i) == SumFrom(q, j)
    decreases |p| - i
  {
    assert |p| - i == |p[i..]| == |q| - j;
    if i < |p| {
      assert p[i] == p[i..][0] == q[j];
      if i + 1 < |p| {
        assert p[i + 1] == p[i..][1] == q[j + 1];
        assert p[i + 2..] == p[i..][2..] && q[j + 2..] == q[j..][2..];
        SumFromSame(p, i + 2, q, j + 2);
      }
    }
  }

  // Words are read high octet first, and a last odd octet is a high one.
  lemma WordSumStep(p: seq<byte>)
    ensures |p| == 0 ==> WordSum(p) == 0
    ensures |p| == 1 ==> WordSum(p) == p[0] as int * 256
    ensures |p| >= 2 ==> WordSum(p) == p[0] as int * 256 + p[1] as int + WordSum(p[2..])
  {
    if |p| >= 2 {
      assert p[2..][0..] == p[2..];
      SumFromSame(p, 2, p[2..], 0);
    }
  }

  lemma EightByteSum(h: seq<byte>)
    requires |h| == 8
    ensures WordSum(h) == Word(h, 0) + Word(h, 2) + Word(h, 4) + Word(h, 6)
  {
    assert SumFrom(h, 8) == 0;
    assert SumFrom(h, 6) == Word(h, 6);
    assert SumFrom(h, 4) == Word(h, 4) + SumFrom(h, 6);
    assert SumFrom(h, 2) == Word(h, 2) + SumFrom(h, 4);
  }

  // What ip4sum returns: the normalised total of the start value and the words.
  function Ip4Sum(sum: u16, p: seq<byte>): u16 {
    Norm(sum + WordSum(p))
  }

  lemma NormAbsorbs(a: nat, b: nat)
    ensures Norm(Norm(a) + b) == Norm(a + b)
  {
    if a > 0 {
      var k := (a - 1) / 65535;
      assert a == Norm(a) + 65535 * k;
      NormShift(Norm(a) + b, k);
    }
  }

  // Adding multiples of 65535 to a positive total changes nothing.
  lemma NormShift(x: nat, k: nat)
    requires x > 0
    ensures Norm(x + 65535 * k) == Norm(x)
  {
    ResidueShift(x - 1, k);
  }

  lemma ResidueShift(x: nat, k: nat)
    ensures (x + 65535 * k) % 65535 == x % 65535
  {
    var q, r := x / 65535, x % 65535;
    assert x + 65535 * k == 65535 * (q + k) + r;
  }

  lemma NormOfWord(w: u16)
    ensures Norm(w) == w
  {
  }

  lemma OcAddIsNorm(a: u16, b: u16)
    ensures OcAdd(a, b) == Norm(a + b)
  {
  }

  lemma SumOfNothing(s: u16)
    ensures Ip4Sum(s, []) == s
  {
  }

  lemma SumOneWord(s: u16, p: seq<byte>)
    requires |p| >= 2
    ensures Ip4Sum(s, p) == Ip4Sum(OcAdd(s, Word(p, 0)), p[2..])
  {
    OcAddIsNorm(s, Word(p, 0));
    WordSumStep(p);
    NormAbsorbs(s + Word(p, 0), WordSum(p[2..]));
  }

  // A 16-bit addition, and one more if it wrapped.
  method AddWithCarry(a: u16, b: u16) returns (s: u16)
    ensures s == OcAdd(a, b)
  {
    s := (a + b) % 0x1_0000;
    if s < b {
      s := s + 1;
    }
  }

  // The pointer loop of ip4sum computes the closed form.
  method ComputeIp4Sum(start: u16, p: seq<byte>) returns (sum: u16)
    ensures sum == Ip4Sum(start, p)
  {
    sum := start;
    var i := 0;
    assert p[0..] == p;
    while i < |p| - 1
      invariant 0 <= i <= |p|
      invariant Ip4Sum(sum, p[i..]) == Ip4Sum(start, p)
    {
      SumOneWord(sum, p[i..]);
      assert p[i..][2..] == p[i + 2..];
      sum := AddWithCarry(sum, Word(p, i));
      i := i + 2;
    }
    if i < |p| {
      SumOddByte(sum, p[i..]);
      sum := AddWithCarry(sum, p[i] as int * 256);
    } else {
      SumOfNothing(sum);
    }
  }

  lemma SumOddByte(s: u16, p: seq<byte>)
    requires |p| == 1
    ensures Ip4Sum(s, p) == OcAdd(s, p[0] as int * 256)
  {
    OcAddIsNorm(s, p[0] as int * 256);
  }

  // ---------- Splitting ----------

  lemma {:induction false} WordSumConcat(a: seq<byte>, b: seq<byte>)
    requires |a| % 2 == 0
    ensures WordSum(a + b) == WordSum(a) + WordSum(b)
  {
    if a == [] {
      assert a + b == b;
    } else {
      WordSumStep(a);
      WordSumStep(a + b);
      assert (a + b)[2..] == a[2..] + b;
      WordSumConcat(a[2..], b);
    }
  }

  // Summing a buffer in two pieces cut at an even offset changes nothing.
  lemma SplitsAtEvenOffsets(s: u16, a: seq<byte>, b: seq<byte>)
    requires |a| % 2 == 0
    ensures Ip4Sum(s, a + b) == Ip4Sum(Ip4Sum(s, a), b)
  {
    WordSumConcat(a, b);
    NormAbsorbs(s + WordSum(a), WordSum(b));
  }

  // ---------- Zero ----------

  lemma {:induction false} ZeroSum(p: seq<byte>)
    ensures WordSum(p) == 0 <==> forall i :: 0 <= i < |p| ==> p[i] == 0
  {
    WordSumStep(p);
    if |p| >= 2 {
      ZeroSum(p[2..]);
      assert forall i :: 2 <= i < |p| ==> p[i] == p[2..][i - 2];
    }
  }

  // The sum is 0 only when there was nothing but zero to add.
  lemma ZeroOnlyFromZeros(s: u16, p: seq<byte>)
    ensures Ip4Sum(s, p) == 0 <==> s == 0 && forall i :: 0 <= i < |p| ==> p[i] == 0
  {
    ZeroSum(p);
  }

  // ---------- Word order ----------

  function Words(p: seq<byte>): (ws: seq<u16>) {
    if p == [] then []
    else if |p| == 1 then [p[0] as int * 256]
    else [Word(p, 0)] + Words(p[2..])
  }

  function Sum(ws: seq<u16>): nat {
    if ws == [] then 0 else ws[0] + Sum(ws[1..])
  }

  lemma {:induction false} WordSumIsSum(p: seq<byte>)
    ensures WordSum(p) == Sum(Words(p))
  {
    WordSumStep(p);
    if |p| >= 2 {
      WordSumIsSum(p[2..]);
    }
  }

  lemma {:induction false} SumOfPieces(a: seq<u16>, w: u16, b: seq<u16>)
    ensures Sum(a + [w] + b) == w + Sum(a + b)
  {
    if a == [] {
      assert a + [w] + b == [w] + b && a + b == b;
    } else {
      assert (a + [w] + b)[1..] == a[1..] + [w] + b && (a + b)[1..] == a[1..] + b;
      SumOfPieces(a[1..], w, b);
    }
  }

  lemma Without<T>(a: seq<T>, k: nat)
    requires k < |a|
    ensures multiset(a[..k] + a[k + 1..]) == multiset(a) - multiset{a[k]}
  {
    assert a == a[..k] + [a[k]] + a[k + 1..];
  }

  lemma RemoveFirst<T>(a: seq<T>, b: seq<T>, k: nat)
    requires a != [] && k < |b| && b[k] == a[0] && multiset(a) == multiset(b)
    ensures multiset(a[1..]) == multiset(b[..k] + b[k + 1..])
  {
    Without(a, 0);
    Without(b, k);
    assert a[..0] + a[1..] == a[1..];
  }

  lemma {:induction false} SumIsOrderFree(a: seq<u16>, b: seq<u16>)
    requires multiset(a) == multiset(b)
    ensures Sum(a) == Sum(b)
  {
    if a == [] {
      assert |multiset(b)| == 0;
    } else {
      assert a[0] in multiset(b);
      var k :| 0 <= k < |b| && b[k] == a[0];
      var rest := b[..k] + b[k + 1..];
      RemoveFirst(a, b, k);
      assert b == b[..k] + [b[k]] + b[k + 1..];
      SumIsOrderFree(a[1..], rest);
      SumOfPieces(b[..k], b[k], b[k + 1..]);
    }
  }

  // Permuting the words of the data leaves the sum unchanged.
  lemma WordOrderIsIrrelevant(s: u16, p: seq<byte>, q: seq<byte>)
    requires multiset(Words(p)) == multiset(Words(q))
    ensures Ip4Sum(s, p) == Ip4Sum(s, q)
  {
    WordSumIsSum(p);
    WordSumIsSum(q);
    SumIsOrderFree(Words(p), Words(q));
  }

  // ---------- Byte order ----------

  function SwapAll(p: seq<byte>): seq<byte>
    requires |p| % 2 == 0
  {
    if p == [] then [] else [p[1], p[0]] + SwapAll(p[2..])
  }

  // Swapping the octets of a word multiplies it by 256 modulo 65535.
  lemma SwapIsMultiply(w: u16)
    ensures SwapBytes(w) == Norm(256 * w)
  {
    var high := w / 256;
    assert 256 * w == SwapBytes(w) + 65535 * high;
    if SwapBytes(w) > 0 {
      NormShift(SwapBytes(w), high);
      NormOfWord(SwapBytes(w));
    }
  }

  lemma SwapOfNorm(n: nat)
    ensures SwapBytes(Norm(n)) == Norm(256 * n)
  {
    SwapIsMultiply(Norm(n));
    if n > 0 {
      NormShift(256 * Norm(n), 256 * ((n - 1) / 65535));
      assert n == Norm(n) + 65535 * ((n - 1) / 65535);
    }
  }

  // Adding in either octet order gives the same memory contents.
  lemma SwapOfAdd(a: u16, b: u16)
    ensures SwapBytes(OcAdd(a, b)) == OcAdd(SwapBytes(a), SwapBytes(b))
  {
    OcAddIsNorm(a, b);
    OcAddIsNorm(SwapBytes(a), SwapBytes(b));
    SwapOfNorm(a + b);
    SwapIsMultiply(a);
    SwapIsMultiply(b);
    NormAbsorbs(256 * a, SwapBytes(b));
    NormAbsorbs(256 * b, 256 * a);
  }

  // Summing byte-swapped data from a byte-swapped start gives the byte-swapped sum.
  lemma {:induction false} CommutesWithByteSwap(s: u16, p: seq<byte>)
    requires |p| % 2 == 0
    ensures Ip4Sum(SwapBytes(s), SwapAll(p)) == SwapBytes(Ip4Sum(s, p))
    decreases |p|
  {
    if p == [] {
      SumOfNothing(s);
      SumOfNothing(SwapBytes(s));
    } else {
      var w, q := Word(p, 0), SwapAll(p);
      assert q[2..] == SwapAll(p[2..]) && Word(q, 0) == SwapBytes(w);
      SumOneWord(s, p);
      SumOneWord(SwapBytes(s), q);
      SwapOfAdd(s, w);
      CommutesWithByteSwap(OcAdd(s, w), p[2..]);
    }
  }

  // ---------- Replacing one word ----------

  lemma {:induction false} WordSumSet(p: seq<byte>, k: nat, v: u16)
    requires k % 2 == 0 && k + 1 < |p|
    ensures WordSum(SetWord(p, k, v)) == WordSum(p) - Word(p, k) + v
  {
    var q := SetWord(p, k, v);
    if k == 0 {
      assert q[2..] == p[2..];
    } else {
      assert q[2..] == SetWord(p[2..], k - 2, v);
      WordSumSet(p[2..], k - 2, v);
    }
    WordSumStep(p);
    WordSumStep(q);
  }
}
