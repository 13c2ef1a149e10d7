/** Octets, 16-bit words and the network (big-endian) layout shared by every tool. */
module Bytes {
  type byte = x: int | 0 <= x < 256
  type u16 = x: int | 0 <= x < 0x1_0000

  type u32 = x: int | 0 <= x < 0x1_0000_0000

  // An IPv4 address.
  type Addr = a: seq<byte> | |a| == 4 witness [0, 0, 0, 0]

  datatype Maybe<T> = None | Some(value: T)

  lemma ConcatAssoc<T>(a: seq<T>, b: seq<T>, c: seq<T>)
    ensures a + b + c == a + (b + c)
  {
  }

  // The 16-bit field at offset k, in network order.
  function Word(p: seq<byte>, k: nat): (w: u16)
    requires k + 1 < |p|
  {
    p[k] as int * 256 + p[k + 1] as int
  }

  // p with the 16-bit field at offset k replaced, in network order.
  function SetWord(p: seq<byte>, k: nat, v: u16): (q: seq<byte>)
    requires k + 1 < |p|
    ensures |q| == |p| && Word(q, k) == v
    ensures forall i :: 0 <= i < |p| && i != k && i != k + 1 ==> q[i] == p[i]
  {
    p[k := v / 256][k + 1 := v % 256]
  }

  // The same two octets read in the other order.
  function SwapBytes(w: u16): (s: u16)
    ensures s / 256 == w % 256 && s % 256 == w / 256
  {
    w % 256 * 256 + w / 256
  }

  method CopyOf(p: seq<byte>) returns (mem: array<byte>)
    ensures fresh(mem) && mem[..] == p
  {
    mem := new byte[|p|];
    forall i | 0 <= i < |p| {
      mem[i] := p[i];
    }
    assert mem[..] == p;
  }
}
