/** Bytes, and little-endian byte order. */
module Octets {

  type Byte = b: int | 0 <= b < 256

  /** The low `n` bytes of `x`, least significant first: byte i is (x >> 8 * i) & 0xff. */
  function Bytes(x: nat, n: nat): (bs: seq<Byte>)
    ensures |bs| == n
  {
    if n == 0 then [] else [x % 256] + Bytes(x / 256, n - 1)
  }

  /** The number that a sequence of bytes stands for. */
  function Value(bs: seq<Byte>): nat {
    if bs == [] then 0 else bs[0] + 256 * Value(bs[1..])
  }

  function Radix(n: nat): nat {
    if n == 0 then 1 else 256 * Radix(n - 1)
  }

  lemma {:induction false} ValueOfBytes(x: nat, n: nat)
    requires x < Radix(n)
    ensures Value(Bytes(x, n)) == x
  {
    if n > 0 {
      ValueOfBytes(x / 256, n - 1);
      assert Bytes(x, n)[1..] == Bytes(x / 256, n - 1);
    }
  }

  lemma {:induction false} BytesOfValue(bs: seq<Byte>)
    ensures Value(bs) < Radix(|bs|) && Bytes(Value(bs), |bs|) == bs
  {
    if bs != [] {
      BytesOfValue(bs[1..]);
    }
  }

  lemma RadixOfWord()
    ensures Radix(4) == 0x1_0000_0000
  {
    assert Radix(2) == 0x1_0000;
  }
}
