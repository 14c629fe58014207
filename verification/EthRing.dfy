/** The two byte rings of minres/ethmac.cpp as bounded FIFOs, and 32-bit words as groups of four bytes. */
module EthRing {
  import opened Octets

  /** A 32-bit register value. */
  type Word = x: int | 0 <= x < 0x1_0000_0000

  /** What a ring of the given capacity holds after `bs` has been pushed into it byte by byte. */
  function Clip(bs: seq<Byte>, capacity: nat): (kept: seq<Byte>)
    ensures |kept| <= capacity
  {
    if |bs| <= capacity then bs else bs[..capacity]
  }

  /** Pushing in two bursts is pushing once. */
  lemma ClipAppend(a: seq<Byte>, b: seq<Byte>, capacity: nat)
    ensures Clip(Clip(a, capacity) + b, capacity) == Clip(a + b, capacity)
  {
  }

  lemma ClipKeepsPrefix(bs: seq<Byte>, n: nat, capacity: nat)
    requires n <= |bs| && n <= capacity
    ensures n <= |Clip(bs, capacity)| && Clip(bs, capacity)[..n] == bs[..n]
  {
  }

  /** The bytes of a sequence of words, each word least significant byte first. */
  function Stream(ws: seq<Word>): (bs: seq<Byte>)
    ensures |bs| == 4 * |ws|
  {
    if ws == [] then [] else Stream(ws[..|ws| - 1]) + Bytes(ws[|ws| - 1], 4)
  }

  lemma StreamSnoc(ws: seq<Word>, w: Word)
    ensures Stream(ws + [w]) == Stream(ws) + Bytes(w, 4)
  {
    assert (ws + [w])[..|ws|] == ws;
  }
}
