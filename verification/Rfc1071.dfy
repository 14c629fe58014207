/** The Internet checksum arithmetic of generic/host_phy.cpp: an accumulator of big-endian 16-bit
    words, its folding, and the one's-complement sum of RFC 1071 section 1 it stands for. */
module Rfc1071 {
  import Octets

  type Byte = Octets.Byte
  type Word16 = w: int | 0 <= w < 0x1_0000

  const TWO32 := 0x1_0000_0000

  function Word(hi: Byte, lo: Byte): Word16 {
    256 * hi + lo
  }

  // ---------------------------------------------------------------- the reference definition

  /** One's-complement addition: the carry out of bit 15 is added back at bit 0. */
  function OnesPlus(a: Word16, b: Word16): Word16 {
    if a + b < 0x1_0000 then a + b else a + b - 0xFFFF
  }

  /** RFC 1071: the one's-complement sum of the 16-bit words, an odd last byte padded with zero. */
  function OnesSum(data: seq<Byte>): Word16 {
    if |data| == 0 then 0
    else if |data| == 1 then Word(data[0], 0)
    else OnesPlus(Word(data[0], data[1]), OnesSum(data[2..]))
  }

  // ---------------------------------------------------------------- the accumulator

  /** The plain sum of the same words, before any folding. */
  function WordSum(data: seq<Byte>): (sum: nat)
    ensures sum <= (|data| + 1) / 2 * 0xFFFF
  {
    if |data| == 0 then 0
    else if |data| == 1 then Word(data[0], 0)
    else Word(data[0], data[1]) + WordSum(data[2..])
  }

  /** The value in 1..0xFFFF that is congruent to a positive `sum` modulo 0xFFFF; zero only for zero. */
  function Canonical(sum: nat): Word16 {
    if sum == 0 then 0 else (sum - 1) % 0xFFFF + 1
  }

  lemma {:induction false} WordSumAppend(a: seq<Byte>, b: seq<Byte>)
    requires |a| % 2 == 0
    ensures WordSum(a + b) == WordSum(a) + WordSum(b)
  {
    if a == [] {
      assert a + b == b;
    } else {
      assert (a + b)[2..] == a[2..] + b;
      WordSumAppend(a[2..], b);
    }
  }

  lemma WordSumTake(data: seq<Byte>, k: nat)
    requires k % 2 == 0 && k + 1 < |data|
    ensures WordSum(data[..k + 2]) == WordSum(data[..k]) + Word(data[k], data[k + 1])
  {
    var pair := [data[k], data[k + 1]];
    assert data[..k + 2] == data[..k] + pair;
    WordSumAppend(data[..k], pair);
    assert WordSum(pair[2..]) == 0;
  }

  lemma WordSumLast(data: seq<Byte>, k: nat)
    requires k % 2 == 0 && k + 1 == |data|
    ensures WordSum(data) == WordSum(data[..k]) + Word(data[k], 0)
  {
    assert data == data[..k] + [data[k]];
    WordSumAppend(data[..k], [data[k]]);
  }

  /** Overwriting one aligned word moves the sum by exactly the difference of the two words. */
  lemma {:induction false} WordSumOverwrite(data: seq<Byte>, k: nat, hi: Byte, lo: Byte)
    requires k % 2 == 0 && k + 1 < |data|
    ensures WordSum(data[k := hi][k + 1 := lo]) == WordSum(data) - Word(data[k], data[k + 1]) + Word(hi, lo)
  {
    var data' := data[k := hi][k + 1 := lo];
    if k == 0 {
      assert data'[2..] == data[2..];
    } else {
      assert data'[2..] == data[2..][k - 2 := hi][k - 1 := lo];
      WordSumOverwrite(data[2..], k - 2, hi, lo);
    }
  }

  // ---------------------------------------------------------------- arithmetic modulo 0xFFFF

  lemma {:induction false} CanonicalShift(sum: nat, q: nat)
    requires sum > 0
    ensures Canonical(sum + 0xFFFF * q) == Canonical(sum)
  {
    if q > 0 {
      CanonicalShift(sum, q - 1);
      var s := sum + 0xFFFF * (q - 1);
      assert (s - 1 + 0xFFFF) % 0xFFFF == (s - 1) % 0xFFFF;
    }
  }

  lemma CanonicalWord(w: Word16)
    ensures Canonical(w) == w
  {
  }

  /** One folding round keeps the canonical value. */
  lemma FoldRound(sum: nat)
    requires sum >= 0x1_0000
    ensures Canonical(sum % 0x1_0000 + sum / 0x1_0000) == Canonical(sum)
  {
    var q, r := sum / 0x1_0000, sum % 0x1_0000;
    assert sum == (r + q) + 0xFFFF * q;
    CanonicalShift(r + q, q);
  }

  lemma CanonicalPlus(a: nat, b: nat)
    ensures Canonical(a + b) == OnesPlus(Canonical(a), Canonical(b))
  {
    if a > 0 && b > 0 {
      var qa, qb := (a - 1) / 0xFFFF, (b - 1) / 0xFFFF;
      assert a + b == (Canonical(a) + Canonical(b)) + 0xFFFF * (qa + qb);
      CanonicalShift(Canonical(a) + Canonical(b), qa + qb);
    }
  }

  /** Accumulating and folding late gives the one's-complement sum. */
  lemma {:induction false} OnesSumIsCanonical(data: seq<Byte>)
    ensures OnesSum(data) == Canonical(WordSum(data))
  {
    if |data| == 1 {
      CanonicalWord(Word(data[0], 0));
    } else if |data| >= 2 {
      var w, rest := Word(data[0], data[1]), data[2..];
      calc {
        OnesSum(data);
        OnesPlus(w, OnesSum(rest));
        { OnesSumIsCanonical(rest); CanonicalWord(w); }
        OnesPlus(Canonical(w), Canonical(WordSum(rest)));
        { CanonicalPlus(w, WordSum(rest)); }
        Canonical(w + WordSum(rest));
        Canonical(WordSum(data));
      }
    }
  }

  /** The word that completes a positive sum is its complement, or its other zero. */
  lemma CompletingWords(sum: nat, w: Word16)
    requires sum > 0
    ensures Canonical(sum + w) == 0xFFFF <==>
            w == 0xFFFF - Canonical(sum) || (w == 0xFFFF && Canonical(sum) == 0xFFFF)
  {
    CanonicalPlus(sum, w);
  }

  // ---------------------------------------------------------------- the loops

  /** uint32_t addition. */
  function Add32(a: nat, b: nat): nat {
    (a + b) % TWO32
  }

  lemma Add32Exact(a: nat, b: nat)
    requires a + b < TWO32
    ensures Add32(a, b) == a + b
  {
  }

  lemma Add32Associates(sum: nat, a: nat, b: nat)
    ensures Add32(Add32(sum, a), b) == Add32(sum, a + b)
  {
  }

  /** checksum_add_bytes over `length` bytes starting at `data[from]`; uint32_t arithmetic. */
  method AddBytes(sum: nat, data: array<Byte>, from: nat, length: nat) returns (result: nat)
    requires sum < TWO32 && from + length <= data.Length
    ensures result == Add32(sum, WordSum(data[from..from + length]))
  {
    ghost var bytes := data[from..from + length];
    result := sum;
    var index := 0;
    while index + 1 < length
      invariant index <= length && index % 2 == 0
      invariant result == Add32(sum, WordSum(bytes[..index]))
    {
      var w := Word(data[from + index], data[from + index + 1]);
      WordSumTake(bytes, index);
      Add32Associates(sum, WordSum(bytes[..index]), w);
      result := Add32(result, w);
      index := index + 2;
    }
    if index < length {
      var w := Word(data[from + index], 0);
      WordSumLast(bytes, index);
      Add32Associates(sum, WordSum(bytes[..index]), w);
      result := Add32(result, w);
    } else {
      assert bytes == bytes[..index];
    }
  }

  /** checksum_fold: keeps the canonical value, and needs at most two rounds for a 32-bit sum. */
  method Fold(sum: nat) returns (result: Word16, ghost rounds: nat)
    requires sum < TWO32
    ensures result == Canonical(sum)
    ensures rounds <= 2
  {
    var s: nat := sum;
    rounds := 0;
    while s / 0x1_0000 != 0
      invariant Canonical(s) == Canonical(sum)
      invariant s < TWO32 && (rounds >= 1 ==> s <= 0x1_FFFE) && (rounds >= 2 ==> s < 0x1_0000) && rounds <= 2
      decreases s
    {
      FoldRound(s);
      s := s % 0x1_0000 + s / 0x1_0000;
      rounds := rounds + 1;
    }
    result := s;
  }

  method Finish(sum: nat) returns (result: Word16)
    requires sum < TWO32
    ensures result == 0xFFFF - Canonical(sum)
  {
    var folded, _ := Fold(sum);
    result := 0xFFFF - folded;
  }
}
