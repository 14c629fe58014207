/** Interrupt ids packed into 32-bit register words: id `n` is bit `n % 32` of word `n / 32`. */
module Bits {

  /** `1 << k`, the mask of bit `k`. */
  function Mask(k: nat): bv32
    requires k < 32
  {
    1 << (k as bv6)
  }

  predicate Test(w: bv32, m: bv32) {
    w & m != 0
  }

  function Raise(w: bv32, m: bv32): bv32 {
    w | m
  }

  function Lower(w: bv32, m: bv32): bv32 {
    w & !m
  }

  predicate Bit(w: bv32, k: nat)
    requires k < 32
  {
    Test(w, Mask(k))
  }

  function SetBit(w: bv32, k: nat): bv32
    requires k < 32
  {
    Raise(w, Mask(k))
  }

  function ClearBit(w: bv32, k: nat): bv32
    requires k < 32
  {
    Lower(w, Mask(k))
  }

  lemma ShiftedOnes(s: bv6, t: bv6)
    requires s < 32 && t < 32
    ensures ((1 as bv32) << s) & ((1 as bv32) << t) == if s == t then 1 << s else 0
    ensures (1 as bv32) << s != 0
  {
  }

  lemma OffsetsDistinct(k: nat, j: nat)
    requires k < 32 && j < 32
    ensures k as bv6 == j as bv6 <==> k == j
    ensures k as bv6 < 32 && j as bv6 < 32
  {
    assert (k as bv6) as int == k && (j as bv6) as int == j;
  }

  lemma MasksDisjoint(k: nat, j: nat)
    requires k < 32 && j < 32
    ensures Mask(k) & Mask(j) == if j == k then Mask(k) else 0
    ensures Mask(k) != 0
  {
    OffsetsDistinct(k, j);
    ShiftedOnes(k as bv6, j as bv6);
  }

  lemma OrKeeps(w: bv32, m: bv32, n: bv32)
    requires m & n == 0
    ensures (w | m) & n == w & n
  {
  }

  lemma RaiseOther(w: bv32, m: bv32, n: bv32)
    requires m & n == 0
    ensures Test(Raise(w, m), n) == Test(w, n)
  {
    calc {
      Test(Raise(w, m), n);
      (w | m) & n != 0;
      { OrKeeps(w, m, n); }
      w & n != 0;
      Test(w, n);
    }
  }

  lemma RaiseSame(w: bv32, m: bv32)
    requires m != 0
    ensures Test(Raise(w, m), m)
  {
  }

  lemma AndNotKeeps(w: bv32, m: bv32, n: bv32)
    requires m & n == 0
    ensures (w & !m) & n == w & n
  {
  }

  lemma LowerOther(w: bv32, m: bv32, n: bv32)
    requires m & n == 0
    ensures Test(Lower(w, m), n) == Test(w, n)
  {
    calc {
      Test(Lower(w, m), n);
      (w & !m) & n != 0;
      { AndNotKeeps(w, m, n); }
      w & n != 0;
      Test(w, n);
    }
  }

  lemma LowerSame(w: bv32, m: bv32)
    ensures !Test(Lower(w, m), m)
  {
    assert (w & !m) & m == 0;
  }

  lemma BitOfSet(w: bv32, k: nat, j: nat)
    requires k < 32 && j < 32
    ensures Bit(SetBit(w, k), j) <==> j == k || Bit(w, j)
  {
    MasksDisjoint(k, j);
    if j == k {
      RaiseSame(w, Mask(k));
    } else {
      RaiseOther(w, Mask(k), Mask(j));
    }
  }

  lemma BitOfClear(w: bv32, k: nat, j: nat)
    requires k < 32 && j < 32
    ensures Bit(ClearBit(w, k), j) <==> j != k && Bit(w, j)
  {
    MasksDisjoint(k, j);
    if j == k {
      LowerSame(w, Mask(k));
    } else {
      LowerOther(w, Mask(k), Mask(j));
    }
  }

  // ---------------------------------------------------------------- arrays of words as sets of ids

  /** Whether `id` is set in the packed words. */
  predicate Member(words: seq<bv32>, id: nat)
    requires id / 32 < |words|
  {
    Bit(words[id / 32], id % 32)
  }

  /** The ids below `n` that are set. */
  ghost function IdsUpTo(words: seq<bv32>, n: nat): set<nat>
    requires n <= 32 * |words|
  {
    if n == 0 then {} else IdsUpTo(words, n - 1) + if Member(words, n - 1) then {n - 1} else {}
  }

  ghost function Ids(words: seq<bv32>): set<nat> {
    IdsUpTo(words, 32 * |words|)
  }

  lemma {:induction false} InIdsUpTo(words: seq<bv32>, n: nat, id: nat)
    requires n <= 32 * |words|
    ensures id in IdsUpTo(words, n) <==> id < n && Member(words, id)
  {
    if n > 0 {
      InIdsUpTo(words, n - 1, id);
    }
  }

  /** The set holds exactly the ids whose bit is one. */
  lemma InIds(words: seq<bv32>, id: nat)
    ensures id in Ids(words) <==> id < 32 * |words| && Member(words, id)
  {
    InIdsUpTo(words, 32 * |words|, id);
  }

  /** Setting one bit adds exactly one id. */
  lemma IdsAfterSet(words: seq<bv32>, id: nat)
    requires id / 32 < |words|
    ensures Ids(words[id / 32 := SetBit(words[id / 32], id % 32)]) == Ids(words) + {id}
  {
    var words' := words[id / 32 := SetBit(words[id / 32], id % 32)];
    forall j: nat ensures j in Ids(words') <==> j == id || j in Ids(words) {
      InIds(words, j);
      InIds(words', j);
      if j / 32 == id / 32 {
        BitOfSet(words[id / 32], id % 32, j % 32);
      }
    }
  }

  /** Clearing one bit removes exactly one id. */
  lemma IdsAfterClear(words: seq<bv32>, id: nat)
    requires id / 32 < |words|
    ensures Ids(words[id / 32 := ClearBit(words[id / 32], id % 32)]) == Ids(words) - {id}
  {
    var words' := words[id / 32 := ClearBit(words[id / 32], id % 32)];
    forall j: nat ensures j in Ids(words') <==> j != id && j in Ids(words) {
      InIds(words, j);
      InIds(words', j);
      if j / 32 == id / 32 {
        BitOfClear(words[id / 32], id % 32, j % 32);
      }
    }
  }

  lemma NoBits(k: nat)
    requires k < 32
    ensures !Bit(0, k)
  {
  }

  lemma IdsOfZeros(words: seq<bv32>)
    requires forall k | 0 <= k < |words| :: words[k] == 0
    ensures Ids(words) == {}
  {
    forall j: nat ensures j !in Ids(words) {
      InIds(words, j);
      NoBits(j % 32);
    }
  }

  method ZeroWords(words: array<bv32>)
    modifies words
    ensures Ids(words[..]) == {}
  {
    forall k | 0 <= k < words.Length {
      words[k] := 0;
    }
    IdsOfZeros(words[..]);
  }

  method ZeroRegisters(registers: array<nat>)
    modifies registers
    ensures registers[..] == seq(registers.Length, _ => 0)
  {
    forall k | 0 <= k < registers.Length {
      registers[k] := 0;
    }
  }
}
