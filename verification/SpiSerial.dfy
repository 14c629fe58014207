/** How the SPI master of pulpino/spi_master.h puts a data word on the bus, one or four bits at a time,
    and how its receive loops put a word together. A 32-bit word is its bits, most significant first. */
module SpiSerial {

  type Bits32 = s: seq<bool> | |s| == 32 witness seq(32, _ => false)

  datatype Word = Word(bits: Bits32)

  function Zeros(n: nat): seq<bool> {
    seq(n, _ => false)
  }

  function Shl(w: Word, n: nat): Word
    requires n <= 32
  {
    Word(w.bits[n..] + Zeros(n))
  }

  function Shr(w: Word, n: nat): Word
    requires n <= 32
  {
    Word(Zeros(n) + w.bits[..32 - n])
  }

  function Or(a: Word, b: Word): Word {
    Word(seq(32, k requires 0 <= k < 32 => a.bits[k] || b.bits[k]))
  }

  /** The bitwise-and with a mask of `n` leading ones: 0x80000000 for 1, 0xF0000000 for 4. */
  function Leading(w: Word, n: nat): Word
    requires n <= 32
  {
    Word(w.bits[..n] + Zeros(32 - n))
  }

  /** Bits per bus cycle: 1 in standard mode, 4 in quad mode. */
  function Lanes(quad: bool): nat {
    if quad then 4 else 1
  }

  /** Bits sent by `n` cycles. */
  function Offset(n: nat, quad: bool): nat {
    if quad then 4 * n else n
  }

  /** Cycles per word: 32 in standard mode, 8 in quad mode. */
  function PerWord(quad: bool): nat {
    if quad then 8 else 32
  }

  /** sendBit and quad_sendBit: what one bus cycle carries, in the leading bits of the payload. */
  function Payload(w: Word, offset: nat, quad: bool): Word
    requires offset < 32
  {
    Leading(Shl(w, offset), Lanes(quad))
  }

  /** The offsets of `n` cycles from bit `start` on lie within the word. */
  predicate InWord(start: nat, n: nat, quad: bool) {
    n > 0 ==> start + Offset(n - 1, quad) < 32
  }

  /** The first `n` cycles of a word, from bit `start` on. */
  function Cycles(w: Word, start: nat, n: nat, quad: bool): (cycles: seq<Word>)
    requires InWord(start, n, quad)
    ensures |cycles| == n
  {
    if n == 0 then [] else Cycles(w, start, n - 1, quad) + [Payload(w, start + Offset(n - 1, quad), quad)]
  }

  /** The bits that these cycles put on the data lines, in order. */
  function Lines(cycles: seq<Word>, quad: bool): seq<bool> {
    if cycles == [] then [] else Lines(cycles[..|cycles| - 1], quad) + cycles[|cycles| - 1].bits[..Lanes(quad)]
  }

  lemma PayloadBits(w: Word, offset: nat, quad: bool)
    requires offset < 32
    ensures Payload(w, offset, quad).bits[..Lanes(quad)] == (w.bits + Zeros(32))[offset..offset + Lanes(quad)]
  {
  }

  /** The cycles carry the consecutive bits of the word from `start` on, and zeros past its end. */
  lemma {:induction false} CyclesCarryBits(w: Word, start: nat, n: nat, quad: bool)
    requires InWord(start, n, quad)
    ensures start + Offset(n, quad) <= 64 || n == 0
    ensures n > 0 ==> Lines(Cycles(w, start, n, quad), quad) == (w.bits + Zeros(32))[start..start + Offset(n, quad)]
  {
    if n == 1 {
      PayloadBits(w, start, quad);
      assert Cycles(w, start, 1, quad)[..0] == [];
    } else if n > 1 {
      CyclesCarryBits(w, start, n - 1, quad);
      PayloadBits(w, start + Offset(n - 1, quad), quad);
      assert Cycles(w, start, n, quad)[..n - 1] == Cycles(w, start, n - 1, quad);
    }
  }

  /** One receive cycle: the sample is shifted up to its place and or-ed in. */
  function Collect(rx: Word, sample: Word, n: nat, quad: bool): Word
    requires n < PerWord(quad)
  {
    Or(rx, Shl(sample, 32 - Lanes(quad) - Offset(n, quad)))
  }

  /** The receive loop. */
  function Collected(samples: seq<Word>, quad: bool): Word
    requires |samples| <= PerWord(quad)
  {
    if samples == [] then Word(Zeros(32))
    else Collect(Collected(samples[..|samples| - 1], quad), samples[|samples| - 1], |samples| - 1, quad)
  }

  /** A device that answers each payload with its leading bits shifted down to the bottom. */
  function Echo(payloads: seq<Word>, quad: bool): (samples: seq<Word>)
    ensures |samples| == |payloads|
  {
    seq(|payloads|, k requires 0 <= k < |payloads| => Shr(payloads[k], 32 - Lanes(quad)))
  }

  /** Shifted down and up again, the payload holds exactly its own bits, in their place in the word. */
  lemma PlacedBit(w: Word, n: nat, quad: bool, k: nat)
    requires n < PerWord(quad) && k < 32
    ensures var g, o := Lanes(quad), Offset(n, quad);
            Shl(Shr(Payload(w, o, quad), 32 - g), 32 - g - o).bits[k] == (o <= k < o + g && w.bits[k])
  {
    var g, o := Lanes(quad), Offset(n, quad);
    var payload := Payload(w, o, quad);
    var sample := Shr(payload, 32 - g);
    if k < o + g {
      assert Shl(sample, 32 - g - o).bits[k] == sample.bits[k + (32 - g - o)];
      if k >= o {
        assert sample.bits[k + (32 - g - o)] == payload.bits[k - o] == w.bits[k];
      }
    }
  }

  lemma MergePlaced(w: Word, o: nat, g: nat, placed: Word)
    requires o + g <= 32 && forall k | 0 <= k < 32 :: placed.bits[k] == (o <= k < o + g && w.bits[k])
    ensures Or(Leading(w, o), placed) == Leading(w, o + g)
  {
    assert Or(Leading(w, o), placed).bits == Leading(w, o + g).bits;
  }

  lemma CollectPayload(w: Word, n: nat, quad: bool)
    requires n < PerWord(quad)
    ensures Collect(Leading(w, Offset(n, quad)), Shr(Payload(w, Offset(n, quad), quad), 32 - Lanes(quad)), n, quad)
         == Leading(w, Offset(n + 1, quad))
  {
    var g, o := Lanes(quad), Offset(n, quad);
    var placed := Shl(Shr(Payload(w, o, quad), 32 - g), 32 - g - o);
    forall k | 0 <= k < 32 ensures placed.bits[k] == (o <= k < o + g && w.bits[k]) {
      PlacedBit(w, n, quad, k);
    }
    MergePlaced(w, o, g, placed);
  }

  /** What a device that samples the bus at every cycle assembles from the cycles of one word. */
  function Received(cycles: seq<Word>, quad: bool): Word
    requires |cycles| <= PerWord(quad)
  {
    Collected(Echo(cycles, quad), quad)
  }

  lemma {:induction false} CollectCycles(w: Word, n: nat, quad: bool)
    requires n <= PerWord(quad)
    ensures Received(Cycles(w, 0, n, quad), quad) == Leading(w, Offset(n, quad))
  {
    if n == 0 {
      assert Leading(w, 0).bits == Zeros(32);
    } else {
      CollectCycles(w, n - 1, quad);
      CollectPayload(w, n - 1, quad);
      assert Echo(Cycles(w, 0, n, quad), quad)[..n - 1] == Echo(Cycles(w, 0, n - 1, quad), quad);
    }
  }

  /** Round trip: the cycles of a word, echoed and collected as the receive loops do, rebuild the word,
      in standard and in quad mode. */
  lemma SerialRoundTrip(w: Word, quad: bool)
    ensures Received(Cycles(w, 0, PerWord(quad), quad), quad) == w
  {
    CollectCycles(w, PerWord(quad), quad);
    assert Leading(w, 32).bits == w.bits;
  }
}
