/** The CRC-32 bit loop of the Ethernet MAC receive path (minres/ethmac.cpp, EMULATE_CRC branch):
    a 32-bit register, reflected polynomial 0xEDB88320, one shift per message bit. */
module Crc {
  import opened Iteration

  const POLYNOMIAL: bv32 := 0xEDB8_8320
  const ALL_ONES: bv32 := 0xFFFF_FFFF
  const RESIDUE: bv32 := 0xDEBB_20E3

  function Xor(x: bv32, y: bv32): bv32 {
    x ^ y
  }

  /** One iteration of the inner `bit` loop. */
  function Step(x: bv32): bv32 {
    if Odd(x) then Xor(Half(x), POLYNOMIAL) else Half(x)
  }

  predicate Odd(x: bv32) {
    x & 1 == 1
  }

  function Half(x: bv32): bv32 {
    x >> 1
  }

  function Steps(x: bv32, n: nat): bv32 {
    Iterate(Step, x, n)
  }

  /** One message byte: exclusive-or into the low byte, then eight shifts. */
  function Update(crc: bv32, c: bv8): bv32 {
    Steps(Xor(crc, c as bv32), 8)
  }

  /** The register after a whole message. */
  function Register(crc: bv32, message: seq<bv8>): bv32 {
    Feed(Update, crc, message)
  }

  function Low(w: bv32): bv8 {
    (w & 0xFF) as bv8
  }

  /** The four bytes of a word, least significant first. */
  function LittleEndian(w: bv32): seq<bv8> {
    [Low(w), Low(w >> 8), Low(w >> 16), Low(w >> 24)]
  }

  /** The frame check sequence appended to a payload. */
  function Fcs(payload: seq<bv8>): seq<bv8> {
    LittleEndian(Xor(Register(ALL_ONES, payload), ALL_ONES))
  }

  // ---------------------------------------------------------------- the step is linear and invertible

  lemma XorAssociates(a: bv32, b: bv32, c: bv32)
    ensures Xor(Xor(a, b), c) == Xor(a, Xor(b, c))
  {
    assert (a ^ b) ^ c == a ^ (b ^ c);
  }

  lemma XorCommutes(a: bv32, b: bv32)
    ensures Xor(a, b) == Xor(b, a)
  {
  }

  lemma XorUnit(a: bv32)
    ensures Xor(a, a) == 0
    ensures Xor(a, 0) == Xor(0, a) == a
  {
  }

  lemma XorCancels(a: bv32, p: bv32)
    ensures Xor(Xor(a, p), p) == a
    ensures Xor(p, Xor(p, a)) == a
  {
    XorAssociates(a, p, p);
    XorAssociates(p, p, a);
    XorUnit(p);
    XorUnit(a);
  }

  lemma XorExchanges(a: bv32, b: bv32, p: bv32)
    ensures Xor(Xor(a, p), b) == Xor(Xor(a, b), p)
    ensures Xor(Xor(a, p), Xor(b, p)) == Xor(a, b)
  {
    XorAssociates(a, p, b);
    XorAssociates(a, b, p);
    XorCommutes(b, p);
    XorAssociates(Xor(a, p), p, b);
    XorCancels(a, p);
  }

  lemma HalfLinear(x: bv32, y: bv32)
    ensures Half(Xor(x, y)) == Xor(Half(x), Half(y))
  {
    assert (x ^ y) >> 1 == (x >> 1) ^ (y >> 1);
  }

  lemma OddLinear(x: bv32, y: bv32)
    ensures Odd(Xor(x, y)) <==> Odd(x) != Odd(y)
  {
    calc {
      Odd(Xor(x, y));
      (x ^ y) & 1 == 1;
      (x & 1 == 1) != (y & 1 == 1);
      Odd(x) != Odd(y);
    }
  }

  lemma StepLinear(x: bv32, y: bv32)
    ensures Step(Xor(x, y)) == Xor(Step(x), Step(y))
  {
    var a, b := Half(x), Half(y);
    calc {
      Step(Xor(x, y));
      if Odd(Xor(x, y)) then Xor(Half(Xor(x, y)), POLYNOMIAL) else Half(Xor(x, y));
      { HalfLinear(x, y); OddLinear(x, y); }
      if Odd(x) != Odd(y) then Xor(Xor(a, b), POLYNOMIAL) else Xor(a, b);
      { XorExchanges(a, b, POLYNOMIAL); XorAssociates(a, b, POLYNOMIAL); }
      Xor(if Odd(x) then Xor(a, POLYNOMIAL) else a, if Odd(y) then Xor(b, POLYNOMIAL) else b);
      Xor(Step(x), Step(y));
    }
  }

  lemma StepsLinear(x: bv32, y: bv32, n: nat)
    ensures Steps(Xor(x, y), n) == Xor(Steps(x, n), Steps(y, n))
  {
    forall a, b ensures Step(Xor(a, b)) == Xor(Step(a), Step(b)) {
      StepLinear(a, b);
    }
    Homomorphic(Step, Xor, x, y, n);
  }

  lemma StepInjective(x: bv32, y: bv32)
    requires Step(x) == Step(y)
    ensures x == y
  {
  }

  lemma StepsInjective(x: bv32, y: bv32, n: nat)
    requires Steps(x, n) == Steps(y, n)
    ensures x == y
  {
    forall a, b | Step(a) == Step(b) ensures a == b {
      StepInjective(a, b);
    }
    Injective(Step, x, y, n);
  }

  lemma UpdateInjective(x: bv32, y: bv32, c: bv8)
    requires Update(x, c) == Update(y, c)
    ensures x == y
  {
    var d: bv32 := c as bv32;
    StepsInjective(Xor(x, d), Xor(y, d), 8);
    XorCancels(x, d);
    XorCancels(y, d);
  }

  // ---------------------------------------------------------------- messages

  lemma RegisterAppend(crc: bv32, a: seq<bv8>, b: seq<bv8>)
    ensures Register(crc, a + b) == Register(Register(crc, a), b)
  {
    FeedAppend(Update, crc, a, b);
  }

  lemma RegisterInjective(x: bv32, y: bv32, message: seq<bv8>)
    requires Register(x, message) == Register(y, message)
    ensures x == y
  {
    forall a, b, c | Update(a, c) == Update(b, c) ensures a == b {
      UpdateInjective(a, b, c);
    }
    FeedInjective(Update, x, y, message);
  }

  lemma EightSteps(x: bv32)
    ensures Steps(x, 8) == Step(Step(Step(Step(Step(Step(Step(Step(x))))))))
  {
    assert Steps(x, 4) == Step(Step(Steps(x, 2)));
    assert Steps(x, 6) == Step(Step(Steps(x, 4)));
  }

  lemma ShiftSteps(x: bv32)
    requires x & 0xF == 0
    ensures Step(x) == x >> 1 && Step(x >> 1) == x >> 2
    ensures Step(x >> 2) == x >> 3 && Step(x >> 3) == x >> 4
  {
  }

  /** Steps of a word whose low bits are clear only shift it. */
  lemma FourShifts(x: bv32)
    requires x & 0xF == 0
    ensures Steps(x, 4) == x >> 4
  {
    ShiftSteps(x);
    FourTimes(Step, x, x >> 1, x >> 2, x >> 3, x >> 4);
  }

  lemma StepsHigh(x: bv32)
    requires x & 0xFF == 0
    ensures Steps(x, 8) == x >> 8
  {
    FourShifts(x);
    FourShifts(x >> 4);
    Additive(Step, x, 4, 4);
    assert (x >> 4) >> 4 == x >> 8;
  }

  lemma SplitLow(w: bv32)
    ensures w == Xor(Low(w) as bv32, w & 0xFFFF_FF00)
    ensures (w & 0xFFFF_FF00) & 0xFF == 0
    ensures (w & 0xFFFF_FF00) >> 8 == w >> 8
  {
  }

  /** Peeling the low byte off a word: the rest may be exclusive-ored in after the eight steps. */
  lemma UpdateLow(crc: bv32, w: bv32)
    ensures Xor(Update(crc, Low(w)), w >> 8) == Steps(Xor(crc, w), 8)
  {
    var low: bv32 := Low(w) as bv32;
    var high: bv32 := w & 0xFFFF_FF00;
    SplitLow(w);
    XorAssociates(crc, low, high);
    assert Xor(crc, w) == Xor(Xor(crc, low), high);
    StepsLinear(Xor(crc, low), high, 8);
    StepsHigh(high);
  }

  lemma ByteShifts(w: bv32)
    ensures (w >> 8) >> 8 == w >> 16 && (w >> 16) >> 8 == w >> 24 && (w >> 24) >> 8 == 0
  {
  }

  function EightStepsOf(x: bv32): bv32 {
    Steps(x, 8)
  }

  lemma FourTimesEight(x: bv32)
    ensures EightStepsOf(EightStepsOf(EightStepsOf(EightStepsOf(x)))) == Steps(x, 32)
  {
    Additive(Step, x, 8, 8);
    Additive(Step, x, 16, 8);
    Additive(Step, x, 24, 8);
  }

  function Rest(w: bv32): bv32 {
    w >> 8
  }

  lemma FeedFourWords(crc: bv32, w0: bv32, w1: bv32, w2: bv32, w3: bv32)
    requires w1 == Rest(w0) && w2 == Rest(w1) && w3 == Rest(w2) && Rest(w3) == 0
    ensures Register(crc, [Low(w0), Low(w1), Low(w2), Low(w3)]) == Steps(Xor(crc, w0), 32)
  {
    forall x, v ensures Xor(Update(x, Low(v)), Rest(v)) == EightStepsOf(Xor(x, v)) {
      UpdateLow(x, v);
    }
    forall x ensures Xor(x, 0) == x {
      XorUnit(x);
    }
    WordAtATime(Update, EightStepsOf, Xor, Low, Rest, crc, w0, w1, w2, w3, 0);
    FourTimesEight(Xor(crc, w0));
  }

  /** Feeding the little-endian bytes of `w` is 32 steps of `crc ^ w`: the byte loop is a bit-serial
      division of the whole word. */
  lemma RegisterWord(crc: bv32, w: bv32)
    ensures Register(crc, LittleEndian(w)) == Steps(Xor(crc, w), 32)
  {
    ByteShifts(w);
    FeedFourWords(crc, w, w >> 8, w >> 16, w >> 24);
  }

  lemma StepsOfAllOnes()
    ensures Steps(ALL_ONES, 32) == RESIDUE
  {
    EightSteps(ALL_ONES);
    assert Steps(ALL_ONES, 8) == 0x2DFD_1072;
    EightSteps(0x2DFD_1072);
    Additive(Step, ALL_ONES, 8, 8);
    assert Steps(ALL_ONES, 16) == 0xBE26_ED00;
    EightSteps(0xBE26_ED00);
    Additive(Step, ALL_ONES, 16, 8);
    assert Steps(ALL_ONES, 24) == 0x00BE_26ED;
    EightSteps(0x00BE_26ED);
    Additive(Step, ALL_ONES, 24, 8);
  }

  // ---------------------------------------------------------------- what the frame check sequence is for

  /** Every frame, followed by its own check sequence, leaves the same constant in the register. */
  lemma Residue(payload: seq<bv8>)
    ensures Register(ALL_ONES, payload + Fcs(payload)) == RESIDUE
  {
    var r := Register(ALL_ONES, payload);
    RegisterAppend(ALL_ONES, payload, Fcs(payload));
    RegisterWord(r, Xor(r, ALL_ONES));
    XorCancels(ALL_ONES, r);
    StepsOfAllOnes();
  }

  /** The residue test of a receiver accepts the one correct check sequence and no other. */
  lemma ResidueAcceptsOnlyFcs(payload: seq<bv8>, w: bv32)
    ensures Register(ALL_ONES, payload + LittleEndian(w)) == RESIDUE <==> LittleEndian(w) == Fcs(payload)
  {
    var r := Register(ALL_ONES, payload);
    Residue(payload);
    if Register(ALL_ONES, payload + LittleEndian(w)) == RESIDUE {
      RegisterAppend(ALL_ONES, payload, LittleEndian(w));
      RegisterWord(r, w);
      StepsOfAllOnes();
      StepsInjective(Xor(r, w), ALL_ONES, 32);
      XorCancels(w, r);
    }
  }

  lemma LittleEndianInjective(v: bv32, w: bv32)
    requires LittleEndian(v) == LittleEndian(w)
    ensures v == w
  {
    var a, b := LittleEndian(v), LittleEndian(w);
    assert a[0] == b[0] && a[1] == b[1] && a[2] == b[2] && a[3] == b[3];
    assert v & 0xFF == w & 0xFF && (v >> 8) & 0xFF == (w >> 8) & 0xFF;
    assert (v >> 16) & 0xFF == (w >> 16) & 0xFF && (v >> 24) & 0xFF == (w >> 24) & 0xFF;
  }

  /** Two frames that differ only inside four consecutive bytes never share a check sequence: every
      burst of up to 32 wrong bits is detected. */
  lemma BurstDetected(before: seq<bv8>, v: bv32, w: bv32, after: seq<bv8>)
    requires v != w
    ensures Fcs(before + LittleEndian(v) + after) != Fcs(before + LittleEndian(w) + after)
  {
    var p, q := before + LittleEndian(v) + after, before + LittleEndian(w) + after;
    if Fcs(p) == Fcs(q) {
      var r := Register(ALL_ONES, before);
      LittleEndianInjective(Xor(Register(ALL_ONES, p), ALL_ONES), Xor(Register(ALL_ONES, q), ALL_ONES));
      XorCancels(Register(ALL_ONES, p), ALL_ONES);
      XorCancels(Register(ALL_ONES, q), ALL_ONES);
      RegisterAppend(ALL_ONES, before + LittleEndian(v), after);
      RegisterAppend(ALL_ONES, before + LittleEndian(w), after);
      RegisterInjective(
        Register(ALL_ONES, before + LittleEndian(v)), Register(ALL_ONES, before + LittleEndian(w)), after);
      RegisterAppend(ALL_ONES, before, LittleEndian(v));
      RegisterAppend(ALL_ONES, before, LittleEndian(w));
      RegisterWord(r, v);
      RegisterWord(r, w);
      StepsInjective(Xor(r, v), Xor(r, w), 32);
      XorCancels(v, r);
      XorCancels(w, r);
    }
  }
}
