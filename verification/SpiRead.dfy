/** Read transfers of pulpino/spi_master.h: what they have received and put on the bus at every moment, when
    they finish, and how they stall. */
module SpiRead {
  import opened SpiSerial
  import opened SpiSpec

  /** A read transfer has been started and nothing has been received yet; the FIFO may hold leftover words. */
  predicate ReadStarted(s: State) {
    && s.phase == Idle && s.inProgress && s.rxMode && !s.txMode && s.counter == 0
    && s.rx.received == [] && s.rx.taken == []
  }

  /** From rest an RD or QRD write starts one. */
  lemma ReadBegunIsStarted(s: State, quad: bool, tx: Status, rx: Status)
    ensures Ready(s) ==>
              ReadStarted(ReadBegun(s, quad, tx, rx)) && ReadBegun(s, quad, tx, rx).q.fifo == s.q.fifo
  {
  }

  /** Before the first word. */
  predicate Announcing(s: State) {
    s.inProgress && s.rxMode && !s.txMode && s.rx.received == [] && s.counter == 0
  }

  /** Between words. */
  predicate Receiving(s: State) {
    s.inProgress && s.rxMode && !s.txMode && s.counter == 32 * |s.rx.received| < s.len.data
  }

  /** Invariant of a read transfer of 1 to MAX_DATALEN bits until it is finished and put away; `queued` was in
      the FIFO before. */
  predicate Reading(s: State, queued: seq<Word>, quad: bool) {
    && (s.inProgress ==> s.rx.taken + s.q.fifo == queued + s.rx.received)
    && (s.inProgress && s.phase != Finished ==> s.quad == quad)
    && (match s.phase
        case Idle =>
          if s.inProgress then Announcing(s)
          else !s.txMode && !s.rxMode && |s.rx.received| == Words(s.len.data)
        case Command => Announcing(s) && s.len.cmd != 0
        case Address => Announcing(s) && s.len.addr != 0
        case DummyRx => Announcing(s) && s.len.dummyRd != 0
        case DataRx => Receiving(s)
        case WaitRx => Receiving(s)
        case Finished => s.inProgress && s.rxMode && !s.txMode && |s.rx.received| == Words(s.len.data)
        case DummyTx => false
        case DataTx => false
        case WaitTx => false)
  }

  lemma StartedIsReading(s: State)
    requires ReadStarted(s)
    ensures Reading(s, s.q.fifo, s.quad)
  {
    assert [] + s.q.fifo == s.q.fifo + [];
  }

  // ---------------------------------------------------------------- what software does

  /** Pushes are refused in read mode. */
  lemma {:induction false} PushesRefused(q: Queue, vs: seq<Word>, inProgress: bool)
    ensures PushAll(q, vs, true, inProgress) == q
  {
    if vs != [] {
      PushesRefused(q, vs[..|vs| - 1], inProgress);
    }
  }

  /** Reads take words off the front and lose none. */
  lemma {:induction false} ReadsMoveWords(s: State, n: nat)
    ensures var t := ReadAll(s, n);
            t.rx.taken + t.q.fifo == s.rx.taken + s.q.fifo && |t.q.fifo| <= |s.q.fifo|
    decreases n
  {
    if n > 0 && s.rxMode {
      ReadsMoveWords(s, n - 1);
      var t := ReadAll(s, n - 1);
      if t.q.fifo != [] {
        assert t.rx.taken + [t.q.fifo[0]] + t.q.fifo[1..] == t.rx.taken + t.q.fifo;
      }
    }
  }

  lemma OffersRefused(s: State, vs: seq<Word>)
    requires s.rxMode
    ensures OfferAll(s, vs) == s
  {
    PushesRefused(s.q, vs, s.inProgress);
  }

  lemma PreparedReading(s: State, i: Input, queued: seq<Word>, quad: bool)
    requires Reading(s, queued, quad)
    ensures Reading(Prepared(s, i), queued, quad)
    ensures var t := Prepared(s, i);
            t.phase == s.phase && t.len == s.len && t.rx.received == s.rx.received && t.inProgress == s.inProgress
    ensures s.rxMode ==> Prepared(s, i).q.fifo == ReadAll(s, i.fetches).q.fifo
  {
    if s.rxMode {
      OffersRefused(s, i.before);
    }
    ReadsKeep(OfferAll(s, i.before), i.fetches);
    ReadsMoveWords(OfferAll(s, i.before), i.fetches);
  }

  // ---------------------------------------------------------------- the invariant

  /** Between the body of a state and its state change, the last word may just have come in. */
  predicate Acted(s: State, queued: seq<Word>, quad: bool) {
    if s.phase == DataRx then
      && s.rx.taken + s.q.fifo == queued + s.rx.received
      && s.inProgress && s.rxMode && !s.txMode && s.quad == quad
      && s.counter == 32 * |s.rx.received| < s.len.data + 32
    else Reading(s, queued, quad)
  }

  lemma ActKeepsReading(s: State, i: Input, queued: seq<Word>, quad: bool)
    requires Reading(s, queued, quad) && 1 <= s.len.data <= MAX_DATALEN
    ensures Acted(Act(s, i), queued, quad) && Act(s, i).len == s.len
  {
    if s.rxMode {
      OffersRefused(s, i.during);
    }
    if s.phase == DataRx {
      var t := Act(s, i);
      assert s.rx.taken + (s.q.fifo + [i.received]) == s.rx.taken + s.q.fifo + [i.received];
      assert queued + s.rx.received + [i.received] == queued + (s.rx.received + [i.received]);
    }
  }

  lemma StateChangeKeepsReading(s: State, queued: seq<Word>, quad: bool)
    requires Acted(s, queued, quad) && 1 <= s.len.data <= MAX_DATALEN
    ensures Reading(StateChange(s), queued, quad) && StateChange(s).len == s.len
  {
  }

  lemma RoundKeepsReading(s: State, i: Input, queued: seq<Word>, quad: bool)
    requires Reading(s, queued, quad) && 1 <= s.len.data <= MAX_DATALEN
    ensures Reading(Round(s, i), queued, quad) && Round(s, i).len == s.len
  {
    PreparedReading(s, i, queued, quad);
    ActKeepsReading(Prepared(s, i), i, queued, quad);
    StateChangeKeepsReading(Act(Prepared(s, i), i), queued, quad);
  }

  lemma {:induction false} RunKeepsReading(s: State, inputs: seq<Input>, queued: seq<Word>, quad: bool)
    requires Reading(s, queued, quad) && 1 <= s.len.data <= MAX_DATALEN
    ensures Reading(Run(s, inputs), queued, quad) && Run(s, inputs).len == s.len
  {
    if inputs != [] {
      RunKeepsReading(s, inputs[..|inputs| - 1], queued, quad);
      RoundKeepsReading(Run(s, inputs[..|inputs| - 1]), inputs[|inputs| - 1], queued, quad);
    }
  }

  // ---------------------------------------------------------------- what has been received

  /** The words the device delivered in the rounds that received. */
  function Delivered(s: State, inputs: seq<Input>): seq<Word> {
    if inputs == [] then []
    else
      var front, i := inputs[..|inputs| - 1], inputs[|inputs| - 1];
      Delivered(s, front) + if Run(s, front).phase == DataRx then [i.received] else []
  }

  lemma ActReceives(s: State, i: Input)
    ensures Act(s, i).rx.received == s.rx.received + if s.phase == DataRx then [i.received] else []
  {
  }

  lemma StateChangeReceives(s: State)
    ensures var t := StateChange(s);
            t.rx.received == s.rx.received && t.rx.taken == s.rx.taken && t.rx.rxStatus == s.rx.rxStatus
  {
  }

  lemma RoundReceives(s: State, i: Input)
    ensures Round(s, i).rx.received == s.rx.received + if s.phase == DataRx then [i.received] else []
  {
    ReadsKeep(OfferAll(s, i.before), i.fetches);
    ActReceives(Prepared(s, i), i);
    StateChangeReceives(Act(Prepared(s, i), i));
  }

  /** At every moment of every run exactly these have been received, in order. */
  lemma {:induction false} ReceivesDelivered(s: State, inputs: seq<Input>)
    ensures Run(s, inputs).rx.received == s.rx.received + Delivered(s, inputs)
  {
    if inputs != [] {
      var front, i := inputs[..|inputs| - 1], inputs[|inputs| - 1];
      ReceivesDelivered(s, front);
      RoundReceives(Run(s, front), i);
    }
  }

  /** A read transfer that reaches FINISHED has received exactly ceil(datalen / 32) words, those the device
      delivered; what software has read so far, followed by what is in the FIFO, is what the FIFO held before
      and then these words, in order. */
  lemma ReadTransfer(s: State, inputs: seq<Input>)
    requires ReadStarted(s) && 1 <= s.len.data <= MAX_DATALEN && Run(s, inputs).phase == Finished
    ensures var t := Run(s, inputs);
            && |t.rx.received| == Words(s.len.data) && t.rx.received == Delivered(s, inputs)
            && t.rx.taken + t.q.fifo == s.q.fifo + t.rx.received
  {
    StartedIsReading(s);
    RunKeepsReading(s, inputs, s.q.fifo, s.quad);
    ReceivesDelivered(s, inputs);
  }

  /** RX_STATUS counts 32 for each word received and not yet read, modulo 256, from where it started. */
  predicate CountsFrom(s: State, t: State) {
    var received, taken := |t.rx.received| - |s.rx.received|, |t.rx.taken| - |s.rx.taken|;
    (t.rx.rxStatus - s.rx.rxStatus - 32 * received + 32 * taken) % 256 == 0
  }

  lemma CountsOn(s: State, t: State, u: State)
    requires CountsFrom(s, t) && CountsFrom(t, u)
    ensures CountsFrom(s, u)
  {
  }

  lemma {:induction false} ReadsCount(s: State, n: nat)
    ensures CountsFrom(s, ReadAll(s, n))
    decreases n
  {
    if n > 0 && s.rxMode {
      ReadsCount(s, n - 1);
      CountsOn(s, ReadAll(s, n - 1), ReadOne(ReadAll(s, n - 1)));
    }
  }

  lemma WordCounts(s: State, w: Word)
    ensures CountsFrom(s, WithReceived(s, w))
  {
  }

  lemma ActCounts(s: State, i: Input)
    ensures CountsFrom(s, Act(s, i))
  {
    if s.phase == DataRx {
      WordCounts(OfferAll(s, i.during), i.received);
    }
  }

  lemma SameCounts(s: State, t: State)
    requires t.rx.received == s.rx.received && t.rx.taken == s.rx.taken && t.rx.rxStatus == s.rx.rxStatus
    ensures CountsFrom(s, t)
  {
  }

  lemma RoundCounts(s: State, i: Input)
    ensures CountsFrom(s, Round(s, i))
  {
    var t := Prepared(s, i);
    var u := Act(t, i);
    ReadsCount(OfferAll(s, i.before), i.fetches);
    ActCounts(t, i);
    StateChangeReceives(u);
    SameCounts(u, StateChange(u));
    CountsOn(s, t, u);
    CountsOn(s, u, StateChange(u));
  }

  /** In every run, whatever its transfers. */
  lemma {:induction false} RxStatusCounts(s: State, inputs: seq<Input>)
    ensures CountsFrom(s, Run(s, inputs))
  {
    if inputs != [] {
      var front, i := inputs[..|inputs| - 1], inputs[|inputs| - 1];
      RxStatusCounts(s, front);
      RoundCounts(Run(s, front), i);
      CountsOn(s, Run(s, front), Round(Run(s, front), i));
    }
  }

  // ---------------------------------------------------------------- stalling

  /** After each word: FINISHED once the words received make up the length, else the next word if the FIFO has room
      for it, else a wait. */
  lemma DataRxRound(s: State, i: Input, queued: seq<Word>, quad: bool)
    requires Reading(s, queued, quad) && s.phase == DataRx && 1 <= s.len.data <= MAX_DATALEN
    ensures var t := Round(s, i);
            t.phase == if 32 * |t.rx.received| >= s.len.data then Finished
                       else if |t.q.fifo| < 2 then DataRx else WaitRx
  {
    PreparedReading(s, i, queued, quad);
    ActKeepsReading(Prepared(s, i), i, queued, quad);
  }

  /** WAIT_RX is left exactly when one word is in the FIFO: not while it is full, and not when it is empty. */
  lemma WaitRxRound(s: State, i: Input)
    requires s.phase == WaitRx
    ensures Round(s, i).phase == if |Prepared(s, i).q.fifo| == 1 then DataRx else WaitRx
  {
    ReadsKeep(OfferAll(s, i.before), i.fetches);
  }

  /** Once software has emptied the FIFO in WAIT_RX, the transfer never goes on. */
  lemma {:induction false} EmptiedReadStalls(s: State, inputs: seq<Input>)
    requires s.phase == WaitRx && s.rxMode && s.q.fifo == []
    ensures var t := Run(s, inputs); t.phase == WaitRx && t.rxMode && t.q.fifo == [] && t.rx.received == s.rx.received
  {
    if inputs != [] {
      var front, i := inputs[..|inputs| - 1], inputs[|inputs| - 1];
      EmptiedReadStalls(s, front);
      var t := Run(s, front);
      OffersRefused(t, i.before);
      ReadsMoveWords(t, i.fetches);
      ReadsKeep(t, i.fetches);
      WaitRxRound(t, i);
    }
  }

  /** A round in which software does nothing and the device delivers `w`. */
  function Quietly(w: Word): Input {
    Input([], 0, [], w)
  }

  lemma FirstRound(s: State, w: Word)
    requires ReadStarted(s) && s.len == Lengths(0, 0, 96, 0, 0)
    ensures Round(s, Quietly(w)) == s.(phase := DataRx)
  {
  }

  lemma WordRound(s: State, w: Word)
    requires s.phase == DataRx && s.counter + 32 < s.len.data < 0x1_0000
    ensures var t := Round(s, Quietly(w));
            && t.phase == (if |s.q.fifo| + 1 < FIFO_SIZE then DataRx else WaitRx)
            && t.q.fifo == s.q.fifo + [w] && t.rx.received == s.rx.received + [w] && t.rx.taken == s.rx.taken
            && t.counter == s.counter + 32 && t.len == s.len && t.rxMode == s.rxMode
  {
  }

  lemma EmptyingRound(s: State, a: Word, b: Word, w: Word)
    requires s.phase == WaitRx && s.rxMode && s.q.fifo == [a, b]
    ensures var t := Round(s, Input([], 2, [], w));
            && t.phase == WaitRx && t.rxMode && t.q.fifo == []
            && t.rx.taken == s.rx.taken + [a, b] && t.rx.received == s.rx.received
  {
    assert ReadAll(s, 1) == ReadOne(s);
    assert ReadOne(s).q.fifo == [b] && s.rx.taken + [a] + [b] == s.rx.taken + [a, b];
    WaitRxRound(s, Input([], 2, [], w));
  }

  /** Such runs start from rest: a read of three words into an empty FIFO, of which software reads the first two
      as soon as the FIFO is full. */
  lemma ThreeWordReadStalls(s: State, a: Word, b: Word, c: Word, inputs: seq<Input>)
    requires ReadStarted(s) && s.q.fifo == [] && s.len == Lengths(0, 0, 96, 0, 0)
    ensures var t := Round(Round(Round(Round(s, Quietly(a)), Quietly(a)), Quietly(b)), Input([], 2, [], c));
            t.phase == WaitRx && t.rx.received == [a, b] && t.rx.taken == [a, b] && Run(t, inputs).phase == WaitRx
  {
    var s1 := Round(s, Quietly(a));
    FirstRound(s, a);
    WordRound(s1, a);
    var s2 := Round(s1, Quietly(a));
    WordRound(s2, b);
    var s3 := Round(s2, Quietly(b));
    assert s3.q.fifo == [a, b] && s3.rx.received == [a, b] && s3.rx.taken == [];
    EmptyingRound(s3, a, b, c);
    EmptiedReadStalls(Round(s3, Input([], 2, [], c)), inputs);
  }

  // ---------------------------------------------------------------- progress

  /** An upper bound on the rounds left while software leaves one word in the FIFO at every wait. */
  function RoundsLeft(s: State): int {
    var left := 2 * (Words(s.len.data) - |s.rx.received|);
    match s.phase
    case Idle => if s.inProgress then left + 4 else 0
    case Command => left + 3
    case Address => left + 2
    case DummyRx => left + 1
    case DataRx => left
    case WaitRx => left + 1
    case _ => 0
  }

  lemma RoundProgresses(s: State, i: Input, queued: seq<Word>, quad: bool)
    requires Reading(s, queued, quad) && 1 <= s.len.data <= MAX_DATALEN && s.inProgress && s.phase != Finished
    requires s.phase == WaitRx ==> |Prepared(s, i).q.fifo| == 1
    ensures 0 <= RoundsLeft(Round(s, i)) < RoundsLeft(s)
    ensures Round(s, i).inProgress
  {
    PreparedReading(s, i, queued, quad);
    RoundKeepsReading(s, i, queued, quad);
    RoundReceives(s, i);
  }

  /** Software leaves exactly one word in the FIFO whenever the transfer waits for room. */
  predicate LeavesOne(s: State, inputs: seq<Input>) {
    inputs != [] ==>
      var front, i := inputs[..|inputs| - 1], inputs[|inputs| - 1];
      LeavesOne(s, front) && (Run(s, front).phase == WaitRx ==> |Prepared(Run(s, front), i).q.fifo| == 1)
  }

  lemma {:induction false} ReadProgresses(s: State, inputs: seq<Input>)
    requires ReadStarted(s) && 1 <= s.len.data <= MAX_DATALEN && LeavesOne(s, inputs)
    ensures Finishes(s, inputs) ||
            (Run(s, inputs).inProgress && 0 <= RoundsLeft(Run(s, inputs)) <= 2 * Words(s.len.data) + 4 - |inputs|)
  {
    if inputs != [] {
      var front, i := inputs[..|inputs| - 1], inputs[|inputs| - 1];
      ReadProgresses(s, front);
      if !Finishes(s, front) {
        StartedIsReading(s);
        RunKeepsReading(s, front, s.q.fifo, s.quad);
        RoundProgresses(Run(s, front), i, s.q.fifo, s.quad);
      }
    }
  }

  /** If it always leaves exactly one, a read of up to MAX_DATALEN bits reaches FINISHED within
      2 * ceil(datalen / 32) + 5 rounds. */
  lemma ServedReadFinishes(s: State, inputs: seq<Input>)
    requires ReadStarted(s) && 1 <= s.len.data <= MAX_DATALEN && LeavesOne(s, inputs)
    requires |inputs| == 2 * Words(s.len.data) + 5
    ensures Finishes(s, inputs)
  {
    ReadProgresses(s, inputs);
  }

  // ---------------------------------------------------------------- the whole transfer on the bus

  function ReadBursts(n: nat, quad: bool): seq<Burst> {
    if n == 0 then [] else ReadBursts(n - 1, quad) + [Burst(StartRead(PerWord(quad)), [])]
  }

  /** What a read transfer has put on the bus when it is in the given state. */
  function OnBus(s: State, h: Header, quad: bool): seq<Burst> {
    match s.phase
    case Idle => Parts(s.len, s.len.dummyRd, h, quad, 0)
    case Command => Parts(s.len, s.len.dummyRd, h, quad, 1)
    case Address => Parts(s.len, s.len.dummyRd, h, quad, 2)
    case DummyRx => Parts(s.len, s.len.dummyRd, h, quad, 3)
    case _ => Parts(s.len, s.len.dummyRd, h, quad, 4) + ReadBursts(|s.rx.received|, quad)
  }

  lemma NothingReadYet(len: Lengths, h: Header, quad: bool)
    ensures Parts(len, len.dummyRd, h, quad, 4) + ReadBursts(0, quad) == Parts(len, len.dummyRd, h, quad, 4)
  {
  }

  lemma HeadOnBus(s: State, t: State, h: Header, queued: seq<Word>, quad: bool)
    requires Reading(s, queued, quad) && s.inProgress && t.len == s.len && t.rx.received == s.rx.received == []
    requires s.phase == Idle || s.phase == Command || s.phase == Address || s.phase == DummyRx
    requires t.phase == StateChange(s).phase
    ensures OnBus(t, h, quad) == OnBus(s, h, quad) + Visible(BurstOf(s, h))
  {
    PartsOf(s.len, s.len.dummyRd, h, quad);
    NothingReadYet(s.len, h, quad);
  }

  lemma WordOnBus(s: State, t: State, h: Header, queued: seq<Word>, quad: bool)
    requires Reading(s, queued, quad) && s.phase == DataRx && t.len == s.len && |t.rx.received| == |s.rx.received| + 1
    requires t.phase == DataRx || t.phase == WaitRx || t.phase == Finished
    ensures OnBus(t, h, quad) == OnBus(s, h, quad) + Visible(BurstOf(s, h))
  {
    assert BurstOf(s, h) == [Burst(StartRead(PerWord(quad)), [])] == Visible(BurstOf(s, h));
  }

  lemma WaitOnBus(s: State, t: State, h: Header, quad: bool)
    requires s.phase == WaitRx && (t.phase == WaitRx || t.phase == DataRx)
    requires t.len == s.len && t.rx.received == s.rx.received
    ensures OnBus(t, h, quad) == OnBus(s, h, quad) + Visible(BurstOf(s, h))
  {
    assert OnBus(s, h, quad) + [] == OnBus(s, h, quad);
  }

  /** Where a round leads to, by the state it starts in. */
  lemma RoundMoves(s: State, i: Input, queued: seq<Word>, quad: bool)
    requires Reading(s, queued, quad) && s.inProgress && s.phase != Finished
    ensures var t := Round(s, i);
            match s.phase
            case DataRx => t.phase == DataRx || t.phase == WaitRx || t.phase == Finished
            case WaitRx => t.phase == WaitRx || t.phase == DataRx
            case _ => t.phase == StateChange(Prepared(s, i)).phase
  {
    PreparedReading(s, i, queued, quad);
  }

  lemma RoundOnBus(s: State, h: Header, i: Input, queued: seq<Word>, quad: bool)
    requires Reading(s, queued, quad) && s.inProgress && s.phase != Finished && 1 <= s.len.data <= MAX_DATALEN
    ensures OnBus(Round(s, i), h, quad) == OnBus(s, h, quad) + Visible(BurstOf(Prepared(s, i), h))
  {
    var s1, t := Prepared(s, i), Round(s, i);
    PreparedReading(s, i, queued, quad);
    RoundKeepsReading(s, i, queued, quad);
    RoundReceives(s, i);
    RoundMoves(s, i, queued, quad);
    if s.phase == DataRx {
      WordOnBus(s1, t, h, queued, quad);
    } else if s.phase == WaitRx {
      WaitOnBus(s1, t, h, quad);
    } else {
      HeadOnBus(s1, t, h, queued, quad);
    }
  }

  lemma {:induction false} NotFinishedYet(s: State, inputs: seq<Input>)
    requires ReadStarted(s) && 1 <= s.len.data <= MAX_DATALEN && !Finishes(s, inputs)
    ensures Run(s, inputs).inProgress && Run(s, inputs).phase != Finished
  {
    if inputs != [] {
      var front, i := inputs[..|inputs| - 1], inputs[|inputs| - 1];
      NotFinishedYet(s, front);
      StartedIsReading(s);
      RunKeepsReading(s, front, s.q.fifo, s.quad);
      PreparedReading(Run(s, front), i, s.q.fifo, s.quad);
      RoundMoves(Run(s, front), i, s.q.fifo, s.quad);
      RoundKeepsReading(Run(s, front), i, s.q.fifo, s.quad);
    }
  }

  /** Until it is finished, a read transfer has put on the bus exactly this: the select, the command and address
      if they have a length, the dummy cycles, and one announced burst of read cycles for each word received. */
  lemma {:induction false} TransferOnBus(s: State, h: Header, inputs: seq<Input>)
    requires ReadStarted(s) && 1 <= s.len.data <= MAX_DATALEN
    requires inputs != [] ==> !Finishes(s, inputs[..|inputs| - 1])
    ensures Log(s, h, inputs) == OnBus(Run(s, inputs), h, s.quad)
  {
    if inputs != [] {
      var front, i := inputs[..|inputs| - 1], inputs[|inputs| - 1];
      TransferOnBus(s, h, front);
      StartedIsReading(s);
      RunKeepsReading(s, front, s.q.fifo, s.quad);
      NotFinishedYet(s, front);
      RoundOnBus(Run(s, front), h, i, s.q.fifo, s.quad);
    }
  }
}
