/** The SPI master of pulpino/spi_master.h as it is written: a FIFO, mode flags and status fields, and a
    control thread whose bus cycles interleave with software's writes. Each round of the thread refines
    one round of SpiSpec. */
module SpiMaster {
  import opened SpiSerial
  import opened SpiSpec
  import opened SpiRead

  class SpiMaster {
    var phase: Phase
    var fifo: seq<Word>
    var counter: Counter
    var inProgress: bool
    var quad: bool
    var txMode: bool
    var rxMode: bool
    var txStatus: Status
    var rxStatus: Status
    var txStatusHelp: Status
    var len: Lengths
    var chipselect: nat
    var spicmd: Word
    var spiadr: Word
    ghost var accepted: seq<Word>
    ghost var sent: seq<Word>
    ghost var received: seq<Word>
    ghost var taken: seq<Word>

    ghost function Contents(): Queue
      reads this`fifo, this`accepted, this`txStatus, this`txStatusHelp
    {
      Queue(fifo, accepted, txStatus, txStatusHelp)
    }

    ghost function Receiver(): Reception
      reads this`rxStatus, this`received, this`taken
    {
      Reception(rxStatus, received, taken)
    }

    ghost function Abstract(): State
      reads this
    {
      State(phase, Contents(), counter, inProgress, quad, txMode, rxMode, Receiver(), len, sent)
    }

    ghost function Head(): Header
      reads this`chipselect, this`spicmd, this`spiadr
    {
      Header(chipselect, spicmd, spiadr)
    }

    /** The state reset() leaves behind. */
    constructor ()
      ensures Ready(Abstract()) && fifo == [] && !quad && txStatus == rxStatus == txStatusHelp == 0
      ensures accepted == sent == received == taken == []
    {
      phase, fifo, counter, inProgress, quad, txMode, rxMode := Idle, [], 0, false, false, false, false;
      txStatus, rxStatus, txStatusHelp, len := 0, 0, 0, Lengths(0, 0, 0, 0, 0);
      chipselect, spicmd, spiadr := 0, ZERO, ZERO;
      accepted, sent, received, taken := [], [], [], [];
    }

    /** What every STATUS write does to the two status fields. */
    method StoreStatus(tx: Status, rx: Status)
      modifies this`txStatus, this`rxStatus
      ensures Abstract() == StatusWritten(old(Abstract()), tx, rx)
    {
      txStatus, rxStatus := tx, rx;
    }

    /** A STATUS write with the WR or QWR bit: its status fields are stored, and a write transfer starts unless
        one is in progress. The logs of a new transfer begin with the words that are already queued. */
    method BeginWrite(inQuad: bool, tx: Status, rx: Status)
      modifies this`inProgress, this`txMode, this`quad, this`txStatus, this`rxStatus, this`accepted, this`sent
      ensures Abstract() == WriteBegun(old(Abstract()), inQuad, tx, rx)
      ensures old(Ready(Abstract())) ==> Started(Abstract()) && Contents().fifo == old(fifo)
    {
      ghost var s := Abstract();
      WriteBegunIsStarted(s, inQuad, tx, rx);
      StoreStatus(tx, rx);
      if !inProgress {
        inProgress, txMode, quad := true, true, inQuad;
        accepted, sent := fifo, [];
      }
    }

    /** A STATUS write with the RD or QRD bit. */
    method BeginRead(inQuad: bool, tx: Status, rx: Status)
      modifies this`inProgress, this`rxMode, this`quad, this`txStatus, this`rxStatus, this`received, this`taken
      ensures Abstract() == ReadBegun(old(Abstract()), inQuad, tx, rx)
      ensures old(Ready(Abstract())) ==> ReadStarted(Abstract()) && Contents().fifo == old(fifo)
    {
      ghost var s := Abstract();
      ReadBegunIsStarted(s, inQuad, tx, rx);
      StoreStatus(tx, rx);
      if !inProgress {
        inProgress, rxMode, quad := true, true, inQuad;
        received, taken := [], [];
      }
    }

    /** The TXFIFO write callback. */
    method TxWrite(v: Word)
      modifies this`fifo, this`txStatus, this`txStatusHelp, this`accepted
      ensures Contents() == Push(old(Contents()), v, rxMode, inProgress)
    {
      if !rxMode {
        if |fifo| < FIFO_SIZE {
          fifo := fifo + [v];
          accepted := accepted + [v];
          txStatus := Wrap8(txStatus + 4);
          if !inProgress {
            txStatusHelp := txStatus;
          }
        }
      }
    }

    /** The RXFIFO read callback. */
    method RxRead() returns (v: Word)
      requires rxMode
      modifies this`fifo, this`rxStatus, this`taken
      ensures Abstract() == ReadOne(old(Abstract()))
      ensures v == if old(fifo) == [] then ZERO else old(fifo)[0]
    {
      v := ZERO;
      if fifo != [] {
        v := fifo[0];
        fifo := fifo[1..];
        rxStatus := Wrap8(rxStatus - 32);
        taken := taken + [v];
      }
    }

    /** Software reads RXFIFO again and again while the control thread waits; only read transfers are modelled
        with such reads. */
    method Fetch(n: nat)
      modifies this`fifo, this`rxStatus, this`taken
      ensures Abstract() == ReadAll(old(Abstract()), n)
    {
      ghost var s := Abstract();
      if rxMode {
        for k := 0 to n
          invariant Abstract() == ReadAll(s, k)
        {
          ReadsKeep(s, k);
          var v := RxRead();
        }
      }
    }

    /** Software at work while the control thread waits. */
    method Wait(vs: seq<Word>)
      modifies this`fifo, this`txStatus, this`txStatusHelp, this`accepted
      ensures Contents() == PushAll(old(Contents()), vs, rxMode, inProgress)
    {
      ghost var q := Contents();
      for k := 0 to |vs|
        invariant Contents() == PushAll(q, vs[..k], rxMode, inProgress)
      {
        assert vs[..k + 1][..k] == vs[..k];
        TxWrite(vs[k]);
      }
      assert vs[..|vs|] == vs;
    }

    /** Software at work during the clock wait of a round. */
    method ClockWait(vs: seq<Word>, fetches: nat)
      modifies this`fifo, this`txStatus, this`txStatusHelp, this`accepted, this`rxStatus, this`taken
      ensures Abstract() == ReadAll(OfferAll(old(Abstract()), vs), fetches)
      ensures CycleCount(Abstract()) == CycleCount(old(Abstract())) && Head() == old(Head())
    {
      ghost var s := Abstract();
      Wait(vs);
      assert Abstract() == OfferAll(s, vs);
      Fetch(fetches);
    }

    // -------------------------------------------------------------- bus cycles

    /** The cycle loops of COMMAND and ADDRESS: consecutive bits of a register, a wait after each cycle. */
    method SendField(w: Word, start: nat, n: nat, waits: seq<seq<Word>>) returns (cycles: seq<Word>)
      requires |waits| == n && InWord(start, n, quad)
      modifies this`fifo, this`txStatus, this`txStatusHelp, this`accepted
      ensures Contents() == PushAll(old(Contents()), Flatten(waits, n), rxMode, inProgress)
      ensures cycles == Cycles(w, start, n, quad)
    {
      ghost var q := Contents();
      cycles := [];
      for k := 0 to n
        invariant Contents() == PushWaits(q, waits, k, rxMode, inProgress) && cycles == Cycles(w, start, k, quad)
      {
        cycles := cycles + [Payload(w, start + Offset(k, quad), quad)];
        Wait(waits[k]);
      }
      WaitsArePushes(q, waits, n, rxMode, inProgress);
    }

    /** The cycle loops of DUMMY_TX and DUMMY_RX: zeros. */
    method SendZeros(n: nat, waits: seq<seq<Word>>) returns (cycles: seq<Word>)
      requires |waits| == n
      modifies this`fifo, this`txStatus, this`txStatusHelp, this`accepted
      ensures Contents() == PushAll(old(Contents()), Flatten(waits, n), rxMode, inProgress)
      ensures cycles == Repeated(Payload(ZERO, 0, quad), n)
    {
      ghost var q := Contents();
      cycles := [];
      for k := 0 to n
        invariant Contents() == PushWaits(q, waits, k, rxMode, inProgress)
        invariant cycles == Repeated(Payload(ZERO, 0, quad), k)
      {
        cycles := cycles + [Payload(ZERO, 0, quad)];
        Wait(waits[k]);
      }
      WaitsArePushes(q, waits, n, rxMode, inProgress);
    }

    /** One cycle of DATA_TX: send from the front of the FIFO, count, wait. */
    method SendCycle(n: nat, wait: seq<Word>) returns (payload: Word)
      requires fifo != [] && n < PerWord(quad)
      modifies this`fifo, this`txStatus, this`txStatusHelp, this`accepted, this`counter
      ensures fifo != [] && fifo[0] == old(fifo)[0] && payload == Payload(fifo[0], Offset(n, quad), quad)
      ensures counter == Count(old(counter), Lanes(quad))
      ensures Contents() == PushAll(old(Contents()), wait, rxMode, inProgress)
    {
      payload := Payload(fifo[0], Offset(n, quad), quad);
      counter := Count(counter, Lanes(quad));
      PushesExtend(Contents(), wait, rxMode, inProgress);
      Wait(wait);
    }

    /** The cycle loop of DATA_TX. */
    method SendCycles(waits: seq<seq<Word>>) returns (cycles: seq<Word>)
      requires fifo != [] && |waits| == PerWord(quad)
      modifies this`fifo, this`txStatus, this`txStatusHelp, this`accepted, this`counter
      ensures Contents() == PushAll(old(Contents()), Flatten(waits, |waits|), rxMode, inProgress)
      ensures fifo != [] && fifo[0] == old(fifo)[0]
      ensures counter == Count(old(counter), WORD_BITS) && cycles == Cycles(fifo[0], 0, PerWord(quad), quad)
    {
      ghost var q, w := Contents(), fifo[0];
      cycles := [];
      for n := 0 to |waits|
        invariant Contents() == PushWaits(q, waits, n, rxMode, inProgress)
        invariant fifo != [] && fifo[0] == w
        invariant counter == Count(old(counter), Offset(n, quad)) && cycles == Cycles(w, 0, n, quad)
      {
        var payload := SendCycle(n, waits[n]);
        cycles := cycles + [payload];
      }
      WaitsArePushes(q, waits, |waits|, rxMode, inProgress);
    }

    /** Take the word that has been sent off the FIFO. */
    method PopSent()
      requires fifo != []
      modifies this`fifo, this`txStatus, this`sent
      ensures fifo == old(fifo)[1..] && txStatus == Wrap8(old(txStatus) - 4) && sent == old(sent) + [old(fifo)[0]]
    {
      sent := sent + [fifo[0]];
      fifo := fifo[1..];
      txStatus := Wrap8(txStatus - 4);
    }

    // -------------------------------------------------------------- the bodies of the states

    method ActIdle() returns (bursts: seq<Burst>)
      requires phase == Idle
      modifies this`txStatus
      ensures forall i :: Abstract() == Act(old(Abstract()), i)
      ensures bursts == BurstOf(old(Abstract()), Head())
    {
      bursts := [];
      if inProgress {
        if txMode {
          txStatus := txStatusHelp;
        }
        bursts := [Burst(Start(chipselect), [])];
      }
    }

    method ActFinished() returns (bursts: seq<Burst>)
      requires phase == Finished
      modifies this`quad, this`counter
      ensures forall i :: Abstract() == Act(old(Abstract()), i)
      ensures bursts == BurstOf(old(Abstract()), Head())
    {
      quad := false;
      counter := 0;
      bursts := [Burst(Stop, [])];
    }

    /** COMMAND and ADDRESS. */
    method ActField(waits: seq<seq<Word>>) returns (bursts: seq<Burst>)
      requires (phase == Command || phase == Address) && |waits| == CycleCount(Abstract())
      modifies this`fifo, this`txStatus, this`txStatusHelp, this`accepted
      ensures Abstract() == OfferAll(old(Abstract()), Flatten(waits, |waits|))
      ensures bursts == BurstOf(old(Abstract()), Head())
    {
      if phase == Command {
        var cycles := SendField(spicmd, 0, |waits|, waits);
        bursts := [Burst(SpiCommand, cycles)];
      } else {
        var cycles := SendField(spiadr, 32 - len.addr, |waits|, waits);
        bursts := [Burst(SpiAddress, cycles)];
      }
    }

    /** DUMMY_TX and DUMMY_RX. */
    method ActDummy(waits: seq<seq<Word>>) returns (bursts: seq<Burst>)
      requires (phase == DummyTx || phase == DummyRx) && |waits| == CycleCount(Abstract())
      modifies this`fifo, this`txStatus, this`txStatusHelp, this`accepted
      ensures Abstract() == OfferAll(old(Abstract()), Flatten(waits, |waits|))
      ensures bursts == BurstOf(old(Abstract()), Head())
    {
      var cycles := SendZeros(|waits|, waits);
      bursts := [Burst(Dummy, cycles)];
    }

    /** The cycles of the word at the front of the FIFO, and its removal. */
    method SendFront(waits: seq<seq<Word>>) returns (cycles: seq<Word>)
      requires fifo != [] && |waits| == PerWord(quad)
      modifies this`fifo, this`txStatus, this`txStatusHelp, this`accepted, this`counter, this`sent
      ensures Abstract() == AfterWord(OfferAll(old(Abstract()), Flatten(waits, |waits|)))
      ensures cycles == Cycles(old(fifo)[0], 0, PerWord(quad), quad)
    {
      ghost var s0 := Abstract();
      cycles := SendCycles(waits);
      assert Abstract() == OfferAll(s0, Flatten(waits, |waits|)).(counter := Count(s0.counter, WORD_BITS));
      PopSent();
    }

    /** DATA_TX: a word if there is one. */
    method TransmitWord(waits: seq<seq<Word>>) returns (bursts: seq<Burst>)
      requires phase == DataTx && |waits| == PerWord(quad)
      modifies this`fifo, this`txStatus, this`txStatusHelp, this`accepted, this`counter, this`sent
      ensures Abstract() ==
              if old(fifo) == [] then old(Abstract()) else AfterWord(OfferAll(old(Abstract()), Flatten(waits, |waits|)))
      ensures bursts == BurstOf(old(Abstract()), Head())
    {
      var cycles := [];
      if fifo != [] {
        cycles := SendFront(waits);
      }
      bursts := [Burst(StartWrite, cycles)];
    }

    /** The cycle loop of DATA_RX: or the sample in at its place, count, wait. */
    method ReceiveCycles(waits: seq<seq<Word>>, samples: seq<Word>) returns (word: Word)
      requires |waits| == |samples| == PerWord(quad)
      modifies this`fifo, this`txStatus, this`txStatusHelp, this`accepted, this`counter
      ensures Contents() == PushAll(old(Contents()), Flatten(waits, |waits|), rxMode, inProgress)
      ensures counter == Count(old(counter), WORD_BITS)
      ensures word == Collected(samples, quad)
    {
      ghost var q := Contents();
      word := ZERO;
      for n := 0 to |waits|
        invariant Contents() == PushWaits(q, waits, n, rxMode, inProgress)
        invariant counter == Count(old(counter), Offset(n, quad))
        invariant word == Collected(samples[..n], quad)
      {
        assert samples[..n + 1][..n] == samples[..n];
        word := Collect(word, samples[n], n, quad);
        counter := Count(counter, Lanes(quad));
        Wait(waits[n]);
      }
      assert samples[..|samples|] == samples;
      WaitsArePushes(q, waits, |waits|, rxMode, inProgress);
    }

    /** The same, as a change of the whole state. */
    method ReceiveBurst(waits: seq<seq<Word>>, samples: seq<Word>) returns (word: Word)
      requires |waits| == |samples| == PerWord(quad)
      modifies this`fifo, this`txStatus, this`txStatusHelp, this`accepted, this`counter
      ensures word == Collected(samples, quad)
      ensures Abstract() ==
              OfferAll(old(Abstract()), Flatten(waits, |waits|)).(counter := Count(old(counter), WORD_BITS))
    {
      word := ReceiveCycles(waits, samples);
    }

    /** DATA_RX: a word is put together from its samples and queued, whether or not there is room. */
    method ReceiveWord(waits: seq<seq<Word>>, samples: seq<Word>) returns (bursts: seq<Burst>)
      requires phase == DataRx && |waits| == |samples| == PerWord(quad)
      modifies this`fifo, this`txStatus, this`txStatusHelp, this`accepted, this`counter, this`rxStatus, this`received
      ensures Abstract() ==
              WithReceived(OfferAll(old(Abstract()), Flatten(waits, |waits|)), Collected(samples, quad))
      ensures bursts == BurstOf(old(Abstract()), Head())
    {
      bursts := [Burst(StartRead(|waits|), [])];
      var word := ReceiveBurst(waits, samples);
      QueueWord(word);
    }

    method QueueWord(word: Word)
      modifies this`fifo, this`rxStatus, this`received
      ensures Abstract() == old(Abstract()).(
                q := old(Contents()).(fifo := old(fifo) + [word]),
                rx := old(Receiver()).(rxStatus := Wrap8(old(rxStatus) + 32), received := old(received) + [word]))
    {
      fifo := fifo + [word];
      rxStatus := Wrap8(rxStatus + 32);
      received := received + [word];
    }

    /** The body of the current state: what it does to the registers and what it puts on the bus. `waits`
        is what software writes after each of its cycles, `samples` what the device puts on the data lines. */
    method ActOnState(waits: seq<seq<Word>>, samples: seq<Word>) returns (bursts: seq<Burst>)
      requires |waits| == CycleCount(Abstract()) && |samples| == PerWord(quad)
      modifies this`fifo, this`txStatus, this`txStatusHelp, this`accepted, this`counter, this`rxStatus, this`sent,
        this`received, this`quad
      ensures Abstract() ==
              Act(old(Abstract()), Input([], 0, Flatten(waits, |waits|), Collected(samples, old(quad))))
      ensures bursts == BurstOf(old(Abstract()), Head())
    {
      match phase {
        case Idle => bursts := ActIdle();
        case Command => bursts := ActField(waits);
        case Address => bursts := ActField(waits);
        case DummyTx => bursts := ActDummy(waits);
        case DummyRx => bursts := ActDummy(waits);
        case DataTx => bursts := TransmitWord(waits);
        case DataRx => bursts := ReceiveWord(waits, samples);
        case WaitTx => bursts := [];
        case WaitRx => bursts := [];
        case Finished => bursts := ActFinished();
      }
    }

    /** The body of the current state and its state change. */
    method Step(waits: seq<seq<Word>>, samples: seq<Word>) returns (bursts: seq<Burst>)
      requires |waits| == CycleCount(Abstract()) && |samples| == PerWord(quad)
      modifies this`fifo, this`txStatus, this`txStatusHelp, this`accepted, this`counter, this`rxStatus, this`sent,
        this`received, this`quad, this`phase, this`inProgress, this`rxMode, this`txMode
      ensures Abstract() ==
              StateChange(Act(old(Abstract()), Input([], 0, Flatten(waits, |waits|), Collected(samples, old(quad)))))
      ensures bursts == BurstOf(old(Abstract()), old(Head()))
    {
      ghost var s, i := Abstract(), Input([], 0, Flatten(waits, |waits|), Collected(samples, quad));
      bursts := ActOnState(waits, samples);
      assert Abstract() == Act(s, i);
      ChangeState();
    }

    /** One round of control_thread: the clock wait, then the step. */
    method ControlRound(before: seq<Word>, fetches: nat, waits: seq<seq<Word>>, samples: seq<Word>)
      returns (bursts: seq<Burst>)
      requires |waits| == CycleCount(Abstract()) && |samples| == PerWord(quad)
      modifies this`fifo, this`txStatus, this`txStatusHelp, this`accepted, this`counter, this`rxStatus, this`sent,
        this`received, this`taken, this`quad, this`phase, this`inProgress, this`rxMode, this`txMode
      ensures var i := Input(before, fetches, Flatten(waits, |waits|), Collected(samples, old(quad)));
              && Abstract() == Round(old(Abstract()), i)
              && bursts == BurstOf(Prepared(old(Abstract()), i), old(Head()))
    {
      ghost var s, during, word := Abstract(), Flatten(waits, |waits|), Collected(samples, quad);
      ClockWait(before, fetches);
      ghost var t := Abstract();
      RoundOf(s, t, before, fetches, during, word);
      bursts := Step(waits, samples);
    }

    /** state_change. */
    method ChangeState()
      modifies this`phase, this`inProgress, this`rxMode, this`txMode
      ensures Abstract() == StateChange(old(Abstract()))
    {
      match phase {
        case Idle =>
          if inProgress {
            if len.cmd != 0 {
              phase := Command;
            } else if len.addr != 0 {
              phase := Address;
            } else {
              EnterPayloads(Idle);
            }
          }
        case Command =>
          if len.addr != 0 {
            phase := Address;
          } else {
            EnterPayloads(Finished);
          }
        case Address => EnterPayloads(Finished);
        case DummyTx => phase := DataTx;
        case DummyRx => phase := DataRx;
        case DataTx =>
          if counter < len.data {
            if fifo == [] {
              phase := WaitTx;
            }
          } else {
            phase := Finished;
          }
        case WaitTx =>
          if fifo != [] {
            phase := DataTx;
          }
        case DataRx =>
          if counter < len.data {
            if |fifo| >= FIFO_SIZE {
              phase := WaitRx;
            }
          } else {
            phase := Finished;
          }
        case WaitRx =>
          if |fifo| < FIFO_SIZE && |fifo| != 0 {
            phase := DataRx;
          }
        case Finished =>
          if txStatus == 0 || rxStatus == 0 {
            inProgress, rxMode, txMode := false, false, false;
            phase := Idle;
          }
      }
    }

    /** The tail shared by IDLE, COMMAND and ADDRESS. */
    method EnterPayloads(otherwise: Phase)
      modifies this`phase
      ensures phase == Payloads(old(Abstract()), otherwise)
    {
      phase := otherwise;
      if txMode {
        if len.dummyWr != 0 {
          phase := DummyTx;
        } else {
          phase := DataTx;
        }
      } else if rxMode {
        if len.dummyRd != 0 {
          phase := DummyRx;
        } else {
          phase := DataRx;
        }
      }
    }
  }
}
