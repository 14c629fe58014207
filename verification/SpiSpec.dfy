/** The transfer state machine of pulpino/spi_master.h: a two-entry FIFO shared by both directions, a
    16-bit bit counter, and a control thread that handles one state per clock period while software
    keeps pushing words at every wait. */
module SpiSpec {
  import opened SpiSerial

  const FIFO_SIZE := 2
  const WORD_BITS := 32
  /** The largest bit count a 16-bit counter can reach in whole words without wrapping. */
  const MAX_DATALEN := 65504

  datatype Phase =
    | Idle | Command | Address | DummyTx | DummyRx | DataTx | DataRx | WaitTx | WaitRx | Finished

  type Counter = c: int | 0 <= c < 0x1_0000

  type Status = x: int | 0 <= x < 256

  /** Command and address lengths in bits, up to the word they are taken from. */
  type Field = n: int | 0 <= n <= 32

  /** The SPILEN and SPIDUM fields. */
  datatype Lengths = Lengths(cmd: Field, addr: Field, data: nat, dummyWr: nat, dummyRd: nat)

  /** What goes out before the data: chip select, SPICMD and SPIADR. */
  datatype Header = Header(chipselect: nat, command: Word, address: Word)

  /** The FIFO with its fill status; `accepted` records the words software has put into it. */
  datatype Queue = Queue(fifo: seq<Word>, accepted: seq<Word>, txStatus: Status, txStatusHelp: Status)

  /** The receive status; `received` records the words taken from the bus, and `taken` those that software has
      read from RXFIFO while receiving. */
  datatype Reception = Reception(rxStatus: Status, received: seq<Word>, taken: seq<Word>)

  /** Registers and helper variables; `sent` records the words put on the bus. */
  datatype State = State(
    phase: Phase,
    q: Queue,
    counter: Counter,
    inProgress: bool,
    quad: bool,
    txMode: bool,
    rxMode: bool,
    rx: Reception,
    len: Lengths,
    sent: seq<Word>)

  /** Addition to an eight-bit status field. */
  function Wrap8(x: int): Status
    requires -256 <= x < 512
  {
    if x < 0 then x + 256 else if x < 256 then x else x - 256
  }

  /** uint16_t addition of up to a word of bits. */
  function Count(counter: Counter, bits: nat): Counter
    requires bits <= WORD_BITS
  {
    if counter + bits < 0x1_0000 then counter + bits else counter + bits - 0x1_0000
  }

  /** The TXFIFO write callback: refused in read mode, dropped when the FIFO is full. */
  function Push(q: Queue, v: Word, rxMode: bool, inProgress: bool): Queue {
    if rxMode || |q.fifo| >= FIFO_SIZE then q
    else
      var txStatus := Wrap8(q.txStatus + 4);
      Queue(q.fifo + [v], q.accepted + [v], txStatus, if inProgress then q.txStatusHelp else txStatus)
  }

  function PushAll(q: Queue, vs: seq<Word>, rxMode: bool, inProgress: bool): Queue {
    if vs == [] then q
    else Push(PushAll(q, vs[..|vs| - 1], rxMode, inProgress), vs[|vs| - 1], rxMode, inProgress)
  }

  /** Pushes only append, and at least one word ends up in the FIFO. */
  lemma {:induction false} PushesExtend(q: Queue, vs: seq<Word>, rxMode: bool, inProgress: bool)
    ensures var q' := PushAll(q, vs, rxMode, inProgress);
            && q.fifo <= q'.fifo && q.accepted <= q'.accepted
            && (!rxMode && vs != [] ==> q'.fifo != [])
  {
    if vs != [] {
      PushesExtend(q, vs[..|vs| - 1], rxMode, inProgress);
    }
  }

  /** Software writes `vs`, one after the other. */
  function OfferAll(s: State, vs: seq<Word>): State {
    s.(q := PushAll(s.q, vs, s.rxMode, s.inProgress))
  }

  /** The RXFIFO read callback while a word is there. */
  function ReadOne(s: State): State {
    if s.q.fifo == [] then s
    else s.(
      q := s.q.(fifo := s.q.fifo[1..]),
      rx := s.rx.(rxStatus := Wrap8(s.rx.rxStatus - 32), taken := s.rx.taken + [s.q.fifo[0]]))
  }

  /** Software reads RXFIFO `n` times; only read transfers are modelled with such reads. */
  function ReadAll(s: State, n: nat): State
    decreases n
  {
    if n == 0 || !s.rxMode then s else ReadOne(ReadAll(s, n - 1))
  }

  /** Where a write transfer goes once command and address are out. */
  function Payloads(s: State, otherwise: Phase): Phase {
    if s.txMode then (if s.len.dummyWr != 0 then DummyTx else DataTx)
    else if s.rxMode then (if s.len.dummyRd != 0 then DummyRx else DataRx)
    else otherwise
  }

  /** state_change. */
  function StateChange(s: State): State {
    match s.phase
    case Idle =>
      if !s.inProgress then s
      else if s.len.cmd != 0 then s.(phase := Command)
      else if s.len.addr != 0 then s.(phase := Address)
      else s.(phase := Payloads(s, Idle))
    case Command => if s.len.addr != 0 then s.(phase := Address) else s.(phase := Payloads(s, Finished))
    case Address => s.(phase := Payloads(s, Finished))
    case DummyTx => s.(phase := DataTx)
    case DummyRx => s.(phase := DataRx)
    case DataTx =>
      if s.counter < s.len.data then (if s.q.fifo != [] then s else s.(phase := WaitTx))
      else s.(phase := Finished)
    case WaitTx => if s.q.fifo == [] then s else s.(phase := DataTx)
    case DataRx =>
      if s.counter < s.len.data then (if |s.q.fifo| < FIFO_SIZE then s else s.(phase := WaitRx))
      else s.(phase := Finished)
    case WaitRx => if |s.q.fifo| >= FIFO_SIZE || |s.q.fifo| == 0 then s else s.(phase := DataRx)
    case Finished =>
      if s.q.txStatus == 0 || s.rx.rxStatus == 0 then
        s.(phase := Idle, inProgress := false, rxMode := false, txMode := false)
      else s
  }

  /** What the environment does during one round of the control thread: words software writes, and RXFIFO
      reads it makes, while the thread waits for its clock, words it writes while the state's own cycles run,
      and the word the device delivers if the state receives. */
  datatype Input = Input(before: seq<Word>, fetches: nat, during: seq<Word>, received: Word)

  /** The state in which the body runs. */
  function Prepared(s: State, i: Input): State {
    ReadAll(OfferAll(s, i.before), i.fetches)
  }

  /** The body of one state. */
  function Act(s: State, i: Input): State {
    match s.phase
    case Idle => if s.inProgress && s.txMode then s.(q := s.q.(txStatus := s.q.txStatusHelp)) else s
    case Command => OfferAll(s, i.during)
    case Address => OfferAll(s, i.during)
    case DummyTx => OfferAll(s, i.during)
    case DummyRx => OfferAll(s, i.during)
    case DataTx => if s.q.fifo == [] then s else AfterWord(OfferAll(s, i.during))
    case DataRx => WithReceived(OfferAll(s, i.during), i.received)
    case WaitTx => s
    case WaitRx => s
    case Finished => s.(quad := false, counter := 0)
  }

  /** The whole word at the front of the FIFO is out, and its place is freed. */
  function AfterWord(s: State): State {
    if s.q.fifo == [] then s
    else s.(
      q := s.q.(fifo := s.q.fifo[1..], txStatus := Wrap8(s.q.txStatus - 4)),
      counter := Count(s.counter, WORD_BITS),
      sent := s.sent + [s.q.fifo[0]])
  }

  /** A received word is queued and counted. */
  function WithReceived(s: State, received: Word): State {
    s.(q := s.q.(fifo := s.q.fifo + [received]),
       counter := Count(s.counter, WORD_BITS),
       rx := s.rx.(rxStatus := Wrap8(s.rx.rxStatus + 32), received := s.rx.received + [received]))
  }

  /** One round of the control thread. */
  function Round(s: State, i: Input): State {
    StateChange(Act(Prepared(s, i), i))
  }

  function Run(s: State, inputs: seq<Input>): State {
    if inputs == [] then s else Round(Run(s, inputs[..|inputs| - 1]), inputs[|inputs| - 1])
  }

  /** A round is the clock wait and then the step. */
  lemma RoundOf(s: State, t: State, before: seq<Word>, fetches: nat, during: seq<Word>, received: Word)
    requires t == ReadAll(OfferAll(s, before), fetches)
    ensures Prepared(s, Input(before, fetches, during, received)) == t
    ensures Round(s, Input(before, fetches, during, received)) == StateChange(Act(t, Input([], 0, during, received)))
  {
  }

  /** Whatever has left the FIFO followed by what is in it stays the sequence of accepted words. */
  lemma {:induction false} PushesKeepOrder(q: Queue, vs: seq<Word>, rxMode: bool, inProgress: bool, gone: seq<Word>)
    requires gone + q.fifo == q.accepted
    ensures gone + PushAll(q, vs, rxMode, inProgress).fifo == PushAll(q, vs, rxMode, inProgress).accepted
  {
    if vs != [] {
      PushesKeepOrder(q, vs[..|vs| - 1], rxMode, inProgress, gone);
      var t := PushAll(q, vs[..|vs| - 1], rxMode, inProgress);
      assert gone + (t.fifo + [vs[|vs| - 1]]) == gone + t.fifo + [vs[|vs| - 1]];
    }
  }

  // ---------------------------------------------------------------- a write transfer

  /** The number of data words of a transfer. */
  function Words(datalen: nat): nat {
    (datalen + 31) / 32
  }

  /** A write transfer has been started and nothing has been sent yet; the FIFO may already hold words. */
  predicate Started(s: State) {
    && s.phase == Idle && s.inProgress && s.txMode && !s.rxMode && s.counter == 0
    && s.sent == [] && s.q.accepted == s.q.fifo
  }

  /** Nothing is going on, and a transfer may be started. */
  predicate Ready(s: State) {
    s.phase == Idle && !s.inProgress && !s.txMode && !s.rxMode && s.counter == 0
  }

  /** A write of the STATUS register replaces both status fields, whichever transfer bit it sets. */
  function StatusWritten(s: State, tx: Status, rx: Status): State {
    s.(q := s.q.(txStatus := tx), rx := s.rx.(rxStatus := rx))
  }

  /** The WR and QWR bits: a new transfer, of the words that are in the FIFO and those still to come. */
  function WriteBegun(s: State, quad: bool, tx: Status, rx: Status): State {
    var t := StatusWritten(s, tx, rx);
    if t.inProgress then t
    else t.(inProgress := true, txMode := true, quad := quad, q := t.q.(accepted := t.q.fifo), sent := [])
  }

  /** The RD and QRD bits. */
  function ReadBegun(s: State, quad: bool, tx: Status, rx: Status): State {
    var t := StatusWritten(s, tx, rx);
    if t.inProgress then t
    else t.(inProgress := true, rxMode := true, quad := quad, rx := t.rx.(received := [], taken := []))
  }

  /** From rest a WR or QWR write starts one. */
  lemma WriteBegunIsStarted(s: State, quad: bool, tx: Status, rx: Status)
    ensures Ready(s) ==> Started(WriteBegun(s, quad, tx, rx)) && WriteBegun(s, quad, tx, rx).q.fifo == s.q.fifo
  {
  }

  /** Invariant of a write transfer of 1 to MAX_DATALEN bits until it is finished and put away. */
  predicate Writing(s: State, quad: bool) {
    && s.sent + s.q.fifo == s.q.accepted
    && (s.inProgress && s.phase != Finished ==> s.quad == quad)
    && (match s.phase
        case Idle =>
          if s.inProgress then s.txMode && !s.rxMode && s.sent == [] && s.counter == 0
          else !s.txMode && !s.rxMode && |s.sent| == Words(s.len.data)
        case Command => s.inProgress && s.txMode && !s.rxMode && s.sent == [] && s.counter == 0 && s.len.cmd != 0
        case Address => s.inProgress && s.txMode && !s.rxMode && s.sent == [] && s.counter == 0 && s.len.addr != 0
        case DummyTx => s.inProgress && s.txMode && !s.rxMode && s.sent == [] && s.counter == 0 && s.len.dummyWr != 0
        case DataTx => s.inProgress && s.txMode && !s.rxMode && s.counter == 32 * |s.sent| < s.len.data
        case WaitTx => s.inProgress && s.txMode && !s.rxMode && s.counter == 32 * |s.sent| < s.len.data
        case Finished => s.inProgress && s.txMode && !s.rxMode && |s.sent| == Words(s.len.data)
        case DummyRx => false
        case DataRx => false
        case WaitRx => false)
  }

  lemma StartedIsWriting(s: State)
    requires Started(s)
    ensures Writing(s, s.quad)
  {
    assert s.sent + s.q.fifo == s.q.fifo;
  }

  lemma OffersKeepWriting(s: State, vs: seq<Word>, quad: bool)
    requires Writing(s, quad)
    ensures Writing(OfferAll(s, vs), quad) && s.q.fifo <= OfferAll(s, vs).q.fifo
    ensures s.q.accepted <= OfferAll(s, vs).q.accepted && (vs != [] && !s.rxMode ==> OfferAll(s, vs).q.fifo != [])
  {
    PushesExtend(s.q, vs, s.rxMode, s.inProgress);
    PushesKeepOrder(s.q, vs, s.rxMode, s.inProgress, s.sent);
  }

  lemma SentWord(s: State, quad: bool)
    requires Writing(s, quad) && s.phase == DataTx && s.q.fifo != [] && 1 <= s.len.data <= MAX_DATALEN
    ensures var t := AfterWord(s);
            t.sent + t.q.fifo == t.q.accepted && |t.sent| == |s.sent| + 1 && t.counter == 32 * |t.sent|
  {
    assert s.sent + [s.q.fifo[0]] + s.q.fifo[1..] == s.q.accepted;
  }

  /** Between the body of a state and its state change, the last word may just have gone out. */
  predicate Acted(s: State, quad: bool) {
    if s.phase == DataTx then
      && s.sent + s.q.fifo == s.q.accepted
      && s.inProgress && s.txMode && !s.rxMode && s.quad == quad
      && s.counter == 32 * |s.sent| < s.len.data + 32
    else Writing(s, quad)
  }

  lemma ActKeepsWriting(s: State, i: Input, quad: bool)
    requires Writing(s, quad) && 1 <= s.len.data <= MAX_DATALEN
    ensures Acted(Act(s, i), quad) && Act(s, i).len == s.len && s.q.accepted <= Act(s, i).q.accepted
  {
    OffersKeepWriting(s, i.during, quad);
    if s.phase == DataTx && s.q.fifo != [] {
      SentWord(OfferAll(s, i.during), quad);
    }
  }

  lemma StateChangeKeepsWriting(s: State, quad: bool)
    requires Acted(s, quad) && 1 <= s.len.data <= MAX_DATALEN
    ensures Writing(StateChange(s), quad) && StateChange(s).len == s.len && StateChange(s).q.accepted == s.q.accepted
  {
  }

  lemma RoundKeepsWriting(s: State, i: Input, quad: bool)
    requires Writing(s, quad) && 1 <= s.len.data <= MAX_DATALEN
    ensures Writing(Round(s, i), quad) && Round(s, i).len == s.len
    ensures s.q.accepted <= Round(s, i).q.accepted
  {
    var s1 := OfferAll(s, i.before);
    OffersKeepWriting(s, i.before, quad);
    ActKeepsWriting(s1, i, quad);
    StateChangeKeepsWriting(Act(s1, i), quad);
  }

  lemma {:induction false} RunKeepsWriting(s: State, inputs: seq<Input>, quad: bool)
    requires Writing(s, quad) && 1 <= s.len.data <= MAX_DATALEN
    ensures Writing(Run(s, inputs), quad) && Run(s, inputs).len == s.len
    ensures s.q.accepted <= Run(s, inputs).q.accepted
  {
    if inputs != [] {
      RunKeepsWriting(s, inputs[..|inputs| - 1], quad);
      RoundKeepsWriting(Run(s, inputs[..|inputs| - 1]), inputs[|inputs| - 1], quad);
    }
  }

  /** `end` has sent exactly the first ceil(datalen / 32) of the words that were in the FIFO at `start`
      or were accepted since, in that order; the others are still in the FIFO. */
  predicate Transferred(start: State, end: State) {
    var n := Words(start.len.data);
    && n <= |end.q.accepted| && start.q.fifo <= end.q.accepted
    && end.sent == end.q.accepted[..n] && end.q.fifo == end.q.accepted[n..]
  }

  lemma FinishedIsTransferred(start: State, end: State)
    requires Started(start) && Writing(end, start.quad) && end.phase == Finished
    requires end.len == start.len && start.q.accepted <= end.q.accepted
    ensures Transferred(start, end)
  {
    assert end.q.accepted[..|end.sent|] == end.sent && end.q.accepted[|end.sent|..] == end.q.fifo;
  }

  /** A write transfer that reaches FINISHED has sent exactly its words, in FIFO order, whatever software
      pushed meanwhile. */
  lemma WriteTransfer(s: State, inputs: seq<Input>)
    requires Started(s) && 1 <= s.len.data <= MAX_DATALEN && Run(s, inputs).phase == Finished
    ensures Transferred(s, Run(s, inputs))
  {
    StartedIsWriting(s);
    RunKeepsWriting(s, inputs, s.quad);
    FinishedIsTransferred(s, Run(s, inputs));
  }

  /** After each data word: FINISHED once the words sent make up the length, else the next word if there is one,
      else a wait. */
  lemma DataTxRound(s: State, i: Input, quad: bool)
    requires Writing(s, quad) && s.phase == DataTx && 1 <= s.len.data <= MAX_DATALEN
    ensures var t := Round(s, i);
            t.phase == if 32 * |t.sent| >= s.len.data then Finished else if t.q.fifo == [] then WaitTx else DataTx
  {
    var s1 := Prepared(s, i);
    OffersKeepWriting(s, i.before, quad);
    ActKeepsWriting(s1, i, quad);
  }

  // ---------------------------------------------------------------- from one transfer to the next

  /** Reads of RXFIFO change nothing but the FIFO, its status, and the log. */
  lemma {:induction false} ReadsKeep(s: State, n: nat)
    ensures var t := ReadAll(s, n);
            t == s.(q := s.q.(fifo := t.q.fifo), rx := t.rx) && t.rx.received == s.rx.received
    decreases n
  {
    if n > 0 && s.rxMode {
      ReadsKeep(s, n - 1);
    }
  }

  /** FINISHED is left for a state in which nothing is going on, as soon as a status field is zero. */
  lemma FinishedRound(s: State, i: Input)
    requires s.phase == Finished
    ensures if Prepared(s, i).q.txStatus == 0 || Prepared(s, i).rx.rxStatus == 0 then Ready(Round(s, i))
            else Round(s, i).phase == Finished && Round(s, i).rxMode == s.rxMode
    ensures !s.rxMode ==> Prepared(s, i).rx.rxStatus == s.rx.rxStatus == Round(s, i).rx.rxStatus
  {
    ReadsKeep(OfferAll(s, i.before), i.fetches);
  }

  lemma ReadyRound(s: State, i: Input)
    requires Ready(s)
    ensures Ready(Round(s, i))
  {
  }

  /** After a transfer the machine stays in FINISHED or has nothing going on, the latter from the first
      round after a write transfer on if RX_STATUS is zero; and then a write to WR or QWR starts a transfer to
      which everything above applies, with the words that are already queued. */
  lemma {:induction false} NextTransferStarts(s: State, inputs: seq<Input>, quad: bool, tx: Status, rx: Status)
    requires s.phase == Finished
    ensures var t, u := Run(s, inputs), WriteBegun(Run(s, inputs), quad, tx, rx);
            && (Ready(t) || (t.phase == Finished && t.rxMode == s.rxMode))
            && (!Ready(t) && !s.rxMode ==> t.rx.rxStatus == s.rx.rxStatus)
            && (!s.rxMode && s.rx.rxStatus == 0 && inputs != [] ==> Ready(t))
            && (Ready(t) ==> Started(u) && u.q.fifo == t.q.fifo)
  {
    if inputs != [] {
      var front, i := inputs[..|inputs| - 1], inputs[|inputs| - 1];
      NextTransferStarts(s, front, quad, tx, rx);
      if Ready(Run(s, front)) {
        ReadyRound(Run(s, front), i);
      } else {
        FinishedRound(Run(s, front), i);
      }
    }
  }

  lemma {:induction false} PushesKeepHelper(q: Queue, x: Status, y: Status, vs: seq<Word>, rxMode: bool)
    ensures PushAll(q.(txStatus := x), vs, rxMode, true).(txStatus := y)
         == PushAll(q, vs, rxMode, true).(txStatus := y)
    ensures PushAll(q, vs, rxMode, true).txStatusHelp == q.txStatusHelp
  {
    if vs != [] {
      PushesKeepHelper(q, x, y, vs[..|vs| - 1], rxMode);
    }
  }

  lemma {:induction false} ReadsIgnoreStatus(s: State, x: Status, n: nat)
    ensures var t := ReadAll(s, n); ReadAll(s.(q := s.q.(txStatus := x)), n) == t.(q := t.q.(txStatus := x))
    decreases n
  {
    if n > 0 && s.rxMode {
      ReadsIgnoreStatus(s, x, n - 1);
    }
  }

  /** What the write that starts a write transfer puts into TX_STATUS is forgotten in the first round, which
      restores the value from the last push outside a transfer; later pushes are forgotten with it. */
  lemma WrittenStatusForgotten(s: State, x: Status, i: Input)
    requires s.phase == Idle && s.inProgress && s.txMode
    ensures Round(s.(q := s.q.(txStatus := x)), i) == Round(s, i)
    ensures Round(s, i).q.txStatus == s.q.txStatusHelp
  {
    var y, t := s.q.txStatusHelp, s.(q := s.q.(txStatus := x));
    PushesKeepHelper(s.q, x, y, i.before, s.rxMode);
    ReadsIgnoreStatus(OfferAll(s, i.before), y, i.fetches);
    ReadsIgnoreStatus(OfferAll(t, i.before), y, i.fetches);
    ReadsKeep(OfferAll(s, i.before), i.fetches);
    ReadsKeep(OfferAll(t, i.before), i.fetches);
  }

  /** Outside a transfer the helper is the status after the last push that got in. */
  lemma {:induction false} PushesAtRest(q: Queue, vs: seq<Word>)
    ensures var q' := PushAll(q, vs, false, false);
            if q'.accepted == q.accepted then q' == q else q'.txStatusHelp == q'.txStatus
    ensures q.accepted <= PushAll(q, vs, false, false).accepted
    ensures vs != [] && |q.fifo| < FIFO_SIZE ==> PushAll(q, vs, false, false).accepted != q.accepted
  {
    if vs != [] {
      PushesAtRest(q, vs[..|vs| - 1]);
    }
  }

  /** So words queued at rest, at least one of them with room in the FIFO, are what TX_STATUS shows after the first
      round of the write transfer that sends them, whatever the STATUS write that started it stored there. */
  lemma QueuedWordsShow(s: State, vs: seq<Word>, quad: bool, tx: Status, rx: Status, i: Input)
    requires Ready(s) && vs != [] && |s.q.fifo| < FIFO_SIZE
    ensures Round(WriteBegun(OfferAll(s, vs), quad, tx, rx), i).q.txStatus == OfferAll(s, vs).q.txStatus
  {
    PushesAtRest(s.q, vs);
    WrittenStatusForgotten(WriteBegun(OfferAll(s, vs), quad, tx, rx), tx, i);
  }

  // ---------------------------------------------------------------- the transmit status

  /** By how much TX_STATUS differs from four times the words in the FIFO, in eight bits. */
  function StatusOffset(q: Queue): nat {
    (q.txStatus - 4 * |q.fifo|) % 256
  }

  lemma {:induction false} PushesKeepOffset(q: Queue, vs: seq<Word>, rxMode: bool, inProgress: bool)
    ensures StatusOffset(PushAll(q, vs, rxMode, inProgress)) == StatusOffset(q)
  {
    if vs != [] {
      PushesKeepOffset(q, vs[..|vs| - 1], rxMode, inProgress);
    }
  }

  lemma WordKeepsOffset(s: State)
    ensures StatusOffset(AfterWord(s).q) == StatusOffset(s.q)
  {
  }

  lemma ActKeepsOffset(s: State, i: Input, quad: bool)
    requires Writing(s, quad) && !(s.phase == Idle && s.inProgress)
    ensures StatusOffset(Act(s, i).q) == StatusOffset(s.q)
  {
    PushesKeepOffset(s.q, i.during, s.rxMode, s.inProgress);
    WordKeepsOffset(OfferAll(s, i.during));
  }

  lemma RoundKeepsOffset(s: State, i: Input, quad: bool)
    requires Writing(s, quad) && !(s.phase == Idle && s.inProgress)
    ensures StatusOffset(Round(s, i).q) == StatusOffset(s.q)
    ensures !(Round(s, i).phase == Idle && Round(s, i).inProgress)
  {
    OffersKeepWriting(s, i.before, quad);
    PushesKeepOffset(s.q, i.before, s.rxMode, s.inProgress);
    ActKeepsOffset(OfferAll(s, i.before), i, quad);
  }

  /** From its first round on, through a write transfer and after it, TX_STATUS follows the FIFO: four for each
      word pushed and taken, modulo 256. */
  lemma {:induction false} TxStatusFollows(s: State, inputs: seq<Input>, quad: bool)
    requires Writing(s, quad) && !(s.phase == Idle && s.inProgress) && 1 <= s.len.data <= MAX_DATALEN
    ensures StatusOffset(Run(s, inputs).q) == StatusOffset(s.q)
    ensures !(Run(s, inputs).phase == Idle && Run(s, inputs).inProgress)
  {
    if inputs != [] {
      var front, i := inputs[..|inputs| - 1], inputs[|inputs| - 1];
      TxStatusFollows(s, front, quad);
      RunKeepsWriting(s, front, quad);
      RoundKeepsOffset(Run(s, front), i, quad);
    }
  }

  // ---------------------------------------------------------------- the bound is sharp

  /** Invariant of a write transfer that is too long: the counter wraps before it reaches the length. */
  predicate Endless(s: State) {
    && s.inProgress && s.txMode && !s.rxMode && s.counter % 32 == 0
    && (s.phase == Idle || s.phase == Command || s.phase == Address || s.phase == DummyTx || s.phase == DataTx
        || s.phase == WaitTx)
  }

  lemma ActStaysEndless(s: State, i: Input)
    requires Endless(s) && MAX_DATALEN < s.len.data < 0x1_0000
    ensures Endless(Act(s, i)) && Act(s, i).len == s.len
  {
  }

  lemma StateChangeStaysEndless(s: State)
    requires Endless(s) && MAX_DATALEN < s.len.data < 0x1_0000
    ensures Endless(StateChange(s)) && StateChange(s).len == s.len
  {
  }

  lemma RoundStaysEndless(s: State, i: Input)
    requires Endless(s) && MAX_DATALEN < s.len.data < 0x1_0000
    ensures Endless(Round(s, i)) && Round(s, i).len == s.len
  {
    var s1 := OfferAll(s, i.before);
    ActStaysEndless(s1, i);
    StateChangeStaysEndless(Act(s1, i));
  }

  /** No run of a transfer of more than MAX_DATALEN bits ever finishes. */
  lemma {:induction false} TooLongNeverFinishes(s: State, inputs: seq<Input>)
    requires Started(s) && MAX_DATALEN < s.len.data < 0x1_0000
    ensures Endless(Run(s, inputs)) && Run(s, inputs).len == s.len
    ensures Run(s, inputs).phase != Finished
  {
    if inputs != [] {
      TooLongNeverFinishes(s, inputs[..|inputs| - 1]);
      RoundStaysEndless(Run(s, inputs[..|inputs| - 1]), inputs[|inputs| - 1]);
    }
  }

  // ---------------------------------------------------------------- progress

  /** An upper bound on the rounds left while software keeps the FIFO fed. */
  function RoundsLeft(s: State): int {
    var left := 2 * (Words(s.len.data) - |s.sent|);
    match s.phase
    case Idle => if s.inProgress then left + 4 else 0
    case Command => left + 3
    case Address => left + 2
    case DummyTx => left + 1
    case DataTx => left
    case WaitTx => left + 1
    case _ => 0
  }

  lemma FedRoundProgresses(s: State, i: Input, quad: bool)
    requires Writing(s, quad) && 1 <= s.len.data <= MAX_DATALEN && s.inProgress && s.phase != Finished && i.before != []
    ensures 0 <= RoundsLeft(Round(s, i)) < RoundsLeft(s)
    ensures Round(s, i).inProgress
  {
    OffersKeepWriting(s, i.before, quad);
    OffersKeepWriting(OfferAll(s, i.before), i.during, quad);
    RoundKeepsWriting(s, i, quad);
  }

  predicate Finishes(s: State, inputs: seq<Input>) {
    Run(s, inputs).phase == Finished || (inputs != [] && Finishes(s, inputs[..|inputs| - 1]))
  }

  /** A transfer is in progress until it finishes. */
  lemma {:induction false} NotFinishedYet(s: State, inputs: seq<Input>)
    requires Started(s) && 1 <= s.len.data <= MAX_DATALEN && !Finishes(s, inputs)
    ensures Run(s, inputs).inProgress && Run(s, inputs).phase != Finished
  {
    if inputs != [] {
      var front, i := inputs[..|inputs| - 1], inputs[|inputs| - 1];
      NotFinishedYet(s, front);
      StartedIsWriting(s);
      RunKeepsWriting(s, front, s.quad);
      RoundStaysInProgress(Run(s, front), i, s.quad);
    }
  }

  lemma RoundStaysInProgress(s: State, i: Input, quad: bool)
    requires Writing(s, quad) && s.inProgress && s.phase != Finished
    ensures Round(s, i).inProgress
  {
  }

  lemma {:induction false} FedRunProgresses(s: State, inputs: seq<Input>)
    requires Started(s) && 1 <= s.len.data <= MAX_DATALEN
    requires forall i | i in inputs :: i.before != []
    ensures Finishes(s, inputs) ||
            (Run(s, inputs).inProgress && 0 <= RoundsLeft(Run(s, inputs)) <= 2 * Words(s.len.data) + 4 - |inputs|)
  {
    if inputs != [] {
      var front, i := inputs[..|inputs| - 1], inputs[|inputs| - 1];
      FedRunProgresses(s, front);
      if !Finishes(s, front) {
        StartedIsWriting(s);
        RunKeepsWriting(s, front, s.quad);
        assert i in inputs;
        FedRoundProgresses(Run(s, front), i, s.quad);
      }
    }
  }

  /** If software offers a word at every clock, a transfer of up to MAX_DATALEN bits reaches FINISHED
      within 2 * ceil(datalen / 32) + 5 rounds. */
  lemma FedTransferFinishes(s: State, inputs: seq<Input>)
    requires Started(s) && 1 <= s.len.data <= MAX_DATALEN
    requires forall i | i in inputs :: i.before != []
    requires |inputs| == 2 * Words(s.len.data) + 5
    ensures Finishes(s, inputs)
  {
    FedRunProgresses(s, inputs);
  }

  // ---------------------------------------------------------------- the bus

  /** Cycles for a field of `len` bits: the loops step by one bit, or in quad mode by four. */
  function FieldCycles(len: Field, quad: bool): (n: nat)
    ensures if quad then len <= 4 * n < len + 4 else n == len
  {
    if quad then (len + 3) / 4 else len
  }

  const ZERO := Word(Zeros(32))

  function Repeated(payload: Word, n: nat): seq<Word> {
    if n == 0 then [] else Repeated(payload, n - 1) + [payload]
  }

  /** The command that opens a burst; `StartRead` announces its number of read cycles. */
  datatype Kind = Start(chipselect: nat) | SpiCommand | SpiAddress | Dummy | StartWrite | StartRead(count: nat) | Stop

  /** What the body of a state puts on the bus: an announcement and then payloads, one for each cycle. */
  datatype Burst = Burst(kind: Kind, cycles: seq<Word>)

  function CommandBurst(len: Lengths, h: Header, quad: bool): Burst {
    Burst(SpiCommand, Cycles(h.command, 0, FieldCycles(len.cmd, quad), quad))
  }

  /** The address is sent from its most significant used bit on. */
  function AddressBurst(len: Lengths, h: Header, quad: bool): Burst {
    Burst(SpiAddress, Cycles(h.address, 32 - len.addr, FieldCycles(len.addr, quad), quad))
  }

  function DummyBurst(n: nat, quad: bool): Burst {
    Burst(Dummy, Repeated(Payload(ZERO, 0, quad), n))
  }

  function DataBurst(w: Word, quad: bool): Burst {
    Burst(StartWrite, Cycles(w, 0, PerWord(quad), quad))
  }

  function BurstOf(s: State, h: Header): seq<Burst> {
    match s.phase
    case Idle => if s.inProgress then [Burst(Start(h.chipselect), [])] else []
    case Command => [CommandBurst(s.len, h, s.quad)]
    case Address => [AddressBurst(s.len, h, s.quad)]
    case DummyTx => [DummyBurst(s.len.dummyWr, s.quad)]
    case DummyRx => [DummyBurst(s.len.dummyRd, s.quad)]
    case DataTx => [Burst(StartWrite, CyclesOf(s))]
    case DataRx => [Burst(StartRead(PerWord(s.quad)), [])]
    case WaitTx => []
    case WaitRx => []
    case Finished => [Burst(Stop, [])]
  }

  /** How many cycles, each followed by a wait, the body of a state takes. */
  function CycleCount(s: State): nat {
    match s.phase
    case Command => FieldCycles(s.len.cmd, s.quad)
    case Address => FieldCycles(s.len.addr, s.quad)
    case DummyTx => s.len.dummyWr
    case DummyRx => s.len.dummyRd
    case DataTx => PerWord(s.quad)
    case DataRx => PerWord(s.quad)
    case _ => 0
  }

  /** The first lines of some cycles are the bits of the field they were made from. */
  predicate Carries(cycles: seq<Word>, quad: bool, field: seq<bool>) {
    field <= Lines(cycles, quad)
  }

  lemma FieldOnBus(w: Word, start: nat, stop: nat, n: nat, quad: bool)
    requires n > 0 && InWord(start, n, quad) && start <= stop <= 32 && stop - start <= Offset(n, quad)
    ensures Carries(Cycles(w, start, n, quad), quad, w.bits[start..stop])
  {
    CyclesCarryBits(w, start, n, quad);
    SliceOfPadded(w.bits, Zeros(32), start, stop, start + Offset(n, quad));
  }

  lemma SliceOfPadded(bits: seq<bool>, zeros: seq<bool>, start: nat, stop: nat, end: nat)
    requires start <= stop <= end <= |bits| + |zeros| && stop <= |bits|
    ensures bits[start..stop] <= (bits + zeros)[start..end]
  {
  }

  /** A device on the bus sees the leading bits of the command, most significant first. */
  lemma CommandOnBus(len: Lengths, h: Header, quad: bool)
    requires len.cmd > 0
    ensures Carries(CommandBurst(len, h, quad).cycles, quad, h.command.bits[0..len.cmd])
  {
    FieldOnBus(h.command, 0, len.cmd, FieldCycles(len.cmd, quad), quad);
  }

  /** And the trailing bits of the address, most significant first. */
  lemma AddressOnBus(len: Lengths, h: Header, quad: bool)
    requires len.addr > 0
    ensures Carries(AddressBurst(len, h, quad).cycles, quad, h.address.bits[32 - len.addr..32])
  {
    FieldOnBus(h.address, 32 - len.addr, 32, FieldCycles(len.addr, quad), quad);
  }

  /** The data cycles that the body of a state puts on the bus. */
  function CyclesOf(s: State): seq<Word> {
    if s.phase == DataTx && s.q.fifo != [] then Cycles(s.q.fifo[0], 0, PerWord(s.quad), s.quad) else []
  }

  function Frame(s: State): seq<seq<Word>> {
    if CyclesOf(s) == [] then [] else [CyclesOf(s)]
  }

  /** All data cycles of a run, one entry for each round that sends: START_WRITE separates them. */
  function Traffic(s: State, inputs: seq<Input>): seq<seq<Word>> {
    if inputs == [] then []
    else
      var front, i := inputs[..|inputs| - 1], inputs[|inputs| - 1];
      Traffic(s, front) + Frame(OfferAll(Run(s, front), i.before))
  }

  predicate Framed(traffic: seq<seq<Word>>, quad: bool) {
    forall k | 0 <= k < |traffic| :: |traffic[k]| == PerWord(quad)
  }

  /** What a device on the bus assembles from such traffic. */
  function Assembled(traffic: seq<seq<Word>>, quad: bool): seq<Word>
    requires Framed(traffic, quad)
  {
    seq(|traffic|, k requires 0 <= k < |traffic| => Received(traffic[k], quad))
  }

  lemma AssembledSnoc(traffic: seq<seq<Word>>, w: Word, quad: bool)
    requires Framed(traffic, quad)
    ensures var traffic' := traffic + [Cycles(w, 0, PerWord(quad), quad)];
            Framed(traffic', quad) && Assembled(traffic', quad) == Assembled(traffic, quad) + [w]
  {
    SerialRoundTrip(w, quad);
  }

  /** Every round that sends puts the cycles of the word it takes off the FIFO on the bus. */
  lemma RoundSends(s: State, i: Input, quad: bool)
    requires Writing(s, quad)
    ensures var w := OfferAll(s, i.before);
            if CyclesOf(w) == [] then Round(s, i).sent == s.sent
            else w.q.fifo != [] && Round(s, i).sent == s.sent + [w.q.fifo[0]]
                 && CyclesOf(w) == Cycles(w.q.fifo[0], 0, PerWord(quad), quad)
  {
    var w := OfferAll(s, i.before);
    PushesExtend(w.q, i.during, w.rxMode, w.inProgress);
  }

  lemma RoundIsRead(traffic: seq<seq<Word>>, s: State, i: Input, quad: bool)
    requires Writing(s, quad) && Framed(traffic, quad) && Assembled(traffic, quad) == s.sent
    ensures var traffic' := traffic + Frame(OfferAll(s, i.before));
            Framed(traffic', quad) && Assembled(traffic', quad) == Round(s, i).sent
  {
    RoundSends(s, i, quad);
    var w := OfferAll(s, i.before);
    if CyclesOf(w) == [] {
      assert traffic + Frame(w) == traffic;
    } else {
      AssembledSnoc(traffic, w.q.fifo[0], quad);
    }
  }

  /** At every moment of a write transfer a device that listens to the bus has assembled exactly the
      words sent so far. */
  lemma {:induction false} DeviceReadsSent(s: State, inputs: seq<Input>)
    requires Started(s) && 1 <= s.len.data <= MAX_DATALEN
    ensures Framed(Traffic(s, inputs), s.quad) && Assembled(Traffic(s, inputs), s.quad) == Run(s, inputs).sent
  {
    if inputs != [] {
      var front, i := inputs[..|inputs| - 1], inputs[|inputs| - 1];
      DeviceReadsSent(s, front);
      StartedIsWriting(s);
      RunKeepsWriting(s, front, s.quad);
      RoundIsRead(Traffic(s, front), Run(s, front), i, s.quad);
    }
  }

  // ---------------------------------------------------------------- the whole transfer on the bus

  /** What precedes the data, part by part: select, command, address, dummy cycles. */
  function Part(len: Lengths, dummy: nat, h: Header, quad: bool, k: nat): seq<Burst> {
    if k == 0 then [Burst(Start(h.chipselect), [])]
    else if k == 1 then (if len.cmd != 0 then [CommandBurst(len, h, quad)] else [])
    else if k == 2 then (if len.addr != 0 then [AddressBurst(len, h, quad)] else [])
    else (if dummy != 0 then [DummyBurst(dummy, quad)] else [])
  }

  function Parts(len: Lengths, dummy: nat, h: Header, quad: bool, k: nat): seq<Burst> {
    if k == 0 then [] else Parts(len, dummy, h, quad, k - 1) + Part(len, dummy, h, quad, k - 1)
  }

  function DataBursts(ws: seq<Word>, quad: bool): seq<Burst> {
    if ws == [] then [] else DataBursts(ws[..|ws| - 1], quad) + [DataBurst(ws[|ws| - 1], quad)]
  }

  /** What a write transfer has put on the bus when it is in the given state. */
  function OnBus(s: State, h: Header, quad: bool): seq<Burst> {
    match s.phase
    case Idle => Parts(s.len, s.len.dummyWr, h, quad, 0)
    case Command => Parts(s.len, s.len.dummyWr, h, quad, 1)
    case Address => Parts(s.len, s.len.dummyWr, h, quad, 2)
    case DummyTx => Parts(s.len, s.len.dummyWr, h, quad, 3)
    case _ => Parts(s.len, s.len.dummyWr, h, quad, 4) + DataBursts(s.sent, quad)
  }

  /** DATA_TX announces data even if there is none to send; such bursts carry nothing. */
  function Visible(bursts: seq<Burst>): seq<Burst> {
    if bursts == [Burst(StartWrite, [])] then [] else bursts
  }

  function Log(s: State, h: Header, inputs: seq<Input>): seq<Burst> {
    if inputs == [] then []
    else
      var front, i := inputs[..|inputs| - 1], inputs[|inputs| - 1];
      Log(s, h, front) + Visible(BurstOf(Prepared(Run(s, front), i), h))
  }

  lemma PartsOf(len: Lengths, dummy: nat, h: Header, quad: bool)
    ensures Parts(len, dummy, h, quad, 1) == [Burst(Start(h.chipselect), [])]
    ensures Parts(len, dummy, h, quad, 2) ==
            Parts(len, dummy, h, quad, 1) + if len.cmd == 0 then [] else [CommandBurst(len, h, quad)]
    ensures Parts(len, dummy, h, quad, 3) ==
            Parts(len, dummy, h, quad, 2) + if len.addr == 0 then [] else [AddressBurst(len, h, quad)]
    ensures Parts(len, dummy, h, quad, 4) ==
            Parts(len, dummy, h, quad, 3) + if dummy == 0 then [] else [DummyBurst(dummy, quad)]
    ensures len.cmd == 0 ==> Parts(len, dummy, h, quad, 2) == Parts(len, dummy, h, quad, 1)
    ensures len.addr == 0 ==> Parts(len, dummy, h, quad, 3) == Parts(len, dummy, h, quad, 2)
    ensures dummy == 0 ==> Parts(len, dummy, h, quad, 4) == Parts(len, dummy, h, quad, 3)
  {
    assert Parts(len, dummy, h, quad, 2) == Parts(len, dummy, h, quad, 1) + Part(len, dummy, h, quad, 1);
    assert Parts(len, dummy, h, quad, 4) == Parts(len, dummy, h, quad, 3) + Part(len, dummy, h, quad, 3);
  }

  /** Before the first word is sent only the parts are on the bus. */
  lemma NoDataYet(len: Lengths, h: Header, quad: bool)
    ensures Parts(len, len.dummyWr, h, quad, 4) + DataBursts([], quad) == Parts(len, len.dummyWr, h, quad, 4)
  {
  }

  /** A word sent adds its burst to those before it. */
  lemma OneMoreBurst(parts: seq<Burst>, ws: seq<Word>, w: Word, quad: bool)
    ensures parts + DataBursts(ws + [w], quad) == parts + DataBursts(ws, quad) + [DataBurst(w, quad)]
  {
    assert (ws + [w])[..|ws|] == ws;
  }

  /** The body of a state adds its burst to what the state it leads to has on the bus. */
  lemma HeadOnBus(s: State, t: State, h: Header, quad: bool)
    requires Writing(s, quad) && s.inProgress && t.len == s.len && t.sent == s.sent == []
    requires s.phase == Idle || s.phase == Command || s.phase == Address || s.phase == DummyTx
    requires t.phase == StateChange(s).phase
    ensures OnBus(t, h, quad) == OnBus(s, h, quad) + Visible(BurstOf(s, h))
  {
    PartsOf(s.len, s.len.dummyWr, h, quad);
    NoDataYet(s.len, h, quad);
  }

  lemma DataOnBus(s: State, t: State, h: Header, quad: bool)
    requires Writing(s, quad) && s.phase == DataTx && t.len == s.len
    requires t.phase == DataTx || t.phase == WaitTx || t.phase == Finished
    requires t.sent == s.sent + if s.q.fifo == [] then [] else [s.q.fifo[0]]
    ensures OnBus(t, h, quad) == OnBus(s, h, quad) + Visible(BurstOf(s, h))
  {
    if s.q.fifo != [] {
      OneMoreBurst(Parts(s.len, s.len.dummyWr, h, quad, 4), s.sent, s.q.fifo[0], quad);
      assert BurstOf(s, h) == [DataBurst(s.q.fifo[0], quad)] == Visible(BurstOf(s, h));
    } else {
      assert s.sent + [] == s.sent;
      assert OnBus(s, h, quad) + [] == OnBus(s, h, quad);
    }
  }

  lemma WaitOnBus(s: State, t: State, h: Header, quad: bool)
    requires s.phase == WaitTx && t.len == s.len && t.sent == s.sent && (t.phase == WaitTx || t.phase == DataTx)
    ensures OnBus(t, h, quad) == OnBus(s, h, quad) + Visible(BurstOf(s, h))
  {
    assert OnBus(s, h, quad) + [] == OnBus(s, h, quad);
  }

  /** What a round does to the phase and to the words sent, by the state it starts in. */
  lemma RoundMoves(s: State, i: Input, quad: bool)
    requires Writing(s, quad) && s.inProgress && s.phase != Finished
    ensures var s1, t := OfferAll(s, i.before), Round(s, i);
            t.len == s.len &&
            (match s.phase
             case DataTx =>
               && (t.phase == DataTx || t.phase == WaitTx || t.phase == Finished)
               && t.sent == s1.sent + if s1.q.fifo == [] then [] else [s1.q.fifo[0]]
             case WaitTx => t.sent == s.sent && (t.phase == WaitTx || t.phase == DataTx)
             case _ => t.sent == s.sent == [] && t.phase == StateChange(s1).phase)
  {
    RoundSends(s, i, quad);
  }

  lemma RoundOnBus(s: State, h: Header, i: Input, quad: bool)
    requires Writing(s, quad) && s.inProgress && s.phase != Finished
    ensures OnBus(Round(s, i), h, quad) == OnBus(s, h, quad) + Visible(BurstOf(Prepared(s, i), h))
  {
    var s1, t := OfferAll(s, i.before), Round(s, i);
    OffersKeepWriting(s, i.before, quad);
    RoundMoves(s, i, quad);
    if s.phase == DataTx {
      DataOnBus(s1, t, h, quad);
    } else if s.phase == WaitTx {
      WaitOnBus(s1, t, h, quad);
    } else {
      HeadOnBus(s1, t, h, quad);
    }
  }

  /** Until it is finished, a write transfer has put on the bus exactly this: the select, the command and
      address if they have a length, the dummy cycles, and then the words sent, one burst each. */
  lemma {:induction false} TransferOnBus(s: State, h: Header, inputs: seq<Input>)
    requires Started(s) && 1 <= s.len.data <= MAX_DATALEN
    requires inputs != [] ==> !Finishes(s, inputs[..|inputs| - 1])
    ensures Log(s, h, inputs) == OnBus(Run(s, inputs), h, s.quad)
  {
    if inputs != [] {
      var front, i := inputs[..|inputs| - 1], inputs[|inputs| - 1];
      TransferOnBus(s, h, front);
      StartedIsWriting(s);
      RunKeepsWriting(s, front, s.quad);
      NotFinishedYet(s, front);
      RoundOnBus(Run(s, front), h, i, s.quad);
    }
  }

  // ---------------------------------------------------------------- software's pushes at every wait

  /** All words written at the first `n` waits, one after the other. */
  function Flatten(waits: seq<seq<Word>>, n: nat): seq<Word>
    requires n <= |waits|
  {
    if n == 0 then [] else Flatten(waits, n - 1) + waits[n - 1]
  }

  function PushWaits(q: Queue, waits: seq<seq<Word>>, n: nat, rxMode: bool, inProgress: bool): Queue
    requires n <= |waits|
  {
    if n == 0 then q else PushAll(PushWaits(q, waits, n - 1, rxMode, inProgress), waits[n - 1], rxMode, inProgress)
  }

  lemma {:induction false} PushAllAppend(q: Queue, a: seq<Word>, b: seq<Word>, rxMode: bool, inProgress: bool)
    ensures PushAll(q, a + b, rxMode, inProgress) == PushAll(PushAll(q, a, rxMode, inProgress), b, rxMode, inProgress)
  {
    if b == [] {
      assert a + b == a;
    } else {
      assert (a + b)[..|a + b| - 1] == a + b[..|b| - 1];
      PushAllAppend(q, a, b[..|b| - 1], rxMode, inProgress);
    }
  }

  /** Pushing at each wait is pushing everything in one go. */
  lemma {:induction false} WaitsArePushes(q: Queue, waits: seq<seq<Word>>, n: nat, rxMode: bool, inProgress: bool)
    requires n <= |waits|
    ensures PushWaits(q, waits, n, rxMode, inProgress) == PushAll(q, Flatten(waits, n), rxMode, inProgress)
  {
    if n > 0 {
      WaitsArePushes(q, waits, n - 1, rxMode, inProgress);
      PushAllAppend(q, Flatten(waits, n - 1), waits[n - 1], rxMode, inProgress);
    }
  }
}
