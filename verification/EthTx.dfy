/** The transmit path of minres/ethmac.cpp: a length word, then data words, rebuilt into frames. */
module EthTx {
  import opened Octets
  import opened EthRing
  import opened EthCodec

  const CAPACITY := 4096
  const MIN_FRAME := 60

  datatype Phase = Length | Align | Data

  /** `emitted` records the frames handed to the eth_tx socket. */
  datatype Tx = Tx(phase: Phase, buffer: seq<Byte>, expected: nat, aligned: bool, emitted: seq<seq<Byte>>)

  /** tx_expected_bytes: 32-bit rounding up to bytes, then a 64-bit subtraction. */
  function Expected(v: Word, aligned: bool): nat {
    var n := (if v + 7 < 0x1_0000_0000 then v + 7 else v + 7 - 0x1_0000_0000) / 8;
    if !aligned then n else if n >= 2 then n - 2 else n + 0x1_0000_0000_0000_0000 - 2
  }

  /** Zeros up to the minimum length. */
  function Padded(f: seq<Byte>): (p: seq<Byte>)
    ensures f <= p && |p| == if |f| < MIN_FRAME then MIN_FRAME else |f|
    ensures forall k | |f| <= k < |p| :: p[k] == 0
  {
    if |f| < MIN_FRAME then f + Zeros(MIN_FRAME - |f|) else f
  }

  /** After a data word: send once enough bytes are there. */
  function Flushed(s: Tx): Tx {
    if |s.buffer| < s.expected then s
    else s.(phase := Length, buffer := [], emitted := s.emitted + [Padded(s.buffer[..s.expected])])
  }

  /** The MAC_TX write callback. */
  function Write(s: Tx, v: Word): Tx {
    match s.phase
    case Length => s.(expected := Expected(v, s.aligned), phase := if s.aligned then Align else Data)
    case Align => Flushed(s.(phase := Data, buffer := Clip(s.buffer + Bytes(v, 4)[2..], CAPACITY)))
    case Data => Flushed(s.(buffer := Clip(s.buffer + Bytes(v, 4), CAPACITY)))
  }

  function WriteAll(s: Tx, ws: seq<Word>): Tx {
    if ws == [] then s else Write(WriteAll(s, ws[..|ws| - 1]), ws[|ws| - 1])
  }

  lemma {:induction false} WriteAllAppend(s: Tx, a: seq<Word>, b: seq<Word>)
    ensures WriteAll(s, a + b) == WriteAll(WriteAll(s, a), b)
  {
    if b == [] {
      assert a + b == a;
    } else {
      assert (a + b)[..|a + b| - 1] == a + b[..|b| - 1];
      WriteAllAppend(s, a, b[..|b| - 1]);
    }
  }

  // ---------------------------------------------------------------- one frame

  predicate Ready(s: Tx) {
    s.phase == Length && s.buffer == []
  }

  /** A length word has been written and no data yet. */
  predicate Opened(s: Tx) {
    s.phase == (if s.aligned then Align else Data) && s.buffer == []
  }

  /** The ring after the data words `ws`, if nothing has been sent. */
  function Filled(s: Tx, ws: seq<Word>): Tx
    requires ws != []
  {
    s.(phase := Data, buffer := Clip(Stream(ws)[Skip(s.aligned)..], CAPACITY))
  }

  lemma FirstData(s: Tx, w: Word)
    requires Opened(s)
    ensures WriteAll(s, [w]) == Flushed(Filled(s, [w]))
  {
    assert [w][..0] == [] && Stream([w]) == Bytes(w, 4);
    assert s.buffer + Bytes(w, 4) == Bytes(w, 4) && s.buffer + Bytes(w, 4)[2..] == Bytes(w, 4)[2..];
  }

  lemma {:induction false} Filling(s: Tx, ws: seq<Word>)
    requires Opened(s) && ws != []
    requires |ws| > 1 ==> |Filled(s, ws[..|ws| - 1]).buffer| < s.expected
    ensures WriteAll(s, ws) == Flushed(Filled(s, ws))
  {
    var front, w := ws[..|ws| - 1], ws[|ws| - 1];
    if front == [] {
      FirstData(s, w);
      assert ws == [w];
    } else {
      Filling(s, front);
      ClipAppend(Stream(front)[Skip(s.aligned)..], Bytes(w, 4), CAPACITY);
      assert Stream(front)[Skip(s.aligned)..] + Bytes(w, 4) == Stream(ws)[Skip(s.aligned)..];
    }
  }

  /** Data words needed for `n` bytes: ceil(n / 4) or, with alignment bytes, ceil((n + 2) / 4). */
  function DataWords(n: nat, aligned: bool): nat {
    (n + Skip(aligned) + 3) / 4
  }

  /** `ws` carries the frame `f`: after the alignment bytes, and followed by any filler. */
  predicate Carries(ws: seq<Word>, f: seq<Byte>, aligned: bool) {
    && f != [] && |ws| == DataWords(|f|, aligned)
    && Stream(ws)[Skip(aligned)..Skip(aligned) + |f|] == f
  }

  /** Before the last data word of a frame nothing is sent. */
  lemma NothingEarly(s: Tx, len: Word, ws: seq<Word>, f: seq<Byte>, k: nat)
    requires Ready(s) && Carries(ws, f, s.aligned) && Expected(len, s.aligned) == |f| && k < |ws|
    ensures WriteAll(s, [len] + ws[..k]).emitted == s.emitted
  {
    var o := Write(s, len);
    WriteAllAppend(s, [len], ws[..k]);
    assert WriteAll(s, [len]) == o by { assert [len][..0] == []; }
    if k > 0 {
      Filling(o, ws[..k]);
    }
  }

  /** On the last data word exactly the frame is sent, padded to the minimum, and the machine is ready
      for the next one. */
  lemma FrameSent(s: Tx, len: Word, ws: seq<Word>, f: seq<Byte>)
    requires Ready(s) && Carries(ws, f, s.aligned) && Expected(len, s.aligned) == |f| <= CAPACITY
    ensures WriteAll(s, [len] + ws) == s.(expected := |f|, emitted := s.emitted + [Padded(f)])
  {
    var o := Write(s, len);
    WriteAllAppend(s, [len], ws);
    assert WriteAll(s, [len]) == o by { assert [len][..0] == []; }
    Filling(o, ws);
    ClipKeepsPrefix(Stream(ws)[Skip(s.aligned)..], |f|, CAPACITY);
    assert Stream(ws)[Skip(s.aligned)..][..|f|] == Stream(ws)[Skip(s.aligned)..Skip(s.aligned) + |f|];
  }

  /** Waiting for more bytes than the ring can hold. */
  predicate Stuck(s: Tx) {
    s.phase != Length && s.expected > CAPACITY
  }

  lemma StuckStays(s: Tx, v: Word)
    requires Stuck(s)
    ensures var t := Write(s, v);
            Stuck(t) && t.emitted == s.emitted && t.expected == s.expected && t.aligned == s.aligned
  {
  }

  lemma {:induction false} StuckForever(s: Tx, ws: seq<Word>)
    requires Stuck(s)
    ensures var t := WriteAll(s, ws);
            Stuck(t) && t.emitted == s.emitted && t.expected == s.expected && t.aligned == s.aligned
  {
    if ws != [] {
      StuckForever(s, ws[..|ws| - 1]);
      StuckStays(WriteAll(s, ws[..|ws| - 1]), ws[|ws| - 1]);
    }
  }

  /** A longer frame is never sent, and none after it, whatever is written after its length. */
  lemma OversizeNeverSent(s: Tx, len: Word, ws: seq<Word>)
    requires Ready(s) && Expected(len, s.aligned) > CAPACITY
    ensures var t := WriteAll(s, [len] + ws);
            && Stuck(t) && t.emitted == s.emitted
            && t.expected == Expected(len, s.aligned) && t.aligned == s.aligned
  {
    WriteAllAppend(s, [len], ws);
    assert WriteAll(s, [len]) == Write(s, len) by { assert [len][..0] == []; }
    StuckForever(Write(s, len), ws);
  }

  /** Bytes the next write will push. */
  function Pushes(s: Tx): nat {
    match s.phase
    case Length => 0
    case Align => 2
    case Data => 4
  }

  /** Ring contents and coming pushes before data word `k` of a frame. */
  lemma FillBefore(s: Tx, len: Word, ws: seq<Word>, f: seq<Byte>, k: nat)
    requires Ready(s) && Carries(ws, f, s.aligned) && Expected(len, s.aligned) == |f| && k < |ws|
    requires |f| <= CAPACITY
    ensures var t := WriteAll(s, [len] + ws[..k]);
            |t.buffer| + Pushes(t) == 4 * (k + 1) - Skip(s.aligned)
  {
    var o := Write(s, len);
    WriteAllAppend(s, [len], ws[..k]);
    assert WriteAll(s, [len]) == o by { assert [len][..0] == []; }
    if k > 0 {
      Filling(o, ws[..k]);
    }
  }

  /** The write of data word `k` does not push into a full ring. */
  predicate Room(s: Tx, len: Word, ws: seq<Word>, k: nat)
    requires k < |ws|
  {
    var t := WriteAll(s, [len] + ws[..k]);
    |t.buffer| + Pushes(t) <= CAPACITY
  }

  lemma WholeWordsFit(n: nat, aligned: bool)
    ensures 4 * DataWords(n, aligned) - Skip(aligned) <= CAPACITY <==> n + Skip(aligned) <= CAPACITY
  {
  }

  /** A frame never pushes into a full ring exactly if its alignment bytes and its own bytes together are
      no more than the ring holds: up to 4096 bytes without the aligner, up to 4094 with it. */
  lemma RoomThroughout(s: Tx, len: Word, ws: seq<Word>, f: seq<Byte>)
    requires Ready(s) && Carries(ws, f, s.aligned) && Expected(len, s.aligned) == |f| <= CAPACITY
    ensures (forall k: nat | k < |ws| :: Room(s, len, ws, k)) <==> |f| + Skip(s.aligned) <= CAPACITY
  {
    WholeWordsFit(|f|, s.aligned);
    FillBefore(s, len, ws, f, |ws| - 1);
    assert Room(s, len, ws, |ws| - 1) <==> |f| + Skip(s.aligned) <= CAPACITY;
    forall k: nat | k < |ws| && |f| + Skip(s.aligned) <= CAPACITY ensures Room(s, len, ws, k) {
      FillBefore(s, len, ws, f, k);
    }
  }

  // ---------------------------------------------------------------- sequences of frames

  /** What a driver writes for one frame. */
  datatype Job = Job(len: Word, data: seq<Word>, frame: seq<Byte>)

  predicate Proper(job: Job, aligned: bool) {
    Carries(job.data, job.frame, aligned) && Expected(job.len, aligned) == |job.frame| <= CAPACITY
  }

  function Script(jobs: seq<Job>): seq<Word> {
    if jobs == [] then [] else Script(jobs[..|jobs| - 1]) + ([jobs[|jobs| - 1].len] + jobs[|jobs| - 1].data)
  }

  predicate AllProper(jobs: seq<Job>, aligned: bool) {
    jobs != [] ==> AllProper(jobs[..|jobs| - 1], aligned) && Proper(jobs[|jobs| - 1], aligned)
  }

  /** The frames of the jobs, padded. */
  function Frames(jobs: seq<Job>): (fs: seq<seq<Byte>>)
    ensures |fs| == |jobs|
  {
    if jobs == [] then [] else Frames(jobs[..|jobs| - 1]) + [Padded(jobs[|jobs| - 1].frame)]
  }

  lemma JobSent(s: Tx, job: Job)
    requires Ready(s) && Proper(job, s.aligned)
    ensures var t := WriteAll(s, [job.len] + job.data);
            Ready(t) && t.aligned == s.aligned && t.emitted == s.emitted + [Padded(job.frame)]
  {
    FrameSent(s, job.len, job.data, job.frame);
  }

  /** Round trip: the frames of any sequence of jobs are sent exactly, in order, padded to the minimum,
      and the machine ends ready and empty. */
  lemma {:induction false} TransmitRoundTrip(s: Tx, jobs: seq<Job>)
    requires Ready(s) && AllProper(jobs, s.aligned)
    ensures var t := WriteAll(s, Script(jobs));
            Ready(t) && t.aligned == s.aligned && t.emitted == s.emitted + Frames(jobs)
  {
    if jobs != [] {
      var front, job := jobs[..|jobs| - 1], jobs[|jobs| - 1];
      TransmitRoundTrip(s, front);
      WriteAllAppend(s, Script(front), [job.len] + job.data);
      JobSent(WriteAll(s, Script(front)), job);
    }
  }

  // ---------------------------------------------------------------- a driver

  /** One word of four bytes. */
  function WordOf(bs: seq<Byte>): Word
    requires |bs| == 4
  {
    BytesOfValue(bs);
    RadixOfWord();
    Value(bs)
  }

  lemma BytesOfWord(bs: seq<Byte>)
    requires |bs| == 4
    ensures Bytes(WordOf(bs), 4) == bs
  {
    BytesOfValue(bs);
  }

  function WordsOf(bs: seq<Byte>, n: nat): (ws: seq<Word>)
    requires |bs| == 4 * n
    ensures |ws| == n
  {
    if n == 0 then [] else WordsOf(bs[..|bs| - 4], n - 1) + [WordOf(bs[|bs| - 4..])]
  }

  lemma WordsOfSnoc(front: seq<Byte>, last: seq<Byte>, n: nat)
    requires |front| == 4 * n && |last| == 4
    ensures WordsOf(front + last, n + 1) == WordsOf(front, n) + [WordOf(last)]
  {
    var bs := front + last;
    assert bs[..|bs| - 4] == front && bs[|bs| - 4..] == last;
  }

  lemma {:induction false} StreamOfWords(bs: seq<Byte>, n: nat)
    requires |bs| == 4 * n
    ensures Stream(WordsOf(bs, n)) == bs
  {
    if n > 0 {
      var front, last := bs[..|bs| - 4], bs[|bs| - 4..];
      assert bs == front + last;
      StreamOfWords(front, n - 1);
      WordsOfSnoc(front, last, n - 1);
      StreamSnoc(WordsOf(front, n - 1), WordOf(last));
      BytesOfWord(last);
    }
  }

  /** The frame between alignment bytes and filler. */
  function Framed(f: seq<Byte>, aligned: bool): (bs: seq<Byte>)
    ensures |bs| == 4 * DataWords(|f|, aligned)
  {
    Zeros(Skip(aligned)) + f + Zeros(4 * DataWords(|f|, aligned) - Skip(aligned) - |f|)
  }

  /** The plain driver: bit length including the alignment bytes, then the frame four bytes at a time,
      the last word filled up with zeros. */
  function DriverJob(f: seq<Byte>, aligned: bool): Job
    requires |f| <= CAPACITY
  {
    Job(8 * (Skip(aligned) + |f|), WordsOf(Framed(f, aligned), DataWords(|f|, aligned)), f)
  }

  /** What a length word announces: its bits rounded up to bytes, less the alignment bytes. One that announces less
      than these, or whose rounding leaves 32 bits, is no length of a frame. */
  lemma Announced(v: Word, aligned: bool)
    ensures var n := Expected(v, aligned);
            if v > 0xFFFF_FFF8 then if aligned then n > CAPACITY else n == 0
            else if aligned && v <= 8 then n > CAPACITY
            else 8 * (n + Skip(aligned)) - 7 <= v <= 8 * (n + Skip(aligned))
  {
  }

  /** The length word announces exactly the frame. */
  lemma DriverLength(n: nat, aligned: bool)
    requires n <= CAPACITY
    ensures Expected(8 * (Skip(aligned) + n), aligned) == n
  {
    assert (8 * (Skip(aligned) + n) + 7) / 8 == Skip(aligned) + n;
  }

  lemma FramedHolds(f: seq<Byte>, aligned: bool)
    ensures Framed(f, aligned)[Skip(aligned)..Skip(aligned) + |f|] == f
  {
  }

  lemma DriverCarries(f: seq<Byte>, aligned: bool, k: nat)
    requires f != [] && k == DataWords(|f|, aligned)
    ensures Carries(WordsOf(Framed(f, aligned), k), f, aligned)
  {
    FramedHolds(f, aligned);
    StreamOfWords(Framed(f, aligned), k);
  }

  /** Its words carry every frame that fits the ring. */
  lemma DriverIsProper(f: seq<Byte>, aligned: bool)
    requires 1 <= |f| <= CAPACITY
    ensures Proper(DriverJob(f, aligned), aligned)
  {
    DriverCarries(f, aligned, DataWords(|f|, aligned));
    DriverLength(|f|, aligned);
  }
}
