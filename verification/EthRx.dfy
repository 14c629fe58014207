/** The receive path of minres/ethmac.cpp: frames are encoded into the receive ring, the CPU takes them
    out word by word. */
module EthRx {
  import opened Octets
  import opened EthRing
  import opened EthCodec

  const CAPACITY := 8192

  /** `drops` is the sticky rx_drops field. */
  datatype Rx = Rx(buffer: seq<Byte>, drops: bool, flush: bool, aligned: bool)

  /** push_rx_buffer, once for each byte. */
  function Pushed(s: Rx, bs: seq<Byte>): Rx {
    s.(buffer := Clip(s.buffer + bs, CAPACITY), drops := s.drops || |s.buffer| + |bs| > CAPACITY)
  }

  /** The eth_rx transport callback. */
  function Receive(s: Rx, p: seq<Byte>): Rx {
    if s.flush then s
    else if |s.buffer| >= CAPACITY then s.(drops := true)
    else Pushed(s, Encoding(p, s.aligned))
  }

  /** The MAC_RX read callback: the value read. */
  function WordRead(s: Rx): nat {
    if s.flush then 0 else Value(Clip(s.buffer, 4))
  }

  /** The MAC_RX read callback: what it leaves in the ring. */
  function Read(s: Rx): Rx {
    if s.flush then s else s.(buffer := s.buffer[|Clip(s.buffer, 4)|..])
  }

  lemma PushedAppend(s: Rx, a: seq<Byte>, b: seq<Byte>)
    requires |s.buffer| <= CAPACITY
    ensures Pushed(Pushed(s, a), b) == Pushed(s, a + b)
  {
    ClipAppend(s.buffer + a, b, CAPACITY);
    assert s.buffer + a + b == s.buffer + (a + b);
  }

  lemma WordReadIsWord(s: Rx)
    ensures WordRead(s) < 0x1_0000_0000
    ensures !s.flush && |s.buffer| >= 4 ==> s.buffer == Bytes(WordRead(s), 4) + Read(s).buffer
  {
    BytesOfValue(Clip(s.buffer, 4));
    RadixOfWord();
    assert Radix(3) == 0x100_0000 && Radix(2) == 0x1_0000;
  }

  // ---------------------------------------------------------------- runs

  datatype Event = Arrival(payload: seq<Byte>) | Fetch

  /** The receive path together with the frames that arrived and the words that the CPU read while
      rx_pending was set. */
  datatype Session = Session(mac: Rx, offered: seq<seq<Byte>>, fetched: seq<Word>) {
    /** Everything handed over so far and everything still in the ring. */
    function Delivered(): seq<Byte> {
      Stream(fetched) + mac.buffer
    }
  }

  function Next(x: Session, e: Event): Session {
    match e
    case Arrival(p) => Session(Receive(x.mac, p), x.offered + [p], x.fetched)
    case Fetch => if x.mac.buffer == [] then x.(mac := Read(x.mac)) else Taken(x)
  }

  function Taken(x: Session): Session {
    WordReadIsWord(x.mac);
    Session(Read(x.mac), x.offered, x.fetched + [WordRead(x.mac)])
  }

  function Run(x: Session, es: seq<Event>): Session {
    if es == [] then x else Next(Run(x, es[..|es| - 1]), es[|es| - 1])
  }

  predicate Fresh(x: Session) {
    x.mac.buffer == [] && !x.mac.drops && !x.mac.flush && x.offered == [] && x.fetched == []
  }

  /** The receive side between two events: whole words, and either all bytes of `all` have been read or
      are in the ring, or some are missing and rx_drops says so. */
  predicate Balanced(t: Rx, taken: seq<Byte>, all: seq<Byte>) {
    && !t.flush && |t.buffer| <= CAPACITY && |t.buffer| % 4 == 0
    && if t.drops then |taken| + |t.buffer| < |all| else taken + t.buffer == all
  }

  lemma PushBalanced(t: Rx, taken: seq<Byte>, all: seq<Byte>, e: seq<Byte>)
    requires Balanced(t, taken, all) && |e| % 4 == 0
    ensures Balanced(Pushed(t, e), taken, all + e)
  {
    if |t.buffer| + |e| <= CAPACITY {
      assert taken + (t.buffer + e) == taken + t.buffer + e;
    }
  }

  lemma DropBalanced(t: Rx, taken: seq<Byte>, all: seq<Byte>, e: seq<Byte>)
    requires Balanced(t, taken, all) && e != []
    ensures Balanced(t.(drops := true), taken, all + e)
  {
  }

  lemma ReadBalanced(t: Rx, taken: seq<Byte>, all: seq<Byte>, chunk: seq<Byte>)
    requires Balanced(t, taken, all) && |chunk| == 4 && t.buffer == chunk + Read(t).buffer
    ensures Balanced(Read(t), taken + chunk, all)
  {
    assert taken + chunk + Read(t).buffer == taken + t.buffer;
  }

  predicate Accounts(x: Session, aligned: bool) {
    && x.mac.aligned == aligned
    && Balanced(x.mac, Stream(x.fetched), Encodings(x.offered, aligned))
    && (!x.mac.drops ==> AllEncodable(x.offered))
  }

  lemma ArrivalAccounts(x: Session, p: seq<Byte>, aligned: bool)
    requires Accounts(x, aligned)
    ensures Accounts(Next(x, Arrival(p)), aligned)
  {
    var taken, all, e := Stream(x.fetched), Encodings(x.offered, aligned), Encoding(p, aligned);
    EncodingsSnoc(x.offered, p, aligned);
    PushBalanced(x.mac, taken, all, e);
    DropBalanced(x.mac, taken, all, e);
  }

  lemma TakenAccounts(x: Session, aligned: bool)
    requires Accounts(x, aligned) && x.mac.buffer != []
    ensures Accounts(Taken(x), aligned)
  {
    WordReadIsWord(x.mac);
    ReadBalanced(x.mac, Stream(x.fetched), Encodings(x.offered, aligned), Bytes(WordRead(x.mac), 4));
    StreamSnoc(x.fetched, WordRead(x.mac));
  }

  lemma NextAccounts(x: Session, e: Event, aligned: bool)
    requires Accounts(x, aligned)
    ensures Accounts(Next(x, e), aligned)
  {
    if e.Arrival? {
      ArrivalAccounts(x, e.payload, aligned);
    } else if x.mac.buffer != [] {
      TakenAccounts(x, aligned);
    }
  }

  lemma {:induction false} RunAccounts(x: Session, es: seq<Event>)
    requires Fresh(x)
    ensures Accounts(Run(x, es), x.mac.aligned)
  {
    if es != [] {
      RunAccounts(x, es[..|es| - 1]);
      NextAccounts(Run(x, es[..|es| - 1]), es[|es| - 1], x.mac.aligned);
    }
  }

  /** Every frame finds room for its whole encoding when it arrives. */
  predicate FitsThroughout(x: Session, es: seq<Event>) {
    es == [] || (
      var front, e := es[..|es| - 1], es[|es| - 1];
      var mac := Run(x, front).mac;
      FitsThroughout(x, front) && (e.Arrival? ==> |mac.buffer| + Total(|e.payload|, mac.aligned) <= CAPACITY))
  }

  /** One event raises rx_drops exactly if it is a frame that does not fit. */
  lemma DropsWhenFull(mac: Rx, e: Event)
    requires !mac.flush
    ensures var x := Next(Session(mac, [], []), e).mac;
            x.drops <==> mac.drops || (e.Arrival? && |mac.buffer| + Total(|e.payload|, mac.aligned) > CAPACITY)
  {
  }

  lemma NextMac(x: Session, e: Event)
    ensures Next(x, e).mac == Next(Session(x.mac, [], []), e).mac
  {
  }

  /** rx_drops is raised in a run exactly if some frame does not find room. */
  lemma {:induction false} DropsIffFull(x: Session, es: seq<Event>)
    requires Fresh(x)
    ensures Run(x, es).mac.drops <==> !FitsThroughout(x, es)
  {
    if es != [] {
      var front, e := es[..|es| - 1], es[|es| - 1];
      DropsIffFull(x, front);
      RunAccounts(x, front);
      NextMac(Run(x, front), e);
      DropsWhenFull(Run(x, front).mac, e);
    }
  }

  /** In every interleaving of arrivals and reads, however overfull the ring gets: the words read
      followed by the ring's contents are the encodings of all frames that arrived, in order, exactly if
      every frame found room when it arrived, and exactly if rx_drops is clear. No read ever finds part of
      a word. */
  lemma ConservationOrDrop(x: Session, es: seq<Event>)
    requires Fresh(x)
    ensures var y := Run(x, es);
            && (y.Delivered() == Encodings(y.offered, x.mac.aligned) <==> FitsThroughout(x, es))
            && (y.mac.drops <==> !FitsThroughout(x, es))
            && |y.mac.buffer| % 4 == 0
  {
    RunAccounts(x, es);
    DropsIffFull(x, es);
  }

  lemma AccountsDecodes(y: Session, aligned: bool)
    requires Accounts(y, aligned) && !y.mac.drops
    ensures Decode(Stream(y.fetched), aligned) == Intact(y.offered[..Complete(y.offered, aligned, 4 * |y.fetched|)])
    ensures Decode(y.Delivered(), aligned) == Intact(y.offered)
  {
    DecodePrefix(y.offered, aligned, Stream(y.fetched));
    DecodeEncodings(y.offered, aligned);
  }

  /** Once a frame has been dropped or stored in part, no decoding gives all frames back. */
  lemma ShortfallShows(y: Session, aligned: bool)
    requires Accounts(y, aligned) && y.mac.drops
    ensures Decode(y.Delivered(), aligned) != Intact(y.offered)
  {
    if Decode(y.Delivered(), aligned) == Intact(y.offered) {
      DecodedWasStored(y.offered, aligned, y.Delivered());
      assert false;
    }
  }

  /** In every interleaving, a driver that follows the length words recovers all frames that arrived, each
      intact and in order, from what it has read and what is still in the ring if and only if every frame
      found room when it arrived; what it has read then gives exactly the frames read completely. */
  lemma DriverRecoversFrames(x: Session, es: seq<Event>)
    requires Fresh(x)
    ensures var y, aligned := Run(x, es), x.mac.aligned;
            && (Decode(y.Delivered(), aligned) == Intact(y.offered) <==> FitsThroughout(x, es))
            && (FitsThroughout(x, es) ==>
                  Decode(Stream(y.fetched), aligned)
                  == Intact(y.offered[..Complete(y.offered, aligned, 4 * |y.fetched|)]))
  {
    RunAccounts(x, es);
    DropsIffFull(x, es);
    if FitsThroughout(x, es) {
      AccountsDecodes(Run(x, es), x.mac.aligned);
    } else {
      ShortfallShows(Run(x, es), x.mac.aligned);
    }
  }

  /** While rx_flush is set, frames are lost without a trace in rx_drops, and reads return zero and take nothing. */
  lemma {:induction false} FlushIgnores(x: Session, es: seq<Event>)
    requires x.mac.flush
    ensures Run(x, es).mac == x.mac
    ensures forall w | w in Run(x, es).fetched :: w in x.fetched || w == 0
  {
    if es != [] {
      FlushIgnores(x, es[..|es| - 1]);
    }
  }

  // ---------------------------------------------------------------- a frame that does not fit

  /** A frame that fits is stored whole behind what is there. */
  lemma FittingFrame(s: Rx, p: seq<Byte>)
    requires !s.flush && |s.buffer| + Total(|p|, s.aligned) <= CAPACITY
    ensures Receive(s, p) == s.(buffer := s.buffer + Encoding(p, s.aligned))
  {
  }

  /** Of a frame that does not, the ring keeps a proper part of the encoding, whole words including the
      length word, or nothing if it was full. */
  lemma OverlongFrame(s: Rx, p: seq<Byte>) returns (part: seq<Byte>)
    requires !s.flush && |s.buffer| <= CAPACITY < |s.buffer| + Total(|p|, s.aligned) && |s.buffer| % 4 == 0
    ensures part < Encoding(p, s.aligned) && |part| % 4 == 0 && (part == [] <==> |s.buffer| == CAPACITY)
    ensures Receive(s, p) == s.(buffer := s.buffer + part, drops := true)
  {
    var e := Encoding(p, s.aligned);
    part := e[..CAPACITY - |s.buffer|];
    assert (s.buffer + e)[..CAPACITY] == s.buffer + part;
    assert s.buffer + [] == s.buffer;
  }

  /** What the decoder makes of whole encodings followed by a part of one. */
  lemma PartIsInvisible(ps: seq<seq<Byte>>, p: seq<Byte>, part: seq<Byte>, aligned: bool)
    requires AllEncodable(ps + [p]) && part < Encoding(p, aligned)
    ensures Decode(Encodings(ps, aligned) + part, aligned) == Intact(ps)
  {
    var stream := Encodings(ps, aligned) + part;
    EncodingsSnoc(ps, p, aligned);
    assert stream <= Encodings(ps + [p], aligned);
    DecodePrefix(ps + [p], aligned, stream);
    CompleteSnoc(ps, p, aligned, |stream|);
    assert (ps + [p])[..|ps|] == ps;
  }

  lemma StartKept(a: seq<Byte>, b: seq<Byte>, n: nat)
    requires n <= |a|
    ensures (a + b)[..n] == a[..n]
  {
  }

  lemma EndKept(a: seq<Byte>, b: seq<Byte>, n: nat)
    requires |a| <= n <= |a| + |b|
    ensures (a + b)[n..] == b[n - |a|..]
  {
  }

  lemma Regroup(a: seq<Byte>, b: seq<Byte>, c: seq<Byte>)
    ensures a + (b + c) == a + b + c
  {
  }

  lemma StoredFrame(taken: seq<Byte>, buffer: seq<Byte>, ps: seq<seq<Byte>>, p: seq<Byte>, aligned: bool)
    requires taken + buffer == Encodings(ps, aligned) && AllEncodable(ps + [p])
    ensures Decode(taken + (buffer + Encoding(p, aligned)), aligned) == Intact(ps + [p])
  {
    Regroup(taken, buffer, Encoding(p, aligned));
    EncodingsSnoc(ps, p, aligned);
    DecodeEncodings(ps + [p], aligned);
  }

  lemma LostFrame(taken: seq<Byte>, buffer: seq<Byte>, part: seq<Byte>, ps: seq<seq<Byte>>, p: seq<Byte>, aligned: bool)
    requires taken + buffer == Encodings(ps, aligned) && AllEncodable(ps + [p]) && part < Encoding(p, aligned)
    ensures Decode(taken + (buffer + part), aligned) == Intact(ps)
  {
    Regroup(taken, buffer, part);
    PartIsInvisible(ps, p, part, aligned);
  }

  /** However much of the earlier frames has been read already: a frame is stored if and only if its whole
      encoding fits; otherwise rx_drops is raised, and although a part of it may have been stored, the
      decoder yields the earlier frames and nothing of this one. */
  lemma FrameStoredOrLost(s: Rx, taken: seq<Byte>, ps: seq<seq<Byte>>, p: seq<Byte>)
    requires !s.flush && taken + s.buffer == Encodings(ps, s.aligned) && AllEncodable(ps + [p])
    requires |s.buffer| <= CAPACITY && |s.buffer| % 4 == 0
    ensures var t, fits := Receive(s, p), |s.buffer| + Total(|p|, s.aligned) <= CAPACITY;
            && Decode(taken + t.buffer, s.aligned) == Intact(if fits then ps + [p] else ps)
            && (t.drops <==> s.drops || !fits)
  {
    if |s.buffer| + Total(|p|, s.aligned) <= CAPACITY {
      FittingFrame(s, p);
      StoredFrame(taken, s.buffer, ps, p, s.aligned);
    } else {
      var part := OverlongFrame(s, p);
      LostFrame(taken, s.buffer, part, ps, p, s.aligned);
    }
  }

  // ---------------------------------------------------------------- after a truncated frame

  /** The start of a frame of `n` bytes that does not continue: it holds at least the length word. */
  predicate Truncated(part: seq<Byte>, n: nat, aligned: bool) {
    && 4 <= |part| < Total(n, aligned) && 8 * Size(n, aligned) < 0x1_0000_0000
    && part[..4] == Bytes(8 * Size(n, aligned), 4)
  }

  /** What the ring keeps of a frame that does not fit, unless it was full, is such a start. */
  lemma OverlongIsTruncated(s: Rx, p: seq<Byte>)
    requires !s.flush && |s.buffer| < CAPACITY < |s.buffer| + Total(|p|, s.aligned) && |s.buffer| % 4 == 0
    requires Encodable(p)
    ensures s.buffer <= Receive(s, p).buffer && Truncated(Receive(s, p).buffer[|s.buffer|..], |p|, s.aligned)
  {
    var part := OverlongFrame(s, p);
    EncodingStarts(p, s.aligned);
    assert part[..4] == Encoding(p, s.aligned)[..4];
    assert (s.buffer + part)[|s.buffer|..] == part;
  }

  /** A truncated encoding desynchronises the decoder. Its length word still announces the whole frame,
      so the missing bytes are taken from whatever is stored next: until enough has arrived nothing more is
      decoded, and then one frame of the announced size is delivered, and decoding resumes behind the
      swallowed bytes. */
  lemma TruncationSwallows(part: seq<Byte>, later: seq<Byte>, n: nat, aligned: bool)
    requires Truncated(part, n, aligned)
    ensures var stream, missing := part + later, Total(n, aligned) - |part|;
            Decode(stream, aligned) ==
              if |later| < missing then []
              else [Front(stream, Size(n, aligned), aligned)] + Decode(later[missing..], aligned)
  {
    var missing := Total(n, aligned) - |part|;
    var rest := if |later| < missing then [] else later[missing..];
    StartKept(part, later, 4);
    if |later| >= missing {
      EndKept(part, later, Total(n, aligned));
    }
    DecodeAnnounced(part + later, Size(n, aligned), Total(n, aligned), rest, aligned);
  }

  /** So of the frames stored after it, those that begin within the missing bytes are lost too; if these
      end where a frame ends, the decoder is in step again and yields all the others. */
  lemma LaterFramesLost(part: seq<Byte>, n: nat, lost: seq<seq<Byte>>, others: seq<seq<Byte>>, aligned: bool)
    requires Truncated(part, n, aligned) && AllEncodable(others)
    requires TotalOf(lost, aligned) == Total(n, aligned) - |part|
    ensures var frames := Decode(part + (Encodings(lost, aligned) + Encodings(others, aligned)), aligned);
            |frames| == 1 + |others| && frames[1..] == Intact(others)
  {
    var later := Encodings(lost, aligned) + Encodings(others, aligned);
    TruncationSwallows(part, later, n, aligned);
    assert later[|Encodings(lost, aligned)|..] == Encodings(others, aligned);
    DecodeEncodings(others, aligned);
  }
}
