/** Checksum repair of generic/host_phy.cpp: an Ethernet/IPv4/TCP/UDP frame whose checksum field still
    holds the pseudo-header seed left by checksum offload gets its transport checksum completed in place. */
module HostPhy {
  import opened Rfc1071

  const ETHERNET_HEADER := 14
  const ETHERTYPE_IPV4 := 0x0800
  const IPV4_MIN_HEADER := 20
  const TCP_MIN_HEADER := 20
  const UDP_HEADER := 8
  const TCP := 6
  const UDP := 17
  const TCP_CHECKSUM := 16
  const UDP_LENGTH := 4
  const UDP_CHECKSUM := 6
  /** Offset of the IPv4 source and destination addresses in the frame. */
  const ADDRESSES := ETHERNET_HEADER + 12

  /** Where the transport segment and its checksum field lie in the frame. */
  datatype Transport = Transport(segment: nat, length: nat, protocol: Byte, offset: nat) {
    predicate Fits(f: seq<Byte>) {
      && ADDRESSES + 8 <= segment && segment + length <= |f| && length < 0x1_0000
      && offset % 2 == 0 && offset + 2 <= length
      && protocol == if offset == TCP_CHECKSUM then TCP else UDP
    }

    function Field(): nat {
      segment + offset
    }
  }

  datatype Parsed = Rejected(code: nat) | Untouched | Found(t: Transport)

  function ReadU16(f: seq<Byte>, at: nat): Word16
    requires at + 1 < |f|
  {
    Word(f[at], f[at + 1])
  }

  /** The header walk: which error code is returned, or which transport segment is found. */
  function Parse(f: seq<Byte>): (p: Parsed)
    ensures p.Rejected? ==> 1 <= p.code <= 10
    ensures p.Found? ==> p.t.Fits(f)
  {
    if |f| < ETHERNET_HEADER then Rejected(1)
    else if ReadU16(f, 12) != ETHERTYPE_IPV4 then Rejected(2)
    else
      var ip := ETHERNET_HEADER;
      var available := |f| - ip;
      if available < IPV4_MIN_HEADER then Rejected(3)
      else if f[ip] / 16 != 4 then Rejected(4)
      else
        var header := f[ip] % 16 * 4;
        var total := ReadU16(f, ip + 2);
        if header < IPV4_MIN_HEADER || header > available then Rejected(5)
        else if total < header || total > available then Rejected(6)
        else if f[ip + 9] != TCP && f[ip + 9] != UDP then Untouched
        else if Fragmented(ReadU16(f, ip + 6)) then Untouched
        else if f[ip + 9] == TCP then ParseTcp(f, ip + header, total - header)
        else ParseUdp(f, ip + header, total - header)
  }

  /** More-fragments flag set or fragment offset not zero. */
  predicate Fragmented(flagsAndOffset: Word16) {
    flagsAndOffset % 0x2000 != 0 || flagsAndOffset / 0x2000 % 2 != 0
  }

  function ParseTcp(f: seq<Byte>, segment: nat, length: nat): Parsed
    requires segment + length <= |f|
  {
    if length < TCP_MIN_HEADER then Rejected(7)
    else if f[segment + 12] / 16 * 4 < TCP_MIN_HEADER || f[segment + 12] / 16 * 4 > length then Rejected(8)
    else Found(Transport(segment, length, TCP, TCP_CHECKSUM))
  }

  function ParseUdp(f: seq<Byte>, segment: nat, length: nat): Parsed
    requires segment + length <= |f|
  {
    if length < UDP_HEADER then Rejected(9)
    else if ReadU16(f, segment + UDP_LENGTH) < UDP_HEADER || ReadU16(f, segment + UDP_LENGTH) > length then Rejected(10)
    else Found(Transport(segment, ReadU16(f, segment + UDP_LENGTH), UDP, UDP_CHECKSUM))
  }

  // ---------------------------------------------------------------- which frames are found

  function PowerOfTwo(n: nat): (p: nat)
    ensures p > 0
  {
    if n == 0 then 1 else 2 * PowerOfTwo(n - 1)
  }

  /** Bit `k` of a word. */
  predicate Bit(w: nat, k: nat) {
    if k == 0 then w % 2 == 1 else Bit(w / 2, k - 1)
  }

  /** A multiple of two to the power of `n` has no bit below `n`. */
  lemma {:induction false} NoLowBits(w: nat, n: nat, x: nat, k: nat)
    requires w == PowerOfTwo(n) * x && k < n
    ensures !Bit(w, k)
  {
    var half := PowerOfTwo(n - 1) * x;
    assert w == 2 * half;
    if k > 0 {
      NoLowBits(half, n - 1, x, k - 1);
    }
  }

  /** A word without a bit below `n` is a multiple of it. */
  lemma {:induction false} LowestBits(w: nat, n: nat) returns (x: nat)
    requires forall k: nat | k < n :: !Bit(w, k)
    ensures w == PowerOfTwo(n) * x
  {
    if n == 0 {
      x := w;
    } else {
      assert !Bit(w, 0);
      forall k: nat | k < n - 1 ensures !Bit(w / 2, k) {
        assert !Bit(w, k + 1);
      }
      x := LowestBits(w / 2, n - 1);
      assert 2 * (PowerOfTwo(n - 1) * x) == PowerOfTwo(n) * x;
    }
  }

  lemma SixteenK()
    ensures PowerOfTwo(14) == 0x4000
  {
    assert PowerOfTwo(4) == 16;
    assert PowerOfTwo(8) == 256;
    assert PowerOfTwo(12) == 0x1000;
  }

  /** A fragment: a bit of the 13-bit offset, bits 0 to 12, is set, or the more-fragments flag, bit 13. The
      reserved and the don't-fragment flag, bits 15 and 14, do not matter. */
  predicate FragmentWord(w: nat) {
    exists k: nat :: k <= 13 && Bit(w, k)
  }

  lemma FragmentBits(w: Word16)
    ensures Fragmented(w) <==> FragmentWord(w)
  {
    SixteenK();
    if Fragmented(w) && !FragmentWord(w) {
      var x := LowestBits(w, 14);
      assert false;
    } else if !Fragmented(w) {
      forall k: nat | k <= 13 ensures !Bit(w, k) {
        NoLowBits(w, 14, w / 0x4000, k);
      }
    }
  }

  /** So a packet is no fragment exactly if its flags and offset are zero but for these two flags. */
  lemma OnlyHighFlags(w: Word16)
    ensures !FragmentWord(w) <==> w == 0 || w == 0x4000 || w == 0x8000 || w == 0xC000
  {
    FragmentBits(w);
  }

  /** Two bytes in network order. */
  function BigEndian(high: nat, low: nat): nat {
    256 * high + low
  }

  /** Header and total length of the IPv4 packet, in bytes. */
  function HeaderBytes(f: seq<Byte>): nat
    requires |f| >= 34
  {
    4 * (f[14] % 16)
  }

  function TotalBytes(f: seq<Byte>): nat
    requires |f| >= 34
  {
    BigEndian(f[16], f[17])
  }

  /** The checks on Ethernet and IPv4 header, each under the error code that reports its failure: room for an
      Ethernet header, EtherType IPv4, room for an IPv4 header, version 4, header length, total length. */
  predicate Check(f: seq<Byte>, code: nat) {
    match code
    case 1 => |f| >= 14
    case 2 => |f| >= 14 && f[12] == 0x08 && f[13] == 0x00
    case 3 => |f| >= 34
    case 4 => |f| >= 34 && 0x40 <= f[14] <= 0x4F
    case 5 => |f| >= 34 && 20 <= HeaderBytes(f) <= |f| - 14
    case 6 => |f| >= 34 && HeaderBytes(f) <= TotalBytes(f) <= |f| - 14
    case _ => true
  }

  /** All checks with a smaller code pass. */
  predicate PassesBefore(f: seq<Byte>, code: nat) {
    forall k: nat | k < code :: Check(f, k)
  }

  /** An unfragmented packet of TCP or UDP. */
  predicate CarriesTransport(f: seq<Byte>): (b: bool)
    ensures b ==> |f| >= 34 && 20 <= HeaderBytes(f) <= TotalBytes(f) <= |f| - 14
  {
    && PassesBefore(f, 7) && Check(f, 5) && Check(f, 6)
    && (f[23] == 6 || f[23] == 17) && !FragmentWord(BigEndian(f[20], f[21]))
  }

  /** What is wrong with a TCP or UDP header: no room for it, or a bad data offset or UDP length. */
  predicate Faulty(f: seq<Byte>, start: nat, room: nat, code: nat)
    requires 34 <= start && start + room <= |f|
  {
    if f[23] == 6 then if room < 20 then code == 7 else code == 8 && !(20 <= 4 * (f[start + 12] / 16) <= room)
    else if room < 8 then code == 9
    else code == 10 && !(8 <= BigEndian(f[start + 4], f[start + 5]) <= room)
  }

  /** A TCP segment is as long as the total length says, with a data offset between five words and the segment;
      a UDP datagram is as long as its length field says, between its header and the segment. */
  predicate Sound(f: seq<Byte>, start: nat, room: nat, t: Transport)
    requires 34 <= start && start + room <= |f|
  {
    && t.segment == start && t.protocol == f[23]
    && if f[23] == 6 then
         t.length == room >= 20 && t.offset == 16 && 20 <= 4 * (f[start + 12] / 16) <= room
       else
         && room >= 8 && t.offset == 6
         && 8 <= t.length <= room && t.length == BigEndian(f[start + 4], f[start + 5])
  }

  /** The frame carries the transport segment `t`. */
  predicate Carries(f: seq<Byte>, t: Transport): (b: bool)
    ensures b ==> t.Fits(f)
  {
    CarriesTransport(f) && Sound(f, 14 + HeaderBytes(f), TotalBytes(f) - HeaderBytes(f), t)
  }

  lemma OneMoreCheck(f: seq<Byte>, code: nat)
    ensures PassesBefore(f, code + 1) <==> PassesBefore(f, code) && Check(f, code)
  {
  }

  lemma ChecksInOrder(f: seq<Byte>)
    ensures PassesBefore(f, 1)
    ensures PassesBefore(f, 2) <==> Check(f, 1)
    ensures PassesBefore(f, 3) <==> Check(f, 2)
    ensures PassesBefore(f, 4) <==> Check(f, 2) && Check(f, 3)
    ensures PassesBefore(f, 5) <==> Check(f, 2) && Check(f, 4)
    ensures PassesBefore(f, 6) <==> Check(f, 2) && Check(f, 4) && Check(f, 5)
    ensures PassesBefore(f, 7) <==> Check(f, 2) && Check(f, 4) && Check(f, 5) && Check(f, 6)
  {
    OneMoreCheck(f, 0);
    OneMoreCheck(f, 1);
    OneMoreCheck(f, 2);
    OneMoreCheck(f, 3);
    OneMoreCheck(f, 4);
    OneMoreCheck(f, 5);
    OneMoreCheck(f, 6);
  }

  /** A header rejection names the first check that fails. */
  lemma RejectsFirstFailure(f: seq<Byte>, code: nat)
    requires 1 <= code <= 6
    ensures Parse(f) == Rejected(code) <==> PassesBefore(f, code) && !Check(f, code)
  {
    ChecksInOrder(f);
  }

  /** Behind the headers the walk goes into the transport segment exactly if there is one. */
  lemma WalksOn(f: seq<Byte>)
    ensures if CarriesTransport(f) then
              && Check(f, 5) && Check(f, 6)
              && var start, room := 14 + HeaderBytes(f), TotalBytes(f) - HeaderBytes(f);
                 Parse(f) == if f[23] == 6 then ParseTcp(f, start, room) else ParseUdp(f, start, room)
            else if PassesBefore(f, 7) then Parse(f) == Untouched
            else Parse(f).Rejected? && Parse(f).code <= 6
  {
    ChecksInOrder(f);
    if |f| >= 34 {
      FragmentBits(ReadU16(f, 20));
    }
  }

  /** Packets that are fragments, or carry neither TCP nor UDP, are left alone, and no others. */
  lemma LeavesAlone(f: seq<Byte>)
    ensures Parse(f) == Untouched <==> PassesBefore(f, 7) && !CarriesTransport(f)
  {
    WalksOn(f);
  }

  lemma TransportVerdict(f: seq<Byte>, start: nat, room: nat, code: nat, t: Transport)
    requires 34 <= start && start + room <= |f| && (f[23] == 6 || f[23] == 17)
    ensures var p := if f[23] == 6 then ParseTcp(f, start, room) else ParseUdp(f, start, room);
            (p == Rejected(code) <==> Faulty(f, start, room, code)) && (p == Found(t) <==> Sound(f, start, room, t))
  {
  }

  /** A transport rejection names what is wrong. */
  lemma RejectsTransport(f: seq<Byte>, code: nat)
    requires 7 <= code <= 10
    ensures Parse(f) == Rejected(code) <==>
            CarriesTransport(f) && Faulty(f, 14 + HeaderBytes(f), TotalBytes(f) - HeaderBytes(f), code)
  {
    WalksOn(f);
    if CarriesTransport(f) {
      TransportVerdict(f, 14 + HeaderBytes(f), TotalBytes(f) - HeaderBytes(f), code, Transport(0, 0, 0, 0));
    }
  }

  /** A transport segment is found if and only if the frame carries it. */
  lemma FindsWhatIsCarried(f: seq<Byte>, t: Transport)
    ensures Parse(f) == Found(t) <==> Carries(f, t)
  {
    WalksOn(f);
    if CarriesTransport(f) {
      TransportVerdict(f, 14 + HeaderBytes(f), TotalBytes(f) - HeaderBytes(f), 7, t);
    }
  }

  // ---------------------------------------------------------------- what is summed

  /** The twelve pseudo-header bytes of RFC 9293 section 3.1 and RFC 768: addresses, protocol, length. */
  function PseudoHeader(f: seq<Byte>, t: Transport): seq<Byte>
    requires t.Fits(f)
  {
    f[ADDRESSES..ADDRESSES + 8] + [0, t.protocol, t.length / 256, t.length % 256]
  }

  function Segment(f: seq<Byte>, t: Transport): seq<Byte>
    requires t.Fits(f)
  {
    f[t.segment..t.segment + t.length]
  }

  function Stored(f: seq<Byte>, t: Transport): Word16
    requires t.Fits(f)
  {
    ReadU16(f, t.Field())
  }

  function Store(f: seq<Byte>, t: Transport, w: Word16): seq<Byte>
    requires t.Fits(f)
  {
    f[t.Field() := w / 256][t.Field() + 1 := w % 256]
  }

  /** The receiver's test of RFC 1071: pseudo-header and segment sum to all ones. */
  predicate Verifies(f: seq<Byte>, t: Transport)
    requires t.Fits(f)
  {
    OnesSum(PseudoHeader(f, t) + Segment(f, t)) == 0xFFFF
  }

  /** The value checksum offload leaves in the field. */
  function Seed(f: seq<Byte>, t: Transport): Word16
    requires t.Fits(f)
  {
    Canonical(WordSum(PseudoHeader(f, t)))
  }

  /** Complement of the sum over pseudo-header and segment; UDP sends its zero as 0xFFFF. */
  function ComplementOf(f: seq<Byte>, t: Transport): Word16
    requires t.Fits(f)
  {
    var complement := 0xFFFF - Canonical(WordSum(PseudoHeader(f, t) + Segment(f, t)));
    if t.protocol == UDP && complement == 0 then 0xFFFF else complement
  }

  /** The checksum of a frame, its field taken as zero. */
  function Checksum(f: seq<Byte>, t: Transport): Word16
    requires t.Fits(f)
  {
    ComplementOf(Store(f, t, 0), t)
  }

  predicate Rewrites(f: seq<Byte>, t: Transport)
    requires t.Fits(f)
  {
    !(t.protocol == UDP && Stored(f, t) == 0) && Stored(f, t) == Seed(f, t)
  }

  function Repaired(f: seq<Byte>): seq<Byte> {
    match Parse(f)
    case Found(t) => if Rewrites(f, t) then Store(f, t, Checksum(f, t)) else f
    case _ => f
  }

  function Code(f: seq<Byte>): nat {
    match Parse(f)
    case Rejected(code) => code
    case _ => 0
  }

  // ---------------------------------------------------------------- facts about the sums

  /** The sum over pseudo-header and segment with the field counted as zero. */
  ghost function Rest(f: seq<Byte>, t: Transport): int
    requires t.Fits(f)
  {
    WordSum(PseudoHeader(f, t)) + WordSum(Segment(f, t)) - Stored(f, t)
  }

  lemma StoreReads(f: seq<Byte>, t: Transport, w: Word16)
    requires t.Fits(f)
    ensures t.Fits(Store(f, t, w))
    ensures Stored(Store(f, t, w), t) == w
    ensures PseudoHeader(Store(f, t, w), t) == PseudoHeader(f, t)
  {
    assert Store(f, t, w)[ADDRESSES..ADDRESSES + 8] == f[ADDRESSES..ADDRESSES + 8];
  }

  lemma StoreTwice(f: seq<Byte>, t: Transport, v: Word16, w: Word16)
    requires t.Fits(f)
    ensures t.Fits(Store(f, t, v))
    ensures Store(Store(f, t, v), t, w) == Store(f, t, w)
    ensures Store(f, t, Stored(f, t)) == f
  {
  }

  lemma SegmentOfStore(f: seq<Byte>, t: Transport, w: Word16)
    requires t.Fits(f) && t.Fits(Store(f, t, w))
    ensures WordSum(Segment(Store(f, t, w), t)) == WordSum(Segment(f, t)) - Stored(f, t) + w
  {
    assert Segment(Store(f, t, w), t) == Segment(f, t)[t.offset := w / 256][t.offset + 1 := w % 256];
    WordSumOverwrite(Segment(f, t), t.offset, w / 256, w % 256);
  }

  /** The two accumulating calls of the seed are the sum of the concatenated pseudo-header; the
      protocol byte makes it positive. */
  lemma PseudoHeaderSum(f: seq<Byte>, t: Transport)
    requires t.Fits(f)
    ensures WordSum(PseudoHeader(f, t)) ==
            WordSum(f[ADDRESSES..ADDRESSES + 8]) + WordSum([0, t.protocol, t.length / 256, t.length % 256])
    ensures WordSum(PseudoHeader(f, t)) > 0
  {
    var tail := [0, t.protocol, t.length / 256, t.length % 256];
    WordSumAppend(f[ADDRESSES..ADDRESSES + 8], tail);
    assert WordSum(tail) == Word(0, t.protocol) + WordSum(tail[2..]);
  }

  /** All three accumulating calls together are the RFC 1071 sum, and never wrap 32 bits. */
  lemma SumDoesNotWrap(f: seq<Byte>, t: Transport)
    requires t.Fits(f)
    ensures WordSum(PseudoHeader(f, t) + Segment(f, t)) == WordSum(PseudoHeader(f, t)) + WordSum(Segment(f, t))
    ensures WordSum(PseudoHeader(f, t)) + WordSum(Segment(f, t)) < TWO32
  {
    WordSumAppend(PseudoHeader(f, t), Segment(f, t));
  }

  lemma RestIsSum(f: seq<Byte>, t: Transport)
    requires t.Fits(f)
    ensures t.Fits(Store(f, t, 0))
    ensures WordSum(PseudoHeader(Store(f, t, 0), t) + Segment(Store(f, t, 0), t)) == Rest(f, t)
  {
    StoreReads(f, t, 0);
    SegmentOfStore(f, t, 0);
    SumDoesNotWrap(Store(f, t, 0), t);
  }

  lemma RestIsPositive(f: seq<Byte>, t: Transport)
    requires t.Fits(f)
    ensures Rest(f, t) > 0
  {
    StoreReads(f, t, 0);
    SegmentOfStore(f, t, 0);
    PseudoHeaderSum(f, t);
  }

  lemma ChecksumOfRest(f: seq<Byte>, t: Transport)
    requires t.Fits(f)
    ensures Rest(f, t) > 0
    ensures var c := 0xFFFF - Canonical(Rest(f, t)); Checksum(f, t) == if t.protocol == UDP && c == 0 then 0xFFFF else c
  {
    RestIsSum(f, t);
    RestIsPositive(f, t);
  }

  /** A frame verifies exactly when its field completes the rest of the sum. */
  lemma VerifiesIff(f: seq<Byte>, t: Transport)
    requires t.Fits(f)
    ensures Rest(f, t) > 0
    ensures Verifies(f, t) <==>
            || Stored(f, t) == 0xFFFF - Canonical(Rest(f, t))
            || (Stored(f, t) == 0xFFFF && Canonical(Rest(f, t)) == 0xFFFF)
  {
    RestIsSum(f, t);
    RestIsPositive(f, t);
    SumDoesNotWrap(f, t);
    OnesSumIsCanonical(PseudoHeader(f, t) + Segment(f, t));
    CompletingWords(Rest(f, t), Stored(f, t));
  }

  lemma RestOfStore(f: seq<Byte>, t: Transport, w: Word16)
    requires t.Fits(f)
    ensures t.Fits(Store(f, t, w)) && Rest(Store(f, t, w), t) == Rest(f, t)
  {
    StoreReads(f, t, w);
    SegmentOfStore(f, t, w);
  }

  /** The seed is never zero, so its match already implies the guard that exempts UDP frames without
      a checksum. */
  lemma SeedMatchImpliesGuard(f: seq<Byte>, t: Transport)
    requires t.Fits(f)
    ensures Seed(f, t) != 0
    ensures Rewrites(f, t) <==> Stored(f, t) == Seed(f, t)
  {
    PseudoHeaderSum(f, t);
  }

  lemma ChecksumCompletes(f: seq<Byte>, t: Transport)
    requires t.Fits(f)
    ensures t.Fits(Store(f, t, Checksum(f, t)))
    ensures Verifies(Store(f, t, Checksum(f, t)), t)
    ensures t.protocol == UDP ==> Checksum(f, t) != 0
  {
    RestIsSum(f, t);
    RestIsPositive(f, t);
    StoreReads(f, t, Checksum(f, t));
    RestOfStore(f, t, Checksum(f, t));
    VerifiesIff(Store(f, t, Checksum(f, t)), t);
  }

  // ---------------------------------------------------------------- the repair as a whole

  lemma StoreKeepsOthers(f: seq<Byte>, t: Transport, w: Word16, k: nat)
    requires t.Fits(f) && k < |f| && k != t.Field() && k != t.Field() + 1
    ensures |Store(f, t, w)| == |f| && Store(f, t, w)[k] == f[k]
  {
  }

  /** Agreement on the bytes before the transport header that Parse reads. */
  predicate SameHeader(f: seq<Byte>, g: seq<Byte>) {
    && |f| == |g| && |f| >= 34
    && ReadU16(f, 12) == ReadU16(g, 12) && f[14] == g[14] && ReadU16(f, 16) == ReadU16(g, 16)
    && ReadU16(f, 20) == ReadU16(g, 20) && f[23] == g[23]
  }

  /** Parse reads nothing else before the transport header. */
  lemma ParseDependsOn(f: seq<Byte>, g: seq<Byte>, segment: nat, length: nat)
    requires SameHeader(f, g)
    requires Parse(f).Found?
    requires segment == 14 + f[14] % 16 * 4 && length == ReadU16(f, 16) - f[14] % 16 * 4
    requires segment + length <= |f|
    requires ParseTcp(f, segment, length) == ParseTcp(g, segment, length) || f[23] != TCP
    requires ParseUdp(f, segment, length) == ParseUdp(g, segment, length) || f[23] == TCP
    ensures Parse(f) == Parse(g)
  {
  }

  lemma StoreKeepsHeader(f: seq<Byte>, t: Transport, w: Word16)
    requires t.Fits(f) && t.Field() >= 34
    ensures SameHeader(f, Store(f, t, w))
  {
  }

  /** The header walk never reads the checksum field. */
  lemma ParseIgnoresField(f: seq<Byte>, w: Word16)
    requires Parse(f).Found?
    ensures Parse(Store(f, Parse(f).t, w)) == Parse(f)
  {
    var t := Parse(f).t;
    var g := Store(f, t, w);
    var segment, length := 14 + f[14] % 16 * 4, ReadU16(f, 16) - f[14] % 16 * 4;
    assert t.segment == segment;
    StoreKeepsHeader(f, t, w);
    if f[23] == TCP {
      StoreKeepsOthers(f, t, w, segment + 12);
    } else {
      StoreKeepsOthers(f, t, w, segment + 4);
      StoreKeepsOthers(f, t, w, segment + 5);
    }
    ParseDependsOn(f, g, segment, length);
  }

  lemma RepairKeepsParse(f: seq<Byte>)
    ensures Parse(Repaired(f)) == Parse(f)
  {
    if Parse(f).Found? && Rewrites(f, Parse(f).t) {
      ParseIgnoresField(f, Checksum(f, Parse(f).t));
    }
  }

  /** Completion: after the repair a frame passes the receiver's test exactly when it carried the seed
      or passed the test before. UDP frames that were repaired never carry the "no checksum" zero. */
  lemma RepairCompletes(f: seq<Byte>, t: Transport)
    requires Parse(f) == Found(t)
    ensures t.Fits(Repaired(f))
    ensures Verifies(Repaired(f), t) <==> Stored(f, t) == Seed(f, t) || Verifies(f, t)
    ensures Stored(f, t) == Seed(f, t) && t.protocol == UDP ==> Stored(Repaired(f), t) != 0
  {
    SeedMatchImpliesGuard(f, t);
    if Rewrites(f, t) {
      ChecksumCompletes(f, t);
      StoreReads(f, t, Checksum(f, t));
    }
  }

  /** The field holds what checksum offload leaves: the one's-complement sum of the pseudo-header. */
  predicate Seeded(f: seq<Byte>, t: Transport)
    requires t.Fits(f)
  {
    Stored(f, t) == OnesSum(PseudoHeader(f, t))
  }

  /** The seed is the one's-complement sum of the pseudo-header. */
  lemma SeedIsOnesSum(f: seq<Byte>, t: Transport)
    requires t.Fits(f)
    ensures Seed(f, t) == OnesSum(PseudoHeader(f, t))
  {
    OnesSumIsCanonical(PseudoHeader(f, t));
  }

  /** End to end, for every frame that carries a transport segment: the call succeeds, and afterwards the frame
      passes the receiver's test exactly if its field held the one's-complement sum of the pseudo-header, or it
      passed before; a field that held that sum is never the UDP "no checksum" zero. */
  lemma CarriedFrameRepaired(f: seq<Byte>, t: Transport)
    requires Carries(f, t)
    ensures Code(f) == 0 && t.Fits(Repaired(f))
    ensures Verifies(Repaired(f), t) <==> Seeded(f, t) || Verifies(f, t)
    ensures Seeded(f, t) && f[23] == 17 ==> Stored(Repaired(f), t) != 0
  {
    FindsWhatIsCarried(f, t);
    SeedIsOnesSum(f, t);
    RepairCompletes(f, t);
  }

  /** Transparency: only the two checksum bytes can change, and nothing on an error return. */
  lemma RepairTouchesOnlyField(f: seq<Byte>)
    ensures |Repaired(f)| == |f|
    ensures Code(f) != 0 ==> Repaired(f) == f
    ensures forall k | 0 <= k < |f| && Repaired(f)[k] != f[k] ::
              Parse(f).Found? && (k == Parse(f).t.Field() || k == Parse(f).t.Field() + 1)
  {
  }

  /** Idempotence: repairing again changes no byte and returns the same code. */
  lemma RepairIdempotent(f: seq<Byte>)
    ensures Repaired(Repaired(f)) == Repaired(f)
    ensures Code(Repaired(f)) == Code(f)
  {
    RepairKeepsParse(f);
    if Parse(f).Found? && Rewrites(f, Parse(f).t) {
      var t := Parse(f).t;
      var c := Checksum(f, t);
      StoreReads(f, t, c);
      StoreTwice(f, t, c, 0);
      StoreTwice(f, t, c, c);
      assert Checksum(Repaired(f), t) == c;
    }
  }

  /** A frame that already verified still does, and is left byte-identical with one exception: a TCP
      field holding the seed 0xFFFF becomes its other zero, 0x0000. */
  lemma RepairOfVerified(f: seq<Byte>, t: Transport)
    requires Parse(f) == Found(t) && Verifies(f, t)
    ensures t.Fits(Repaired(f)) && Verifies(Repaired(f), t)
    ensures Repaired(f) == if t.protocol == TCP && Stored(f, t) == Seed(f, t) == 0xFFFF then Store(f, t, 0) else f
  {
    RepairCompletes(f, t);
    VerifiesIff(f, t);
    SeedMatchImpliesGuard(f, t);
    ChecksumOfRest(f, t);
    if Rewrites(f, t) && Checksum(f, t) == Stored(f, t) {
      StoreTwice(f, t, 0, 0);
    }
  }

  // ---------------------------------------------------------------- the in-place code

  /** The two calls that both calculators start with. */
  method AddPseudoHeader(frame: array<Byte>, t: Transport) returns (sum: nat)
    requires t.Fits(frame[..])
    ensures sum == WordSum(PseudoHeader(frame[..], t))
  {
    PseudoHeaderSum(frame[..], t);
    sum := AddBytes(0, frame, ADDRESSES, 8);
    assert frame[..][ADDRESSES..ADDRESSES + 8] == frame[ADDRESSES..ADDRESSES + 8];
    Add32Exact(0, WordSum(frame[ADDRESSES..ADDRESSES + 8]));
    var tail := new Byte[] [0, t.protocol, t.length / 256, t.length % 256];
    assert tail[0..0 + 4] == [0, t.protocol, t.length / 256, t.length % 256];
    Add32Exact(sum, WordSum(tail[0..0 + 4]));
    sum := AddBytes(sum, tail, 0, 4);
  }

  /** calculate_transport_pseudo_header_seed_ipv4. */
  method PseudoHeaderSeed(frame: array<Byte>, t: Transport) returns (seed: Word16)
    requires t.Fits(frame[..])
    ensures seed == Seed(frame[..], t)
  {
    SumDoesNotWrap(frame[..], t);
    var sum := AddPseudoHeader(frame, t);
    var folded, _ := Fold(sum);
    seed := folded;
  }

  /** calculate_transport_checksum_ipv4. */
  method TransportChecksum(frame: array<Byte>, t: Transport) returns (checksum: Word16)
    requires t.Fits(frame[..])
    ensures checksum == ComplementOf(frame[..], t)
  {
    SumDoesNotWrap(frame[..], t);
    var sum := AddPseudoHeader(frame, t);
    assert frame[t.segment..t.segment + t.length] == Segment(frame[..], t);
    Add32Exact(sum, WordSum(Segment(frame[..], t)));
    sum := AddBytes(sum, frame, t.segment, t.length);
    checksum := Finish(sum);
    if t.protocol == UDP && checksum == 0 {
      checksum := 0xFFFF;
    }
  }

  /** write_u16_be on the checksum field. */
  method WriteField(frame: array<Byte>, t: Transport, value: Word16)
    requires t.Fits(frame[..])
    modifies frame
    ensures frame[..] == Store(old(frame[..]), t, value)
  {
    frame[t.Field()] := value / 256;
    frame[t.Field() + 1] := value % 256;
  }

  /** The IPv4 part of the header walk; `Found` carries the transport segment, not yet its header. */
  method WalkTransport(frame: array<Byte>, segment: nat, available: nat, protocol: Byte)
    returns (p: Parsed, rewrite: bool)
    requires segment + available <= frame.Length && available < 0x1_0000 && ADDRESSES + 8 <= segment
    requires protocol == TCP || protocol == UDP
    ensures p == if protocol == TCP then ParseTcp(frame[..], segment, available)
                 else ParseUdp(frame[..], segment, available)
    ensures p.Found? ==> p.t.Fits(frame[..]) && rewrite == !(protocol == UDP && Stored(frame[..], p.t) == 0)
  {
    rewrite := true;
    if protocol == TCP {
      if available < TCP_MIN_HEADER {
        return Rejected(7), rewrite;
      }
      var tcpHeader := frame[segment + 12] / 16 * 4;
      if tcpHeader < TCP_MIN_HEADER || tcpHeader > available {
        return Rejected(8), rewrite;
      }
      return Found(Transport(segment, available, TCP, TCP_CHECKSUM)), rewrite;
    }
    if available < UDP_HEADER {
      return Rejected(9), rewrite;
    }
    var udpLength := Word(frame[segment + UDP_LENGTH], frame[segment + UDP_LENGTH + 1]);
    if udpLength < UDP_HEADER || udpLength > available {
      return Rejected(10), rewrite;
    }
    if Word(frame[segment + UDP_CHECKSUM], frame[segment + UDP_CHECKSUM + 1]) == 0 {
      rewrite := false;
    }
    p := Found(Transport(segment, udpLength, UDP, UDP_CHECKSUM));
  }

  /** The header walk of fix_ipv4_checksums, check by check. */
  method Walk(frame: array<Byte>) returns (p: Parsed, rewrite: bool)
    ensures p == Parse(frame[..])
    ensures p.Found? ==> rewrite == !(p.t.protocol == UDP && Stored(frame[..], p.t) == 0)
  {
    rewrite := true;
    if frame.Length < ETHERNET_HEADER {
      return Rejected(1), rewrite;
    }
    if Word(frame[12], frame[13]) != ETHERTYPE_IPV4 {
      return Rejected(2), rewrite;
    }
    var ip, available := ETHERNET_HEADER, frame.Length - ETHERNET_HEADER;
    if available < IPV4_MIN_HEADER {
      return Rejected(3), rewrite;
    }
    if frame[ip] / 16 != 4 {
      return Rejected(4), rewrite;
    }
    var header := frame[ip] % 16 * 4;
    if header < IPV4_MIN_HEADER || header > available {
      return Rejected(5), rewrite;
    }
    var total := Word(frame[ip + 2], frame[ip + 3]);
    if total < header || total > available {
      return Rejected(6), rewrite;
    }
    var protocol := frame[ip + 9];
    if protocol != TCP && protocol != UDP {
      return Untouched, rewrite;
    }
    if Fragmented(Word(frame[ip + 6], frame[ip + 7])) {
      return Untouched, rewrite;
    }
    p, rewrite := WalkTransport(frame, ip + header, total - header, protocol);
  }

  /** The zero, sum, write sequence on the checksum field. */
  method RewriteField(frame: array<Byte>, t: Transport, stored: Word16)
    requires t.Fits(frame[..]) && stored == Stored(frame[..], t)
    modifies frame
    ensures frame[..] == Store(old(frame[..]), t, Checksum(old(frame[..]), t))
  {
    ghost var f := frame[..];
    WriteField(frame, t, 0);
    var calculated := TransportChecksum(frame, t);
    StoreTwice(f, t, 0, calculated);
    WriteField(frame, t, if stored != calculated then calculated else stored);
  }

  /** fix_ipv4_checksums. */
  method FixIpv4Checksums(frame: array<Byte>) returns (code: nat)
    modifies frame
    ensures code == Code(old(frame[..]))
    ensures frame[..] == Repaired(old(frame[..]))
    ensures forall t | Carries(old(frame[..]), t) && Seeded(old(frame[..]), t) ::
              code == 0 && t.Fits(frame[..]) && Verifies(frame[..], t)
  {
    ghost var f := frame[..];
    forall t | Carries(f, t) && Seeded(f, t)
      ensures Code(f) == 0 && t.Fits(Repaired(f)) && Verifies(Repaired(f), t)
    {
      CarriedFrameRepaired(f, t);
    }
    var p, rewrite := Walk(frame);
    if p.Rejected? {
      return p.code;
    }
    if p.Found? {
      var stored := Word(frame[p.t.Field()], frame[p.t.Field() + 1]);
      var seed := PseudoHeaderSeed(frame, p.t);
      if rewrite && stored == seed {
        RewriteField(frame, p.t, stored);
      }
    }
    code := 0;
  }
}
