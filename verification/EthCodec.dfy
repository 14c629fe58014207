/** The format in which minres/ethmac.cpp hands received frames to the CPU, and the decoder that a driver
    needs for it: bit length, optional alignment bytes, payload, frame check sequence, padding. */
module EthCodec {
  import opened Crc
  import opened Octets

  /** The message of the CRC loop. */
  function ToBits(bs: seq<Byte>): (bits: seq<bv8>)
    ensures |bits| == |bs|
  {
    seq(|bs|, k requires 0 <= k < |bs| => bs[k] as bv8)
  }

  function FromBits(bits: seq<bv8>): (bs: seq<Byte>)
    ensures |bs| == |bits|
  {
    seq(|bits|, k requires 0 <= k < |bits| => bits[k] as int)
  }

  lemma ByteRoundTrip(b: bv8)
    ensures 0 <= b as int < 256 && (b as int) as bv8 == b
  {
  }

  lemma BitsRoundTrip(bits: seq<bv8>)
    ensures ToBits(FromBits(bits)) == bits
  {
    forall k | 0 <= k < |bits| ensures ToBits(FromBits(bits))[k] == bits[k] {
      ByteRoundTrip(bits[k]);
    }
  }

  /** The frame check sequence of a payload. */
  function CheckBytes(p: seq<Byte>): (fcs: seq<Byte>)
    ensures |fcs| == 4
  {
    FromBits(Fcs(ToBits(p)))
  }

  /** The residue test of a receiver, on payload and check sequence together. */
  predicate Checks(data: seq<Byte>) {
    Register(ALL_ONES, ToBits(data)) == RESIDUE
  }

  lemma CheckBytesCheck(p: seq<Byte>)
    ensures Checks(p + CheckBytes(p))
  {
    Residue(ToBits(p));
    BitsRoundTrip(Fcs(ToBits(p)));
    assert ToBits(p + CheckBytes(p)) == ToBits(p) + Fcs(ToBits(p));
  }

  // ---------------------------------------------------------------- one frame

  function Zeros(n: nat): seq<Byte> {
    seq(n, _ => 0)
  }

  function Skip(aligned: bool): nat {
    if aligned then 2 else 0
  }

  /** Alignment bytes, payload and frame check sequence. */
  function Size(n: nat, aligned: bool): nat {
    Skip(aligned) + n + 4
  }

  function Padding(size: nat): nat {
    (4 - size % 4) % 4
  }

  lemma PaddingCompletes(size: nat)
    ensures (size + Padding(size)) % 4 == 0 && Padding(size) < 4
  {
  }

  /** Bytes a frame of `n` bytes takes in the receive buffer: always whole words. */
  function Total(n: nat, aligned: bool): (total: nat)
    ensures total % 4 == 0
  {
    PaddingCompletes(Size(n, aligned));
    4 + Size(n, aligned) + Padding(Size(n, aligned))
  }

  /** What one received frame adds to the receive buffer. */
  function Encoding(p: seq<Byte>, aligned: bool): (e: seq<Byte>)
    ensures |e| == Total(|p|, aligned)
  {
    var size := Size(|p|, aligned);
    Bytes(8 * size, 4) + Zeros(Skip(aligned)) + p + CheckBytes(p) + Zeros(Padding(size))
  }

  /** Frames whose bit length fits its 32-bit word. */
  predicate Encodable(p: seq<Byte>) {
    8 * Size(|p|, true) < 0x1_0000_0000
  }

  lemma EncodingStarts(p: seq<Byte>, aligned: bool)
    ensures Encoding(p, aligned)[..4] == Bytes(8 * Size(|p|, aligned), 4)
  {
  }

  lemma EncodingParts(p: seq<Byte>, aligned: bool, rest: seq<Byte>)
    ensures var stream, size, skip := Encoding(p, aligned) + rest, Size(|p|, aligned), Skip(aligned);
            && |stream| == 4 + size + Padding(size) + |rest|
            && stream[..4] == Bytes(8 * size, 4)
            && stream[4 + skip..size] == p
            && stream[4 + skip..4 + size] == p + CheckBytes(p)
            && stream[4 + size + Padding(size)..] == rest
  {
    var size, skip := Size(|p|, aligned), Skip(aligned);
    var head, fcs, tail := Bytes(8 * size, 4) + Zeros(skip), CheckBytes(p), Zeros(Padding(size));
    EncodingStarts(p, aligned);
    Middle(head, p, fcs, tail, Encoding(p, aligned));
    Extended(Encoding(p, aligned), rest, 4 + skip, size, 4 + size);
  }

  lemma Middle(a: seq<Byte>, b: seq<Byte>, c: seq<Byte>, d: seq<Byte>, s: seq<Byte>)
    requires s == a + b + c + d
    ensures s[|a|..|a| + |b|] == b && s[|a|..|a| + |b| + |c|] == b + c
  {
  }

  /** What follows a sequence does not change its slices. */
  lemma Extended(e: seq<Byte>, rest: seq<Byte>, from: nat, mid: nat, to: nat)
    requires 4 <= from <= mid <= to <= |e|
    ensures (e + rest)[..4] == e[..4] && (e + rest)[from..mid] == e[from..mid] && (e + rest)[from..to] == e[from..to]
    ensures (e + rest)[|e|..] == rest
  {
  }

  // ---------------------------------------------------------------- the decoder

  datatype Frame = Frame(payload: seq<Byte>, intact: bool)

  /** The frame at the front of the stream, of the size that its length word gives. */
  function Front(stream: seq<Byte>, size: nat, aligned: bool): Frame
    requires Skip(aligned) + 4 <= size && 4 + size <= |stream|
  {
    Frame(stream[4 + Skip(aligned)..size], Checks(stream[4 + Skip(aligned)..4 + size]))
  }

  /** Takes frames off a byte stream, guided by nothing but each leading length word, and checks each
      with the residue test; a frame that is not complete yet stays in the stream. */
  function Decode(stream: seq<Byte>, aligned: bool): seq<Frame>
    decreases |stream|, 1
  {
    if |stream| < 4 then [] else DecodeSized(stream, Value(stream[..4]) / 8, aligned)
  }

  function DecodeSized(stream: seq<Byte>, size: nat, aligned: bool): seq<Frame>
    requires |stream| >= 4
    decreases |stream|, 0
  {
    var total := 4 + size + Padding(size);
    if |stream| < total || size < Skip(aligned) + 4 then []
    else [Front(stream, size, aligned)] + Decode(stream[total..], aligned)
  }

  lemma LengthWord(size: nat)
    requires 8 * size < 0x1_0000_0000
    ensures Value(Bytes(8 * size, 4)) / 8 == size
  {
    RadixOfWord();
    ValueOfBytes(8 * size, 4);
  }

  lemma SizedFront(stream: seq<Byte>, size: nat, rest: seq<Byte>, aligned: bool)
    requires 4 + size + Padding(size) <= |stream| && Skip(aligned) + 4 <= size
    requires rest == stream[4 + size + Padding(size)..]
    ensures DecodeSized(stream, size, aligned) == [Front(stream, size, aligned)] + Decode(rest, aligned)
  {
  }

  lemma SizedPart(stream: seq<Byte>, size: nat, aligned: bool)
    requires 4 <= |stream| < 4 + size + Padding(size)
    ensures DecodeSized(stream, size, aligned) == []
  {
  }

  lemma DecodeBySize(stream: seq<Byte>, size: nat, aligned: bool)
    requires |stream| >= 4 && Value(stream[..4]) / 8 == size
    ensures Decode(stream, aligned) == DecodeSized(stream, size, aligned)
  {
  }

  /** The decoder believes the length word, whatever follows it: it takes as many bytes as that announces. */
  lemma DecodeAnnounced(stream: seq<Byte>, size: nat, total: nat, rest: seq<Byte>, aligned: bool)
    requires |stream| >= 4 && 8 * size < 0x1_0000_0000 && stream[..4] == Bytes(8 * size, 4)
    requires total == 4 + size + Padding(size) && Skip(aligned) + 4 <= size
    requires |stream| >= total ==> rest == stream[total..]
    ensures Decode(stream, aligned) ==
            if |stream| < total then [] else [Front(stream, size, aligned)] + Decode(rest, aligned)
  {
    LengthWord(size);
    DecodeBySize(stream, size, aligned);
    if |stream| < total {
      SizedPart(stream, size, aligned);
    } else {
      SizedFront(stream, size, rest, aligned);
    }
  }

  lemma DecodeWhole(p: seq<Byte>, aligned: bool, rest: seq<Byte>)
    requires Encodable(p)
    ensures Decode(Encoding(p, aligned) + rest, aligned) == [Frame(p, true)] + Decode(rest, aligned)
  {
    EncodingParts(p, aligned, rest);
    LengthWord(Size(|p|, aligned));
    CheckBytesCheck(p);
  }

  lemma DecodePartial(p: seq<Byte>, aligned: bool, part: seq<Byte>)
    requires Encodable(p) && part < Encoding(p, aligned)
    ensures Decode(part, aligned) == []
  {
    if |part| >= 4 {
      EncodingParts(p, aligned, []);
      LengthWord(Size(|p|, aligned));
      assert Encoding(p, aligned) + [] == Encoding(p, aligned);
      assert part[..4] == Encoding(p, aligned)[..4];
    }
  }

  // ---------------------------------------------------------------- sequences of frames

  /** Their bytes in the receive buffer. */
  function TotalOf(ps: seq<seq<Byte>>, aligned: bool): nat {
    if ps == [] then 0 else Total(|ps[0]|, aligned) + TotalOf(ps[1..], aligned)
  }

  function Encodings(ps: seq<seq<Byte>>, aligned: bool): (stream: seq<Byte>)
    ensures |stream| == TotalOf(ps, aligned)
  {
    if ps == [] then [] else Encoding(ps[0], aligned) + Encodings(ps[1..], aligned)
  }

  function Intact(ps: seq<seq<Byte>>): seq<Frame> {
    seq(|ps|, k requires 0 <= k < |ps| => Frame(ps[k], true))
  }

  predicate AllEncodable(ps: seq<seq<Byte>>) {
    forall k | 0 <= k < |ps| :: Encodable(ps[k])
  }

  /** The number of frames whose encodings lie within the first `n` bytes. */
  function Complete(ps: seq<seq<Byte>>, aligned: bool, n: nat): (count: nat)
    ensures count <= |ps|
  {
    if ps == [] || n < Total(|ps[0]|, aligned) then 0
    else 1 + Complete(ps[1..], aligned, n - Total(|ps[0]|, aligned))
  }

  lemma {:induction false} EncodingsSnoc(ps: seq<seq<Byte>>, p: seq<Byte>, aligned: bool)
    ensures Encodings(ps + [p], aligned) == Encodings(ps, aligned) + Encoding(p, aligned)
  {
    if ps == [] {
      assert [p][1..] == [];
    } else {
      assert (ps + [p])[1..] == ps[1..] + [p];
      EncodingsSnoc(ps[1..], p, aligned);
    }
  }

  lemma PrefixTail(a: seq<Byte>, b: seq<Byte>, s: seq<Byte>)
    requires s <= a + b
    ensures |s| < |a| ==> s < a
    ensures |a| <= |s| ==> a <= s && s[|a|..] <= b
  {
    assert s == (a + b)[..|s|];
    if |a| <= |s| {
      assert s[|a|..] == b[..|s| - |a|];
    }
  }

  lemma FirstFrame(ps: seq<seq<Byte>>, aligned: bool, stream: seq<Byte>)
    requires ps != [] && stream <= Encodings(ps, aligned)
    ensures var n := Total(|ps[0]|, aligned);
            if |stream| < n then stream < Encoding(ps[0], aligned)
            else stream == Encoding(ps[0], aligned) + stream[n..] && stream[n..] <= Encodings(ps[1..], aligned)
  {
    PrefixTail(Encoding(ps[0], aligned), Encodings(ps[1..], aligned), stream);
  }

  lemma IntactCons(ps: seq<seq<Byte>>, m: nat)
    requires m < |ps|
    ensures Intact(ps[..m + 1]) == [Frame(ps[0], true)] + Intact(ps[1..][..m])
  {
  }

  /** The steps of the proof below: a part of the first frame, or the whole of it in front of what the
      rest decodes to. */
  lemma FirstIncomplete(ps: seq<seq<Byte>>, aligned: bool, stream: seq<Byte>)
    requires ps != [] && Encodable(ps[0]) && stream < Encoding(ps[0], aligned)
    ensures Decode(stream, aligned) == Intact(ps[..Complete(ps, aligned, |stream|)])
  {
    DecodePartial(ps[0], aligned, stream);
  }

  lemma FirstWhole(ps: seq<seq<Byte>>, aligned: bool, rest: seq<Byte>, count: nat)
    requires ps != [] && Encodable(ps[0]) && count <= |ps| - 1 && Decode(rest, aligned) == Intact(ps[1..][..count])
    ensures Decode(Encoding(ps[0], aligned) + rest, aligned) == Intact(ps[..count + 1])
  {
    DecodeWhole(ps[0], aligned, rest);
    IntactCons(ps, count);
  }

  lemma DecodeFirst(ps: seq<seq<Byte>>, aligned: bool, stream: seq<Byte>, n: nat)
    requires ps != [] && Encodable(ps[0]) && stream <= Encodings(ps, aligned) && n == Total(|ps[0]|, aligned)
    requires |stream| >= n ==>
               Decode(stream[n..], aligned) == Intact(ps[1..][..Complete(ps[1..], aligned, |stream| - n)])
    ensures Decode(stream, aligned) == Intact(ps[..Complete(ps, aligned, |stream|)])
  {
    FirstFrame(ps, aligned, stream);
    if |stream| < n {
      FirstIncomplete(ps, aligned, stream);
    } else {
      FirstWhole(ps, aligned, stream[n..], Complete(ps[1..], aligned, |stream| - n));
    }
  }

  /** However far the stream has got, the decoder yields exactly the frames that lie wholly inside. */
  lemma {:induction false} DecodePrefix(ps: seq<seq<Byte>>, aligned: bool, stream: seq<Byte>)
    requires AllEncodable(ps) && stream <= Encodings(ps, aligned)
    ensures Decode(stream, aligned) == Intact(ps[..Complete(ps, aligned, |stream|)])
  {
    if ps == [] {
      assert stream == [];
    } else {
      var n := Total(|ps[0]|, aligned);
      if |stream| >= n {
        FirstFrame(ps, aligned, stream);
        DecodePrefix(ps[1..], aligned, stream[n..]);
      }
      DecodeFirst(ps, aligned, stream, n);
    }
  }

  lemma {:induction false} AllComplete(ps: seq<seq<Byte>>, aligned: bool)
    ensures Complete(ps, aligned, TotalOf(ps, aligned)) == |ps|
  {
    if ps != [] {
      AllComplete(ps[1..], aligned);
    }
  }

  lemma IntactTail(ps: seq<seq<Byte>>, f: Frame, frames: seq<Frame>)
    requires ps != [] && Intact(ps) == [f] + frames
    ensures f.payload == ps[0] && frames == Intact(ps[1..])
  {
    assert Intact(ps)[0] == f && Intact(ps)[1..] == frames;
    assert Intact(ps)[1..] == Intact(ps[1..]);
  }

  /** Nothing is decoded out of thin air: a stream that decodes to some frames is at least as long as
      their encodings, whatever it consists of. */
  lemma {:induction false} DecodedWasStored(ps: seq<seq<Byte>>, aligned: bool, stream: seq<Byte>)
    requires Decode(stream, aligned) == Intact(ps)
    ensures TotalOf(ps, aligned) <= |stream|
  {
    if ps != [] {
      var size := Value(stream[..4]) / 8;
      var rest := stream[4 + size + Padding(size)..];
      IntactTail(ps, Front(stream, size, aligned), Decode(rest, aligned));
      assert size == Size(|ps[0]|, aligned);
      DecodedWasStored(ps[1..], aligned, rest);
    }
  }

  /** A last frame that is not complete does not count. */
  lemma {:induction false} CompleteSnoc(ps: seq<seq<Byte>>, p: seq<Byte>, aligned: bool, n: nat)
    requires TotalOf(ps, aligned) <= n < TotalOf(ps, aligned) + Total(|p|, aligned)
    ensures Complete(ps + [p], aligned, n) == |ps|
  {
    if ps == [] {
    } else {
      assert (ps + [p])[1..] == ps[1..] + [p];
      CompleteSnoc(ps[1..], p, aligned, n - Total(|ps[0]|, aligned));
    }
  }

  /** Round trip: the decoder recovers exactly the frames that were encoded. */
  lemma DecodeEncodings(ps: seq<seq<Byte>>, aligned: bool)
    requires AllEncodable(ps)
    ensures Decode(Encodings(ps, aligned), aligned) == Intact(ps)
  {
    AllComplete(ps, aligned);
    DecodePrefix(ps, aligned, Encodings(ps, aligned));
    assert ps[..|ps|] == ps;
  }
}
