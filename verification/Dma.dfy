/** Channel 0 of the DMA controller of minres/dma.cpp: a loop over segments, each read into a buffer in
    one bus transaction and written out in another, with a stride added to both addresses. */
module Dma {

  const TWO32 := 0x1_0000_0000

  /** Memory and addresses after some segments; `ok` is false once a bus transaction has failed. */
  datatype Progress = Progress(memory: seq<bv8>, src: Address, dst: Address, ok: bool)

  type Address = a: int | 0 <= a < TWO32

  /** The transfer registers: `bytes` per segment, address strides. */
  datatype Setup = Setup(bytes: nat, srcStride: Address, dstStride: Address)

  /** uint32_t addition. */
  function Advance(address: Address, stride: Address): Address {
    if address + stride < TWO32 then address + stride else address + stride - TWO32
  }

  predicate InMemory(memory: seq<bv8>, address: nat, bytes: nat) {
    address + bytes <= |memory|
  }

  function Read(memory: seq<bv8>, address: nat, bytes: nat): seq<bv8>
    requires InMemory(memory, address, bytes)
  {
    memory[address..address + bytes]
  }

  function Write(memory: seq<bv8>, address: nat, data: seq<bv8>): (memory': seq<bv8>)
    requires InMemory(memory, address, |data|)
    ensures |memory'| == |memory|
  {
    memory[..address] + data + memory[address + |data|..]
  }

  /** One iteration of the segment loop. */
  function Segment(p: Progress, u: Setup): (p': Progress)
    ensures |p'.memory| == |p.memory|
  {
    if !p.ok || !InMemory(p.memory, p.src, u.bytes) || !InMemory(p.memory, p.dst, u.bytes) then p.(ok := false)
    else Progress(Write(p.memory, p.dst, Read(p.memory, p.src, u.bytes)),
                  Advance(p.src, u.srcStride), Advance(p.dst, u.dstStride), true)
  }

  function Segments(p: Progress, u: Setup, count: nat): (p': Progress)
    ensures |p'.memory| == |p.memory|
  {
    if count == 0 then p else Segment(Segments(p, u, count - 1), u)
  }

  // ---------------------------------------------------------------- the strided copy

  /** The address of segment `k`: base + k * stride. */
  function At(base: nat, stride: nat, k: nat): nat {
    if k == 0 then base else At(base, stride, k - 1) + stride
  }

  lemma {:induction false} AtIsProduct(base: nat, stride: nat, k: nat)
    ensures At(base, stride, k) == base + k * stride
  {
    if k > 0 {
      AtIsProduct(base, stride, k - 1);
    }
  }

  lemma {:induction false} AtAscends(base: nat, stride: nat, j: nat, k: nat)
    requires j <= k
    ensures At(base, stride, j) <= At(base, stride, k)
    ensures j < k ==> At(base, stride, j) + stride <= At(base, stride, k)
  {
    if j < k {
      AtAscends(base, stride, j, k - 1);
    }
  }

  predicate Apart(a: nat, b: nat, bytes: nat) {
    a + bytes <= b || b + bytes <= a
  }

  /** Every segment lies in the memory, at a 32-bit address. */
  ghost predicate SegmentsInMemory(memory: seq<bv8>, base: nat, stride: nat, bytes: nat, count: nat) {
    forall k: nat | k < count :: At(base, stride, k) < TWO32 && InMemory(memory, At(base, stride, k), bytes)
  }

  /** No segment at `later` meets an earlier segment at `earlier`. */
  ghost predicate SegmentsApart(
      earlier: nat, earlierStride: nat, later: nat, laterStride: nat, bytes: nat, count: nat)
  {
    forall j: nat, k: nat | j < k < count :: Apart(At(earlier, earlierStride, j), At(later, laterStride, k), bytes)
  }

  /** All segments lie in memory, no segment is written twice, and none is read after an earlier segment
      was written over it. */
  ghost predicate CopiesCleanly(memory: seq<bv8>, src: nat, dst: nat, u: Setup, count: nat) {
    && SegmentsInMemory(memory, src, u.srcStride, u.bytes, count)
    && SegmentsInMemory(memory, dst, u.dstStride, u.bytes, count)
    && SegmentsApart(dst, u.dstStride, dst, u.dstStride, u.bytes, count)
    && SegmentsApart(dst, u.dstStride, src, u.srcStride, u.bytes, count)
  }

  ghost predicate InSegments(a: nat, base: nat, stride: nat, bytes: nat, count: nat) {
    exists k: nat :: k < count && At(base, stride, k) <= a < At(base, stride, k) + bytes
  }

  lemma ModuloAdds(x: nat, y: nat)
    ensures (x % TWO32 + y) % TWO32 == (x + y) % TWO32
  {
    assert x == TWO32 * (x / TWO32) + x % TWO32;
  }

  /** One more stride in 32 bits is one more stride. */
  lemma AdvanceWraps(base: nat, stride: Address, k: nat, address: Address)
    requires address == At(base, stride, k) % TWO32
    ensures Advance(address, stride) == At(base, stride, k + 1) % TWO32
  {
    ModuloAdds(At(base, stride, k), stride);
  }

  lemma SegmentAdvances(p: Progress, u: Setup)
    requires Segment(p, u).ok
    ensures p.ok && Segment(p, u).src == Advance(p.src, u.srcStride) && Segment(p, u).dst == Advance(p.dst, u.dstStride)
  {
  }

  lemma {:induction false} SourceWraps(p: Progress, u: Setup, count: nat)
    requires Segments(p, u, count).ok
    ensures Segments(p, u, count).src == At(p.src, u.srcStride, count) % TWO32
  {
    if count > 0 {
      SegmentAdvances(Segments(p, u, count - 1), u);
      SourceWraps(p, u, count - 1);
      AdvanceWraps(p.src, u.srcStride, count - 1, Segments(p, u, count - 1).src);
    }
  }

  lemma {:induction false} DestinationWraps(p: Progress, u: Setup, count: nat)
    requires Segments(p, u, count).ok
    ensures Segments(p, u, count).dst == At(p.dst, u.dstStride, count) % TWO32
  {
    if count > 0 {
      SegmentAdvances(Segments(p, u, count - 1), u);
      DestinationWraps(p, u, count - 1);
      AdvanceWraps(p.dst, u.dstStride, count - 1, Segments(p, u, count - 1).dst);
    }
  }

  lemma AddressesAt(p: Progress, u: Setup, count: nat)
    requires Segments(p, u, count).ok
    ensures At(p.src, u.srcStride, count) < TWO32 ==> Segments(p, u, count).src == At(p.src, u.srcStride, count)
    ensures At(p.dst, u.dstStride, count) < TWO32 ==> Segments(p, u, count).dst == At(p.dst, u.dstStride, count)
  {
    SourceWraps(p, u, count);
    DestinationWraps(p, u, count);
  }

  /** The addresses advance by the stride once per completed segment, in 32-bit arithmetic. */
  lemma AddressesAdvance(p: Progress, u: Setup, count: nat)
    requires Segments(p, u, count).ok
    ensures Segments(p, u, count).src == (p.src + count * u.srcStride) % TWO32
    ensures Segments(p, u, count).dst == (p.dst + count * u.dstStride) % TWO32
  {
    AtIsProduct(p.src, u.srcStride, count);
    AtIsProduct(p.dst, u.dstStride, count);
    SourceWraps(p, u, count);
    DestinationWraps(p, u, count);
  }

  lemma ReadWritten(memory: seq<bv8>, address: nat, data: seq<bv8>)
    requires InMemory(memory, address, |data|)
    ensures Read(Write(memory, address, data), address, |data|) == data
  {
  }

  lemma ReadElsewhere(memory: seq<bv8>, address: nat, data: seq<bv8>, other: nat)
    requires InMemory(memory, address, |data|) && InMemory(memory, other, |data|) && Apart(address, other, |data|)
    ensures Read(Write(memory, address, data), other, |data|) == Read(memory, other, |data|)
  {
  }

  /** Every destination segment holds what its source segment held at the start. */
  ghost predicate Copied(p: Progress, memory: seq<bv8>, u: Setup, count: nat)
    requires |memory| == |p.memory| && CopiesCleanly(p.memory, p.src, p.dst, u, count)
  {
    forall k: nat | k < count ::
      Read(memory, At(p.dst, u.dstStride, k), u.bytes) == Read(p.memory, At(p.src, u.srcStride, k), u.bytes)
  }

  /** Bytes outside the destination segments keep their value. */
  ghost predicate ElsewhereKept(p: Progress, memory: seq<bv8>, u: Setup, count: nat)
    requires |memory| == |p.memory|
  {
    forall a: nat | a < |memory| && !InSegments(a, p.dst, u.dstStride, u.bytes, count) :: memory[a] == p.memory[a]
  }

  /** Segment by segment: every destination segment receives the original bytes of its source segment, and
      every byte outside the destination segments keeps its value. */
  lemma {:induction false} SegmentsCopied(p: Progress, u: Setup, count: nat)
    requires p.ok && CopiesCleanly(p.memory, p.src, p.dst, u, count)
    ensures Segments(p, u, count).ok
    ensures Copied(p, Segments(p, u, count).memory, u, count)
    ensures ElsewhereKept(p, Segments(p, u, count).memory, u, count)
  {
    if count > 0 {
      var m := count - 1;
      SegmentsCopied(p, u, m);
      AddressesAt(p, u, m);
      var memory := Segments(p, u, m).memory;
      var data := Read(p.memory, At(p.src, u.srcStride, m), u.bytes);
      SourceIntact(p, memory, u, m);
      OneMoreCopied(p, memory, u, m, data);
      OneMoreKept(p, memory, u, m, data);
    }
  }

  lemma ByteOfRead(memory: seq<bv8>, to: nat, original: seq<bv8>, from: nat, bytes: nat, i: nat)
    requires InMemory(memory, to, bytes) && InMemory(original, from, bytes) && i < bytes
    requires Read(memory, to, bytes) == Read(original, from, bytes)
    ensures memory[to + i] == original[from + i]
  {
    assert memory[to + i] == Read(memory, to, bytes)[i];
    assert original[from + i] == Read(original, from, bytes)[i];
  }

  lemma CopiedByte(p: Progress, memory: seq<bv8>, u: Setup, count: nat, k: nat, i: nat, from: nat, to: nat)
    requires |memory| == |p.memory| && CopiesCleanly(p.memory, p.src, p.dst, u, count) && Copied(p, memory, u, count)
    requires k < count && i < u.bytes
    requires from == At(p.src, u.srcStride, k) + i && to == At(p.dst, u.dstStride, k) + i
    ensures from < |p.memory| && to < |memory| && memory[to] == p.memory[from]
  {
    ByteOfRead(memory, At(p.dst, u.dstStride, k), p.memory, At(p.src, u.srcStride, k), u.bytes, i);
  }

  /** The loop is a strided gather and scatter: byte i of destination segment k ends up with the original
      byte i of source segment k, and bytes outside the destination segments keep their value. */
  lemma StridedCopy(p: Progress, u: Setup, count: nat, k: nat, i: nat, from: nat, to: nat)
    requires p.ok && CopiesCleanly(p.memory, p.src, p.dst, u, count) && k < count && i < u.bytes
    requires from == p.src + k * u.srcStride + i && to == p.dst + k * u.dstStride + i
    ensures Segments(p, u, count).ok
    ensures from < |p.memory| && to < |p.memory| && Segments(p, u, count).memory[to] == p.memory[from]
    ensures ElsewhereKept(p, Segments(p, u, count).memory, u, count)
  {
    AtIsProduct(p.src, u.srcStride, k);
    AtIsProduct(p.dst, u.dstStride, k);
    SegmentsCopied(p, u, count);
    CopiedByte(p, Segments(p, u, count).memory, u, count, k, i, from, to);
  }

  /** Byte `i` of segment `k`. */
  function Place(base: nat, stride: nat, k: nat, i: nat): nat {
    base + k * stride + i
  }

  /** Every byte of every segment has been moved to its place, and no other byte has changed. */
  ghost predicate Moved(before: seq<bv8>, after: seq<bv8>, src: nat, srcStride: nat, dst: nat, dstStride: nat,
                        bytes: nat, count: nat)
    requires |after| == |before|
  {
    && (forall k: nat, i: nat | k < count && i < bytes ::
          && Place(src, srcStride, k, i) < |before| && Place(dst, dstStride, k, i) < |after|
          && after[Place(dst, dstStride, k, i)] == before[Place(src, srcStride, k, i)])
    && (forall a: nat | a < |before| && after[a] != before[a] ::
          exists k: nat, i: nat :: k < count && i < bytes && a == Place(dst, dstStride, k, i))
  }

  lemma InPlace(a: nat, base: nat, stride: nat, bytes: nat, count: nat)
    requires InSegments(a, base, stride, bytes, count)
    ensures exists k: nat, i: nat :: k < count && i < bytes && a == Place(base, stride, k, i)
  {
    var k: nat :| k < count && At(base, stride, k) <= a < At(base, stride, k) + bytes;
    AtIsProduct(base, stride, k);
    assert a == Place(base, stride, k, a - At(base, stride, k));
  }

  lemma SegmentsMove(p: Progress, u: Setup, count: nat)
    requires p.ok && CopiesCleanly(p.memory, p.src, p.dst, u, count)
    ensures Segments(p, u, count).ok
    ensures Moved(p.memory, Segments(p, u, count).memory, p.src, u.srcStride, p.dst, u.dstStride, u.bytes, count)
  {
    var memory := Segments(p, u, count).memory;
    SegmentsCopied(p, u, count);
    forall k: nat, i: nat | k < count && i < u.bytes
      ensures Place(p.src, u.srcStride, k, i) < |p.memory| && Place(p.dst, u.dstStride, k, i) < |memory|
      ensures memory[Place(p.dst, u.dstStride, k, i)] == p.memory[Place(p.src, u.srcStride, k, i)]
    {
      StridedCopy(p, u, count, k, i, Place(p.src, u.srcStride, k, i), Place(p.dst, u.dstStride, k, i));
    }
    forall a: nat | a < |memory| && memory[a] != p.memory[a]
      ensures exists k: nat, i: nat :: k < count && i < u.bytes && a == Place(p.dst, u.dstStride, k, i)
    {
      InPlace(a, p.dst, u.dstStride, u.bytes, count);
    }
  }

  /** The source of segment `m` lies in no earlier destination segment. */
  lemma SourceIntact(p: Progress, memory: seq<bv8>, u: Setup, m: nat)
    requires |memory| == |p.memory| && CopiesCleanly(p.memory, p.src, p.dst, u, m + 1)
    requires ElsewhereKept(p, memory, u, m)
    ensures Read(memory, At(p.src, u.srcStride, m), u.bytes) == Read(p.memory, At(p.src, u.srcStride, m), u.bytes)
  {
    var s := At(p.src, u.srcStride, m);
    forall a: nat | s <= a < s + u.bytes ensures memory[a] == p.memory[a] {
      assert forall k: nat | k < m :: Apart(At(p.dst, u.dstStride, k), s, u.bytes);
    }
  }

  lemma OneMoreCopied(p: Progress, memory: seq<bv8>, u: Setup, m: nat, data: seq<bv8>)
    requires |memory| == |p.memory| && CopiesCleanly(p.memory, p.src, p.dst, u, m + 1) && Copied(p, memory, u, m)
    requires data == Read(p.memory, At(p.src, u.srcStride, m), u.bytes)
    ensures Copied(p, Write(memory, At(p.dst, u.dstStride, m), data), u, m + 1)
  {
    var d := At(p.dst, u.dstStride, m);
    forall k: nat | k < m + 1
      ensures Read(Write(memory, d, data), At(p.dst, u.dstStride, k), u.bytes)
           == Read(p.memory, At(p.src, u.srcStride, k), u.bytes) {
      if k == m {
        ReadWritten(memory, d, data);
      } else {
        assert Apart(At(p.dst, u.dstStride, k), d, u.bytes);
        ReadElsewhere(memory, d, data, At(p.dst, u.dstStride, k));
      }
    }
  }

  lemma OneMoreKept(p: Progress, memory: seq<bv8>, u: Setup, m: nat, data: seq<bv8>)
    requires |memory| == |p.memory| && |data| == u.bytes && InMemory(memory, At(p.dst, u.dstStride, m), u.bytes)
    requires ElsewhereKept(p, memory, u, m)
    ensures ElsewhereKept(p, Write(memory, At(p.dst, u.dstStride, m), data), u, m + 1)
  {
    var d := At(p.dst, u.dstStride, m);
    forall a: nat | a < |memory| && !InSegments(a, p.dst, u.dstStride, u.bytes, m + 1)
      ensures Write(memory, d, data)[a] == p.memory[a] {
      assert !(d <= a < d + u.bytes);
      assert !InSegments(a, p.dst, u.dstStride, u.bytes, m);
    }
  }

  /** A condition on the registers alone: footprints in a 32-bit memory and disjoint, destination stride
      at least a segment. */
  lemma DisjointFootprintsCopyCleanly(memory: seq<bv8>, src: Address, dst: Address, u: Setup, count: nat)
    requires |memory| <= TWO32 && count > 0 && u.bytes > 0 && (u.dstStride >= u.bytes || count == 1)
    requires At(src, u.srcStride, count - 1) + u.bytes <= |memory|
    requires At(dst, u.dstStride, count - 1) + u.bytes <= |memory|
    requires At(src, u.srcStride, count - 1) + u.bytes <= dst || At(dst, u.dstStride, count - 1) + u.bytes <= src
    ensures CopiesCleanly(memory, src, dst, u, count)
  {
    FootprintInMemory(memory, src, u.srcStride, u.bytes, count);
    FootprintInMemory(memory, dst, u.dstStride, u.bytes, count);
    WideStrideApart(dst, u.dstStride, u.bytes, count);
    FootprintsApart(dst, u.dstStride, src, u.srcStride, u.bytes, count);
  }

  lemma FootprintInMemory(memory: seq<bv8>, base: nat, stride: nat, bytes: nat, count: nat)
    requires |memory| <= TWO32 && count > 0 && bytes > 0 && At(base, stride, count - 1) + bytes <= |memory|
    ensures SegmentsInMemory(memory, base, stride, bytes, count)
  {
    FootprintBounds(base, stride, count);
  }

  lemma WideStrideApart(base: nat, stride: nat, bytes: nat, count: nat)
    requires stride >= bytes || count == 1
    ensures SegmentsApart(base, stride, base, stride, bytes, count)
  {
    forall j: nat, k: nat | j < k < count ensures Apart(At(base, stride, j), At(base, stride, k), bytes) {
      AtAscends(base, stride, j, k);
    }
  }

  lemma FootprintsApart(a: nat, aStride: nat, b: nat, bStride: nat, bytes: nat, count: nat)
    requires count > 0
    requires At(a, aStride, count - 1) + bytes <= b || At(b, bStride, count - 1) + bytes <= a
    ensures SegmentsApart(a, aStride, b, bStride, bytes, count)
  {
    FootprintBounds(a, aStride, count);
    FootprintBounds(b, bStride, count);
  }

  lemma FootprintBounds(base: nat, stride: nat, count: nat)
    requires count > 0
    ensures forall k: nat | k < count :: base <= At(base, stride, k) <= At(base, stride, count - 1)
  {
    forall k: nat | k < count ensures base <= At(base, stride, k) <= At(base, stride, count - 1) {
      AtAscends(base, stride, 0, k);
      AtAscends(base, stride, k, count - 1);
    }
  }

  // ---------------------------------------------------------------- the module

  /** seg_length * (1 << width), for the two-bit width field. */
  function BufferSize(segLength: nat, width: nat): nat
    requires width < 4
  {
    if width == 0 then segLength
    else if width == 1 then 2 * segLength
    else if width == 2 then 4 * segLength
    else 8 * segLength
  }

  function PowerOfTwo(n: nat): nat {
    if n == 0 then 1 else 2 * PowerOfTwo(n - 1)
  }

  /** One byte at width 0, and twice as many for each step of the width. */
  lemma SegmentBytes(segLength: nat, width: nat)
    requires width < 4
    ensures BufferSize(segLength, width) == segLength * PowerOfTwo(width)
  {
    assert PowerOfTwo(1) == 2 && PowerOfTwo(2) == 4 && PowerOfTwo(3) == 8;
  }

  /** A transfer that leaves `after` and ends with `ok` does what its registers say: segment by segment,
      segLength times two to the power of width bytes each. */
  ghost predicate Obeys(before: seq<bv8>, after: seq<bv8>, ok: bool, segLength: nat, width: nat,
                        src: Address, srcStride: Address, dst: Address, dstStride: Address, count: nat)
    requires |after| == |before|
  {
    var bytes := segLength * PowerOfTwo(width);
    CopiesCleanly(before, src, dst, Setup(bytes, srcStride, dstStride), count) ==>
      ok && Moved(before, after, src, srcStride, dst, dstStride, bytes, count)
  }

  lemma TransferObeys(p: Progress, segLength: nat, width: nat, srcStride: Address, dstStride: Address, count: nat)
    requires p.ok && width < 4
    ensures var q := Segments(p, Setup(BufferSize(segLength, width), srcStride, dstStride), count);
            Obeys(p.memory, q.memory, q.ok, segLength, width, p.src, srcStride, p.dst, dstStride, count)
  {
    var u := Setup(BufferSize(segLength, width), srcStride, dstStride);
    SegmentBytes(segLength, width);
    if CopiesCleanly(p.memory, p.src, p.dst, u, count) {
      SegmentsMove(p, u, count);
    }
  }

  class Dma {
    /** What the initiator socket is bound to. */
    const memory: array<bv8>
    var srcStart: Address
    var dstStart: Address
    var segLength: nat
    var segCount: nat
    var width: nat
    var srcStride: Address
    var dstStride: Address
    var busy: bool
    var segDoneEnable: bool
    var doneEnable: bool
    var segDonePending: bool
    var donePending: bool
    /** Whether an interrupt of channel 1 is enabled and pending. */
    var otherChannel: bool
    var irq: bool

    ghost predicate Valid()
      reads this`width
    {
      width < 4
    }

    ghost function Registers(): Setup
      requires Valid()
      reads this`segLength, this`width, this`srcStride, this`dstStride
    {
      Setup(BufferSize(segLength, width), srcStride, dstStride)
    }

    predicate IrqCondition()
      reads this`segDonePending, this`segDoneEnable, this`donePending, this`doneEnable, this`otherChannel
    {
      (segDonePending && segDoneEnable) || (donePending && doneEnable) || otherChannel
    }

    constructor (memory: array<bv8>)
      ensures Valid() && this.memory == memory && !irq && !busy
    {
      this.memory := memory;
      srcStart, dstStart, segLength, segCount, width, srcStride, dstStride := 0, 0, 0, 0, 0, 0, 0;
      busy, segDoneEnable, doneEnable, segDonePending, donePending := false, false, false, false, false;
      otherChannel, irq := false, false;
    }

    method UpdateIrq()
      modifies this`irq
      ensures irq == IrqCondition()
    {
      irq := IrqCondition();
    }

    /** A read transaction; an address outside the memory gets an error response. */
    method BusRead(address: nat, buffer: array<bv8>) returns (ok: bool)
      requires buffer != memory
      modifies buffer
      ensures ok == InMemory(memory[..], address, buffer.Length)
      ensures ok ==> buffer[..] == Read(memory[..], address, buffer.Length)
    {
      ok := address + buffer.Length <= memory.Length;
      if ok {
        forall i | 0 <= i < buffer.Length {
          buffer[i] := memory[address + i];
        }
      }
    }

    method BusWrite(address: nat, buffer: array<bv8>) returns (ok: bool)
      requires buffer != memory
      modifies memory
      ensures ok == InMemory(old(memory[..]), address, buffer.Length)
      ensures memory[..] == if ok then Write(old(memory[..]), address, buffer[..]) else old(memory[..])
    {
      ok := address + buffer.Length <= memory.Length;
      if ok {
        forall i | 0 <= i < buffer.Length {
          memory[address + i] := buffer[i];
        }
      }
    }

    /** One iteration of the segment loop: read, write, advance. */
    method OneSegment(src: Address, dst: Address, buffer: array<bv8>) returns (src': Address, dst': Address, ok: bool)
      requires Valid() && buffer != memory && buffer.Length == Registers().bytes
      modifies memory, buffer
      ensures Progress(memory[..], src', dst', ok) == Segment(Progress(old(memory[..]), src, dst, true), Registers())
    {
      src', dst' := src, dst;
      ok := BusRead(src, buffer);
      if ok {
        ok := BusWrite(dst, buffer);
      }
      if ok {
        src' := Advance(src, srcStride);
        dst' := Advance(dst, dstStride);
      }
    }

    /** do_transfer for channel 0: a buffer for one segment, then the segments. */
    method DoTransfer(src: Address, dst: Address) returns (src': Address, dst': Address, ok: bool)
      requires Valid()
      modifies memory, this`segDonePending, this`irq
      ensures Progress(memory[..], src', dst', ok) ==
              Segments(Progress(old(memory[..]), src, dst, true), Registers(), segCount)
      ensures Obeys(old(memory[..]), memory[..], ok, segLength, width, src, srcStride, dst, dstStride, segCount)
      ensures ok ==> segDonePending == (old(segDonePending) || (segDoneEnable && segCount > 0))
      ensures ok ==> irq == if segDoneEnable && segCount > 0 then IrqCondition() else old(irq)
    {
      TransferObeys(Progress(memory[..], src, dst, true), segLength, width, srcStride, dstStride, segCount);
      var buffer := new bv8[BufferSize(segLength, width)](_ => 0);
      src', dst', ok := CopySegments(src, dst, buffer);
    }

    /** The segment loop; a failed transaction is fatal and ends it. */
    method CopySegments(src: Address, dst: Address, buffer: array<bv8>) returns (src': Address, dst': Address, ok: bool)
      requires Valid() && buffer != memory && buffer.Length == Registers().bytes
      modifies memory, buffer, this`segDonePending, this`irq
      ensures Progress(memory[..], src', dst', ok) ==
              Segments(Progress(old(memory[..]), src, dst, true), Registers(), segCount)
      ensures ok ==> segDonePending == (old(segDonePending) || (segDoneEnable && segCount > 0))
      ensures ok ==> irq == if segDoneEnable && segCount > 0 then IrqCondition() else old(irq)
    {
      ghost var start, u := Progress(memory[..], src, dst, true), Registers();
      src', dst', ok := src, dst, true;
      var seg := 0;
      while seg < segCount && ok
        invariant seg <= segCount && Segments(start, u, seg) == Progress(memory[..], src', dst', ok)
        invariant ok ==> segDonePending == (old(segDonePending) || (segDoneEnable && seg > 0))
        invariant ok ==> irq == if segDoneEnable && seg > 0 then IrqCondition() else old(irq)
      {
        src', dst', ok := SegmentRound(src', dst', buffer);
        seg := seg + 1;
      }
      if !ok {
        FailureStays(start, u, seg, segCount);
      }
    }

    /** One pass of the loop body: the segment, then its interrupt. */
    method SegmentRound(src: Address, dst: Address, buffer: array<bv8>) returns (src': Address, dst': Address, ok: bool)
      requires Valid() && buffer != memory && buffer.Length == Registers().bytes
      modifies memory, buffer, this`segDonePending, this`irq
      ensures Progress(memory[..], src', dst', ok) == Segment(Progress(old(memory[..]), src, dst, true), Registers())
      ensures ok ==> segDonePending == (old(segDonePending) || segDoneEnable)
      ensures ok ==> irq == if segDoneEnable then IrqCondition() else old(irq)
    {
      src', dst', ok := OneSegment(src, dst, buffer);
      if ok && segDoneEnable {
        segDonePending := true;
        UpdateIrq();
      }
    }

    /** One round of transfer_process_ch0. */
    method TransferCh0() returns (ok: bool)
      requires Valid()
      modifies memory, this`segDonePending, this`donePending, this`busy, this`irq
      ensures Valid()
      ensures var p := Segments(Progress(old(memory[..]), srcStart, dstStart, true), Registers(), segCount);
              ok == p.ok && memory[..] == p.memory
      ensures Obeys(old(memory[..]), memory[..], ok, segLength, width,
                    srcStart, srcStride, dstStart, dstStride, segCount)
      ensures if ok then !busy && donePending else busy == old(busy) && donePending == old(donePending)
      ensures ok ==> segDonePending == (old(segDonePending) || (segDoneEnable && segCount > 0))
      ensures ok ==> irq == if doneEnable || (segDoneEnable && segCount > 0) then IrqCondition() else old(irq)
      ensures ok && (doneEnable || (segDoneEnable && segCount > 0)) ==> irq
    {
      var src, dst;
      src, dst, ok := DoTransfer(srcStart, dstStart);
      if ok {
        busy := false;
        donePending := true;
        if doneEnable {
          UpdateIrq();
        }
      }
    }
  }

  lemma {:induction false} FailureStays(p: Progress, u: Setup, m: nat, count: nat)
    requires m <= count && !Segments(p, u, m).ok
    ensures Segments(p, u, count) == Segments(p, u, m)
  {
    if m < count {
      FailureStays(p, u, m, count - 1);
    }
  }
}
