/** The Ethernet MAC of minres/ethmac.cpp as its callbacks run it: two byte rings, the transmit state
    machine, the control bits and the interrupt line. */
module EthMac {
  import opened Octets
  import opened Crc
  import opened Iteration
  import opened EthRing
  import opened EthCodec
  import Rx = EthRx
  import Tx = EthTx

  /** A byte shifted left by `i` bytes. */
  function Shifted(b: Byte, i: nat): nat {
    if i == 0 then b else 256 * Shifted(b, i - 1)
  }

  lemma {:induction false} ValueSnoc(bs: seq<Byte>, b: Byte)
    ensures Value(bs + [b]) == Value(bs) + Shifted(b, |bs|)
  {
    if bs == [] {
      assert Value([b][1..]) == 0;
    } else {
      assert (bs + [b])[1..] == bs[1..] + [b];
      ValueSnoc(bs[1..], b);
    }
  }

  lemma RegisterOfPrefix(p: seq<Byte>, k: nat)
    requires k < |p|
    ensures Register(ALL_ONES, ToBits(p[..k + 1])) == Update(Register(ALL_ONES, ToBits(p[..k])), p[k] as bv8)
  {
    assert ToBits(p[..k + 1]) == ToBits(p[..k]) + [p[k] as bv8];
    FeedSnoc(Update, ALL_ONES, ToBits(p[..k]), p[k] as bv8);
  }

  /** The bit loop: one payload byte enters the CRC register. */
  method CrcByte(crc: bv32, c: Byte) returns (next: bv32)
    ensures next == Update(crc, c as bv8)
  {
    var mixed := Xor(crc, (c as bv8) as bv32);
    next := mixed;
    for bit := 0 to 8
      invariant next == Steps(mixed, bit)
    {
      if Odd(next) {
        next := Xor(Half(next), POLYNOMIAL);
      } else {
        next := Half(next);
      }
    }
  }

  /** The low part of a word after each of `n` shifts. */
  function Parts<T, U>(shift: T -> T, low: T -> U, w: T, n: nat): seq<U> {
    if n == 0 then [] else Parts(shift, low, w, n - 1) + [low(Iterate(shift, w, n - 1))]
  }

  lemma FourParts<T, U>(shift: T -> T, low: T -> U, w0: T, w1: T, w2: T, w3: T)
    requires w1 == shift(w0) && w2 == shift(w1) && w3 == shift(w2)
    ensures Parts(shift, low, w0, 4) == [low(w0), low(w1), low(w2), low(w3)]
  {
    assert Iterate(shift, w0, 1) == w1 && Iterate(shift, w0, 2) == w2;
    assert Iterate(shift, w0, 3) == w3;
    assert Parts(shift, low, w0, 2) == [low(w0), low(w1)];
  }

  lemma FourBytes(w: bv32)
    ensures Parts(Rest, Low, w, 4) == LittleEndian(w)
  {
    ByteShifts(w);
    FourParts(Rest, Low, w, w >> 8, w >> 16, w >> 24);
  }

  /** The loop that takes the four bytes of the inverted register, least significant first. */
  method FcsBytes(crc: bv32) returns (bits: seq<bv8>)
    ensures bits == LittleEndian(crc)
  {
    var rest := crc;
    bits := [];
    for i := 0 to 4
      invariant bits == Parts(Rest, Low, crc, i) && rest == Iterate(Rest, crc, i)
    {
      bits := bits + [Low(rest)];
      rest := Rest(rest);
    }
    FourBytes(crc);
  }

  class EthMac {
    var rxBuffer: seq<Byte>
    var txBuffer: seq<Byte>
    var txPhase: Tx.Phase
    var txExpected: nat
    var inReset: bool
    var txFlush: bool
    var rxFlush: bool
    var txAligner: bool
    var txReady: bool
    var rxPending: bool
    var rxDrops: bool
    var wordsAvail: nat
    var txFreeEnable: bool
    var rxAvailEnable: bool
    var irq: bool
    /** The frames handed to the eth_tx socket. */
    ghost var emitted: seq<seq<Byte>>

    ghost function Receiver(): Rx.Rx
      reads this`rxBuffer, this`rxDrops, this`rxFlush, this`txAligner
    {
      Rx.Rx(rxBuffer, rxDrops, rxFlush, txAligner)
    }

    ghost function Transmitter(): Tx.Tx
      reads this`txPhase, this`txBuffer, this`txExpected, this`txAligner, this`emitted
    {
      Tx.Tx(txPhase, txBuffer, txExpected, txAligner, emitted)
    }

    predicate IrqLevel()
      reads this`txFreeEnable, this`txReady, this`rxAvailEnable, this`rxPending
    {
      (txFreeEnable && txReady) || (rxAvailEnable && rxPending)
    }

    /** update_irq */
    method UpdateIrq()
      modifies this`irq
      ensures irq == IrqLevel()
    {
      irq := (txFreeEnable && txReady) || (rxAvailEnable && rxPending);
    }

    constructor ()
      ensures Receiver() == Rx.Rx([], false, false, false) && !inReset
      ensures Transmitter() == Tx.Tx(Tx.Length, [], txExpected, false, [])
    {
      rxBuffer, txBuffer, txPhase, txExpected, emitted := [], [], Tx.Length, 0xFFFF_FFFF_FFFF_FFFF, [];
      inReset, txFlush, rxFlush, txAligner := false, false, false, false;
      txReady, rxPending, rxDrops := false, false, false;
      wordsAvail, txFreeEnable, rxAvailEnable, irq := 0, false, false, false;
    }

    // -------------------------------------------------------------- receive

    /** push_rx_buffer */
    method PushRx(b: Byte)
      requires |rxBuffer| <= Rx.CAPACITY
      modifies this`rxBuffer, this`rxDrops
      ensures Receiver() == Rx.Pushed(old(Receiver()), [b])
    {
      if |rxBuffer| < Rx.CAPACITY {
        rxBuffer := rxBuffer + [b];
      } else {
        assert (rxBuffer + [b])[..Rx.CAPACITY] == rxBuffer;
        rxDrops := true;
      }
    }

    method PushRxBytes(bs: seq<Byte>)
      requires |rxBuffer| <= Rx.CAPACITY
      modifies this`rxBuffer, this`rxDrops
      ensures Receiver() == Rx.Pushed(old(Receiver()), bs)
    {
      ghost var s := Receiver();
      assert rxBuffer + bs[..0] == rxBuffer;
      for i := 0 to |bs|
        invariant Receiver() == Rx.Pushed(s, bs[..i])
      {
        PushRx(bs[i]);
        Rx.PushedAppend(s, bs[..i], [bs[i]]);
        assert bs[..i] + [bs[i]] == bs[..i + 1];
      }
      assert bs[..|bs|] == bs;
    }

    /** The payload loop: every byte is stored and enters the CRC register. */
    method PushPayload(p: seq<Byte>) returns (crc: bv32)
      requires |rxBuffer| <= Rx.CAPACITY
      modifies this`rxBuffer, this`rxDrops
      ensures Receiver() == Rx.Pushed(old(Receiver()), p)
      ensures crc == Register(ALL_ONES, ToBits(p))
    {
      ghost var s := Receiver();
      assert rxBuffer + p[..0] == rxBuffer;
      crc := ALL_ONES;
      for i := 0 to |p|
        invariant Receiver() == Rx.Pushed(s, p[..i])
        invariant crc == Register(ALL_ONES, ToBits(p[..i]))
      {
        PushRx(p[i]);
        Rx.PushedAppend(s, p[..i], [p[i]]);
        assert p[..i] + [p[i]] == p[..i + 1];
        crc := CrcByte(crc, p[i]);
        RegisterOfPrefix(p, i);
      }
      assert p[..|p|] == p;
    }

    /** Everything that is pushed for one frame. */
    method StoreFrame(p: seq<Byte>)
      requires |rxBuffer| <= Rx.CAPACITY
      modifies this`rxBuffer, this`rxDrops
      ensures Receiver() == Rx.Pushed(old(Receiver()), Encoding(p, txAligner))
    {
      ghost var s := Receiver();
      var size := Size(|p|, txAligner);
      var head := Bytes(8 * size, 4) + Zeros(Skip(txAligner));
      PushRxBytes(head);
      var crc := PushPayload(p);
      Rx.PushedAppend(s, head, p);
      var fcs := FcsBytes(Xor(crc, ALL_ONES));
      PushRxBytes(FromBits(fcs));
      Rx.PushedAppend(s, head + p, CheckBytes(p));
      PushRxBytes(Zeros(Padding(size)));
      Rx.PushedAppend(s, head + p + CheckBytes(p), Zeros(Padding(size)));
    }

    /** The eth_rx transport callback. */
    method EthRx(p: seq<Byte>)
      requires |rxBuffer| <= Rx.CAPACITY
      modifies this`rxBuffer, this`rxDrops, this`rxPending, this`irq
      ensures Receiver() == Rx.Receive(old(Receiver()), p)
      ensures !rxFlush && |old(rxBuffer)| < Rx.CAPACITY ==> rxPending && irq == IrqLevel()
      ensures !rxFlush && |old(rxBuffer)| < Rx.CAPACITY && rxAvailEnable ==> irq
      ensures rxFlush || |old(rxBuffer)| == Rx.CAPACITY ==> rxPending == old(rxPending) && irq == old(irq)
    {
      if !rxFlush {
        if |rxBuffer| == Rx.CAPACITY {
          rxDrops := true;
        } else {
          StoreFrame(p);
          rxPending := rxBuffer != [];
          UpdateIrq();
        }
      }
    }

    /** The byte loop of a MAC_RX read. */
    method PopWord() returns (v: nat)
      modifies this`rxBuffer
      ensures v == Value(Clip(old(rxBuffer), 4)) && rxBuffer == old(rxBuffer)[|Clip(old(rxBuffer), 4)|..]
    {
      ghost var was := rxBuffer;
      v := 0;
      var i := 0;
      while i < 4 && rxBuffer != []
        invariant i <= 4 && i <= |was| && rxBuffer == was[i..] && v == Value(was[..i])
      {
        ValueSnoc(was[..i], was[i]);
        assert was[..i] + [was[i]] == was[..i + 1];
        v := v + Shifted(rxBuffer[0], i);
        rxBuffer := rxBuffer[1..];
        i := i + 1;
      }
      assert was[..i] == Clip(was, 4);
    }

    /** The MAC_RX read callback. */
    method MacRxRead() returns (v: nat)
      modifies this`rxBuffer, this`rxPending, this`irq
      ensures if inReset then v == 0 && Receiver() == old(Receiver())
              else v == Rx.WordRead(old(Receiver())) && Receiver() == Rx.Read(old(Receiver()))
      ensures !inReset && !rxFlush ==> rxPending == (rxBuffer != []) && irq == IrqLevel()
      ensures !inReset && !rxFlush && rxBuffer != [] && rxAvailEnable ==> irq
      ensures !inReset && !rxFlush && rxBuffer == [] ==> irq == (txFreeEnable && txReady)
    {
      v := 0;
      if !inReset && !rxFlush {
        v := PopWord();
        rxPending := rxBuffer != [];
        UpdateIrq();
      }
    }

    // -------------------------------------------------------------- transmit

    /** The loop that pushes bytes `from` to 3 of a data word. */
    method PushTx(v: Word, from: nat)
      requires |txBuffer| <= Tx.CAPACITY && from <= 4
      modifies this`txBuffer
      ensures txBuffer == Clip(old(txBuffer) + Bytes(v, 4)[from..], Tx.CAPACITY)
    {
      ghost var was := txBuffer;
      var bs := Bytes(v, 4);
      assert was + bs[from..from] == was;
      for i := from to 4
        invariant txBuffer == Clip(was + bs[from..i], Tx.CAPACITY)
      {
        assert was + bs[from..i] + [bs[i]] == was + bs[from..i + 1];
        if |txBuffer| < Tx.CAPACITY {
          txBuffer := txBuffer + [bs[i]];
        }
      }
    }

    /** Drain the ring into a frame of the expected length and pad it. */
    method TakeFrame() returns (frame: seq<Byte>)
      requires txExpected <= |txBuffer|
      modifies this`txBuffer
      ensures txBuffer == [] && frame == Tx.Padded(old(txBuffer)[..txExpected])
    {
      ghost var was := txBuffer;
      frame := [];
      ghost var i := 0;
      while txBuffer != []
        invariant i <= |was| && txBuffer == was[i..]
        invariant frame == was[..if i < txExpected then i else txExpected]
        decreases |txBuffer|
      {
        if |frame| < txExpected {
          frame := frame + [txBuffer[0]];
        }
        txBuffer := txBuffer[1..];
        i := i + 1;
      }
      ghost var data := frame;
      assert data + Zeros(0) == data;
      while |frame| < Tx.MIN_FRAME
        invariant |data| <= |frame| && frame == data + Zeros(|frame| - |data|)
        invariant |frame| <= Tx.MIN_FRAME || frame == data
        decreases Tx.MIN_FRAME - |frame|
      {
        frame := frame + [0];
      }
    }

    /** After a data word: send the frame once it is complete. */
    method SendIfComplete()
      modifies this`txBuffer, this`txPhase, this`emitted
      ensures Transmitter() == Tx.Flushed(old(Transmitter()))
    {
      if |txBuffer| >= txExpected {
        var frame := TakeFrame();
        emitted := emitted + [frame];
        txPhase := Tx.Length;
      }
    }

    /** The state machine of a MAC_TX write. */
    method TxWord(v: Word)
      requires |txBuffer| <= Tx.CAPACITY
      modifies this`txBuffer, this`txPhase, this`txExpected, this`emitted
      ensures Transmitter() == Tx.Write(old(Transmitter()), v)
    {
      if txPhase == Tx.Length {
        txExpected := Tx.Expected(v, txAligner);
        txPhase := if txAligner then Tx.Align else Tx.Data;
      } else {
        if txPhase == Tx.Align {
          PushTx(v, 2);
          txPhase := Tx.Data;
        } else {
          PushTx(v, 0);
          assert Bytes(v, 4)[0..] == Bytes(v, 4);
        }
        SendIfComplete();
      }
    }

    /** The MAC_TX write callback. */
    method MacTxWrite(v: Word)
      requires |txBuffer| <= Tx.CAPACITY
      modifies this`txBuffer, this`txPhase, this`txExpected, this`emitted, this`wordsAvail, this`txReady, this`irq
      ensures Transmitter() == if inReset || txFlush then old(Transmitter()) else Tx.Write(old(Transmitter()), v)
      ensures !inReset && !txFlush ==> txReady == (|txBuffer| < Tx.CAPACITY) && irq == IrqLevel()
      ensures !inReset && !txFlush && |txBuffer| < Tx.CAPACITY && txFreeEnable ==> irq
      ensures !inReset && !txFlush && |txBuffer| >= Tx.CAPACITY ==> irq == (rxAvailEnable && rxPending)
      ensures wordsAvail == if inReset || txFlush then old(wordsAvail)
                            else (Tx.CAPACITY - if txBuffer == [] then 1 else |txBuffer|) / 4
    {
      if !inReset && !txFlush {
        TxWord(v);
        wordsAvail := (Tx.CAPACITY - if |txBuffer| < 1 then 1 else |txBuffer|) / 4;
        txReady := |txBuffer| < Tx.CAPACITY;
        UpdateIrq();
      }
    }

    // -------------------------------------------------------------- control

    /** The MAC_CTRL write callback: the two status bits are taken from the rings before these are
        flushed, and the interrupt line is left as it is. */
    method CtrlWrite(newTxFlush: bool, newTxAligner: bool, newRxFlush: bool)
      modifies this`txFlush, this`txAligner, this`rxFlush, this`txReady, this`rxPending, this`rxBuffer, this`txBuffer
      ensures if inReset then
                Receiver() == old(Receiver()) && Transmitter() == old(Transmitter()) && txFlush == old(txFlush)
              else
                && Receiver() == Rx.Rx(if newRxFlush then [] else old(rxBuffer), rxDrops, newRxFlush, newTxAligner)
                && txBuffer == (if newTxFlush then [] else old(txBuffer))
                && Transmitter() == old(Transmitter()).(buffer := txBuffer, aligned := newTxAligner)
                && txFlush == newTxFlush
                && rxPending == (old(rxBuffer) != []) && txReady == (|old(txBuffer)| < Tx.CAPACITY)
    {
      if !inReset {
        txFlush, txAligner, rxFlush := newTxFlush, newTxAligner, newRxFlush;
        txReady := |txBuffer| < Tx.CAPACITY;
        rxPending := rxBuffer != [];
        if rxFlush && rxBuffer != [] {
          rxBuffer := [];
        }
        if txFlush && txBuffer != [] {
          txBuffer := [];
        }
      }
    }

    /** The MAC_INTR write callback. */
    method IntrWrite(txFree: bool, rxAvail: bool)
      modifies this`txFreeEnable, this`rxAvailEnable, this`irq
      ensures if inReset then
                txFreeEnable == old(txFreeEnable) && rxAvailEnable == old(rxAvailEnable) && irq == old(irq)
              else
                && txFreeEnable == txFree && rxAvailEnable == rxAvail && irq == IrqLevel()
                && (irq <==> (txFree && txReady) || (rxAvail && rxPending))
    {
      if !inReset {
        txFreeEnable, rxAvailEnable := txFree, rxAvail;
        UpdateIrq();
      }
    }

    /** reset_cb, on both edges of the reset line: the rings are emptied, the transmit machine waits for a
        length, and the registers take their reset values. */
    method Reset(level: bool)
      modifies this`inReset, this`txPhase, this`rxBuffer, this`txBuffer, this`txFlush, this`rxFlush, this`txAligner,
        this`rxDrops, this`txReady, this`rxPending, this`wordsAvail, this`txFreeEnable, this`rxAvailEnable
      ensures Receiver() == Rx.Rx([], false, false, false) && inReset == level
      ensures Transmitter() == Tx.Tx(Tx.Length, [], txExpected, false, emitted)
      ensures !txFlush && !txReady && !rxPending && wordsAvail == 0 && !IrqLevel()
    {
      inReset := level;
      txPhase, rxBuffer, txBuffer := Tx.Length, [], [];
      ResetRegisters();
    }

    method ResetRegisters()
      modifies this`txFlush, this`rxFlush, this`txAligner, this`rxDrops, this`txReady, this`rxPending, this`wordsAvail,
        this`txFreeEnable, this`rxAvailEnable
      ensures !txFlush && !rxFlush && !txAligner && !rxDrops && !txReady && !rxPending
      ensures wordsAvail == 0 && !txFreeEnable && !rxAvailEnable
    {
      txFlush, rxFlush, txAligner := false, false, false;
      txReady, rxPending, rxDrops := false, false, false;
      wordsAvail, txFreeEnable, rxAvailEnable := 0, false, false;
    }
  }
}
