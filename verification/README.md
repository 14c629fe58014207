# Verification of the peripheral models

A Dafny model of the peripherals of this SystemC/TLM library that hold real state machines or arithmetic,
with proofs about every input and every run. `dafny verify dfyconfig.toml` checks all of it.

Each callback of a peripheral is a method of a class whose fields are the peripheral's registers, buffers
and output lines. The contract of the method equates the new abstract state with a function of the old one;
what the peripheral is for is proved about that function, for single steps and for arbitrary sequences of
callbacks. Waiting, sockets and transport objects become parameters: the value on a wire, the word written
by the CPU, the simulated time, what a device answers.

| files | peripheral |
|---|---|
| `Octets`, `Iteration`, `Crc`, `EthCodec`, `EthRing`, `EthRx`, `EthTx`, `EthMac` | Ethernet MAC: CRC-32 bit loop, receive encoding and the decoder it needs, transmit state machine, byte rings |
| `Rfc1071`, `HostPhy` | in-place repair of offloaded TCP and UDP checksums |
| `Bits`, `PlicSpec`, `PlicRegisters`, `Plic` | platform-level interrupt controller with gateways, claims and completions |
| `AplicSpec`, `AplicRegisters`, `Aplic` | advanced interrupt controller in direct mode, with its cached top and claim registers |
| `Clint` | tickless machine timer |
| `SpiSerial`, `SpiSpec`, `SpiRead`, `SpiMaster` | SPI master: bit and nibble serialisation, transfer state machine, bus traffic |
| `Dma` | strided DMA, channel 0 |

Where the code does not meet a property everywhere, the exact condition under which it does is proved:

- PLIC: a pending interrupt can be left unsignalled, but only by a priority, threshold or enable write that
  makes it eligible for a context whose line is low (`PlicSpec.StepCovers`, `PlicSpec.NoLostInterrupt`; a
  failing run from reset is `PlicSpec.EnablingLosesInterrupt`). Writes that lower a priority, raise a
  threshold or clear enable bits never do (`PlicSpec.ShrinkingLosesNothing`).
- PLIC: a completion leaves the controller's arrays exactly if it names an id without an enable bit, or one
  above the number of sources that is enabled (`Plic.Plic.ClaimCompleteWrite`, `PlicSpec.CompletionsSafe`;
  failing runs are `PlicSpec.CompletionWithoutEnableBit` and `PlicSpec.SpareBitLeavesBounds`). Software that
  completes only ids with an enable bit and enables only sources is safe (`PlicSpec.EnablingSourcesIsSafe`).
  When a completion leaves the arrays the model stores nothing; what the code overwrites is not modelled, so
  statements about a run speak of the code up to such a completion.
- PLIC: a line can be high with nothing to claim, because a claim refreshes the line of its own context only
  and configuration writes refresh none. Which events keep every line equal to eligibility is proved exactly
  (`PlicSpec.StepKeepsExact`, `PlicSpec.LinesTellTheTruth`; a failing run from reset is
  `PlicSpec.ClaimLeavesStaleLine`); an accepted raise puts all of them right again.
- PLIC: reset clears pending bits but not gateways, so a source that was pending or in service ignores
  every raise until a completion of it is accepted (`PlicSpec.ResetStrandsClosed`).
- APLIC: the cached top and claim registers can disagree with arbitration, but only after a `clrie` or
  `target` write that concerns the cached interrupt or lets another one win (`AplicSpec.StepKeepsCache`,
  `AplicSpec.CacheAgreement`; a failing run from reset is `AplicSpec.ClrIeDisagrees`).
- APLIC: the core line can stay high over an empty claim register, but only after an arbitration that delivers
  to a high line while no source passes. Arbitrations are made by domaincfg writes that switch delivery on,
  delivery writes of one, threshold writes, setie, setienum and setip writes that select a source, and wires
  that become active (`AplicSpec.StepKeepsQuiet`, `AplicSpec.QuietLine`). With right caches only domaincfg,
  delivery and threshold writes can do so (`AplicSpec.OnlyConfigurationHarms`). Failing runs from reset are
  `AplicSpec.ThresholdLeavesLineHigh` and `AplicSpec.ClrIeLeavesLineHigh`.
- CLINT: reset clears mtime but not the time stamp it is counted from, so ticks from before the reset are
  counted after it (`Clint.ResetCountsOn`); when it does restart the count is `Clint.RestartsIff`.
- Ethernet MAC: received frames are recovered exactly if each finds room for its whole encoding when it
  arrives (`EthRx.DriverRecoversFrames`), and `rx_drops` tells (`EthRx.DropsIffFull`). A frame that does not
  fit is stored in part and lost (`EthRx.FrameStoredOrLost`), and its length word then makes a decoder swallow
  later frames (`EthRx.TruncationSwallows`, `EthRx.LaterFramesLost`). A frame longer than the transmit ring is
  never sent, and none after it (`EthTx.OversizeNeverSent`).
- SPI: a write transfer of more than 65504 bits never finishes, because the 16-bit bit counter wraps
  (`SpiSpec.TooLongNeverFinishes`). The first round of a write transfer sets TX_STATUS back to what it was at the
  last push outside a transfer (`SpiSpec.WrittenStatusForgotten`).
- SPI: a read transfer that waits for room goes on only while exactly one word is in the FIFO, so it never ends
  once software has emptied the FIFO at such a moment (`SpiRead.WaitRxRound`, `SpiRead.EmptiedReadStalls`; a
  failing run from rest is `SpiRead.ThreeWordReadStalls`). It finishes if software always leaves one
  (`SpiRead.ServedReadFinishes`).
- Checksum repair: a frame passes the receiver's check afterwards exactly if it carried the seed or passed
  before (`HostPhy.RepairCompletes`).

Where code and comments disagree, the code is modelled. A PLIC claim is subject to the threshold
(`rvi/plic.h:319`), although the comment above it says otherwise. The APLIC grants the numerically largest
priority (`rvi/aplic.cpp:391-394`), although its standard ranks small numbers first. The alignment of
received frames follows `tx_aligner_enable` (`minres/ethmac.cpp:125`).

## Model

| member | source | states |
|---|---|---|
| Crc.Residue | minres/ethmac.cpp:138-155 | every payload followed by its own frame check sequence leaves the one constant 0xDEBB20E3 in the register |
| Crc.ResidueAcceptsOnlyFcs | minres/ethmac.cpp:138-155 | the residue test of a receiver accepts the correct four check bytes and no others |
| Crc.StepsLinear | minres/ethmac.cpp:143-148 | any number of shift steps is linear over exclusive-or |
| Crc.RegisterWord | minres/ethmac.cpp:139-150 | feeding the four bytes of a word through the byte loop is 32 shift steps of register xor word |
| Crc.RegisterInjective | minres/ethmac.cpp:139-150 | the byte loop loses nothing: different registers stay different over every message |
| Crc.BurstDetected | minres/ethmac.cpp:138-155 | two frames that differ only inside four consecutive bytes never share a check sequence |
| EthMac.CrcByte | minres/ethmac.cpp:141-148 | the bit loop over one byte computes the register update of the CRC specification |
| EthMac.FcsBytes | minres/ethmac.cpp:151-155 | the four appended bytes are the register, least significant byte first |
| Octets.BytesOfValue | minres/ethmac.cpp:218-221 | any bytes put together into a word are given back by splitting the word, and the word fits its width |
| Octets.ValueOfBytes | minres/ethmac.cpp:130-133 | a length split into little-endian bytes is given back by putting them together |
| EthCodec.CheckBytesCheck | minres/ethmac.cpp:138-155 | payload and appended check bytes pass the residue test, as bytes of the buffer |
| EthCodec.DecodePrefix | minres/ethmac.cpp:125-158 | a decoder guided only by the length words recovers from any prefix of the stream exactly the frames wholly inside it, each intact |
| EthCodec.DecodeEncodings | minres/ethmac.cpp:125-158 | round trip: the decoder recovers exactly the sequence of encoded payloads |
| EthCodec.DecodedWasStored | minres/ethmac.cpp:125-158 | whatever a stream consists of, the frames decoded from it take no more bytes encoded than it has |
| EthRx.PushedAppend | minres/ethmac.cpp:288-293 | pushing byte by byte is pushing in one burst: same kept bytes, same drop flag |
| EthRx.DropsIffFull | minres/ethmac.cpp:122-123 | rx_drops is raised in a run if and only if some frame does not find room for its whole encoding |
| EthRx.ConservationOrDrop | minres/ethmac.cpp:112-164 | over every interleaving of arrivals and reads, words read plus ring contents are the encodings of all frames that arrived if and only if each found room when it arrived, and if and only if rx_drops is clear; the ring always holds whole words |
| EthRx.DriverRecoversFrames | minres/ethmac.cpp:214-228 | in every interleaving, read plus buffered bytes decode to all frames that arrived if and only if each found room when it arrived; what has been read then decodes to exactly the frames read completely |
| EthRx.FlushIgnores | minres/ethmac.cpp:112-124 | while rx_flush is set, any arrivals leave the ring and rx_drops alone, and any reads return zero and take nothing |
| EthRx.FrameStoredOrLost | minres/ethmac.cpp:122-159 | whatever part of the earlier frames has been read, a frame is recovered if and only if its whole encoding fits; otherwise rx_drops is raised and the decoder yields the earlier frames only |
| EthRx.OverlongIsTruncated | minres/ethmac.cpp:129-158 | unless the ring was full, it keeps of a frame that does not fit a part with the whole length word |
| EthRx.TruncationSwallows | minres/ethmac.cpp:129-158 | after such a part the decoder takes the missing bytes from whatever is stored next, delivers one frame of the announced size, and resumes behind them |
| EthRx.LaterFramesLost | minres/ethmac.cpp:129-158 | later frames that make up the missing bytes are lost; behind them the decoder is in step again and yields all others |
| EthTx.NothingEarly | minres/ethmac.cpp:176-204 | no frame is handed over before its last data word, ceil(n/4) or with alignment ceil((n+2)/4) |
| EthTx.FrameSent | minres/ethmac.cpp:168-204 | on that word exactly the frame is handed over, zero-padded to 60 bytes, and the machine is back in LENGTH with an empty ring |
| EthTx.Announced | minres/ethmac.cpp:168-172 | a length word announces its bits rounded up to bytes, less the alignment bytes; one that announces less than these, or overflows the rounding, announces nothing that can be sent |
| EthTx.TransmitRoundTrip | minres/ethmac.cpp:166-210 | any sequence of frames of 1 to 4096 bytes is handed over exactly and in order, with or without the aligner |
| EthTx.DriverIsProper | minres/ethmac.cpp:168-184 | the plain driver encoding, bit length plus little-endian words, meets the premises of the round trip for every such frame |
| EthTx.OversizeNeverSent | minres/ethmac.cpp:183 | after the length of a frame longer than the ring nothing is ever handed over, whatever words follow |
| EthTx.RoomThroughout | minres/ethmac.cpp:176-182 | no byte of a frame is pushed into a full ring if and only if frame and alignment bytes together are at most 4096 |
| EthMac.EthMac.PushRx | minres/ethmac.cpp:288-293 | one byte is kept if there is room, else dropped with rx_drops raised |
| EthMac.EthMac.PushPayload | minres/ethmac.cpp:138-150 | the payload loop stores the payload and leaves its CRC in the register |
| EthMac.EthMac.EthRx | minres/ethmac.cpp:112-164 | new ring and drop flag are those of the receive specification; rx_pending and the interrupt follow the ring; after a stored frame with rx_data_avail enabled the line is high |
| EthMac.EthMac.MacRxRead | minres/ethmac.cpp:214-228 | the read returns the next up to four bytes as a little-endian word and takes exactly these out of the ring; once the ring is read empty the receiver no longer holds the interrupt line high |
| EthMac.EthMac.MacTxWrite | minres/ethmac.cpp:166-210 | new transmit state and emitted frames are those of the transmit specification; words_avail is the number of whole words left, counting an empty ring as one byte used |
| EthMac.EthMac.CtrlWrite | minres/ethmac.cpp:230-241 | flush bits empty their ring, but the status bits show the rings before the flush and the transmit phase stays |
| EthMac.EthMac.IntrWrite | minres/ethmac.cpp:250-260 | the enables take effect on the interrupt line at once |
| EthMac.EthMac.Reset | minres/ethmac.cpp:269-281 | both rings empty, machine waiting for a length, registers zero |
| Rfc1071.OnesSumIsCanonical | generic/host_phy.cpp:59-76 | plain accumulation with late folding is the one's-complement sum of RFC 1071 section 1 |
| Rfc1071.AddBytes | generic/host_phy.cpp:59-69 | the loop adds the big-endian word sum of the bytes, an odd last byte zero-padded, in 32-bit arithmetic |
| Rfc1071.Fold | generic/host_phy.cpp:71-76 | folding ends after at most two rounds with the value congruent modulo 65535 that is zero only for zero |
| Rfc1071.WordSumOverwrite | generic/host_phy.cpp:187-190 | overwriting one aligned word moves the sum by the difference of the two words |
| Rfc1071.CompletingWords | generic/host_phy.cpp:78-81 | exactly the complement, or its other zero, completes a positive sum to all ones |
| HostPhy.FragmentBits | generic/host_phy.cpp:147-151 | a packet is a fragment if and only if a bit of the 13-bit offset or the more-fragments bit is set; the don't-fragment and reserved bits do not matter |
| HostPhy.OnlyHighFlags | generic/host_phy.cpp:147-151 | that is, unless the flags word is one of 0, 0x4000, 0x8000 and 0xC000 |
| HostPhy.RejectsFirstFailure | generic/host_phy.cpp:120-142 | codes 1 to 6 are returned if and only if the check of that number is the first to fail, the checks stated on the bytes |
| HostPhy.LeavesAlone | generic/host_phy.cpp:143-151 | a packet with sound headers is left alone if and only if it is a fragment or neither TCP nor UDP |
| HostPhy.RejectsTransport | generic/host_phy.cpp:160-178 | codes 7 to 10 are returned if and only if a TCP or UDP header is cut short or has a bad data offset or length |
| HostPhy.FindsWhatIsCarried | generic/host_phy.cpp:119-184 | a transport segment is found if and only if the bytes of the frame carry it: EtherType, version, header and total length, protocol, no fragment, sound transport header |
| HostPhy.SumDoesNotWrap | generic/host_phy.cpp:96-112 | the accumulating calls together are the sum of pseudo-header and segment, and never exceed 32 bits |
| HostPhy.SeedMatchImpliesGuard | generic/host_phy.cpp:180-186 | the seed is never zero, so a seed match already implies the guard for UDP frames without checksum |
| HostPhy.VerifiesIff | generic/host_phy.cpp:96-112 | a frame passes the receiver's check exactly if its field is the complement of the rest of the sum, or its other zero |
| HostPhy.ParseIgnoresField | generic/host_phy.cpp:119-184 | the header walk gives the same result whatever the checksum field holds |
| HostPhy.RepairCompletes | generic/host_phy.cpp:184-191 | after the repair a frame passes the receiver's check if and only if it carried the seed or passed before; a repaired UDP field is never zero |
| HostPhy.CarriedFrameRepaired | generic/host_phy.cpp:119-193 | end to end: for every frame that carries a TCP or UDP segment the call returns 0, and afterwards the frame passes the receiver's check if and only if its field held the one's-complement sum of the pseudo-header, or it passed before |
| HostPhy.RepairTouchesOnlyField | generic/host_phy.cpp:119-193 | only the two checksum bytes can change, and none on an error return |
| HostPhy.RepairIdempotent | generic/host_phy.cpp:119-193 | a second call changes no byte and returns the same code |
| HostPhy.RepairOfVerified | generic/host_phy.cpp:184-191 | a frame that already verified still does and is byte-identical, except that a TCP seed 0xFFFF becomes 0x0000 |
| HostPhy.PseudoHeaderSeed | generic/host_phy.cpp:83-94 | the calculated seed is the folded sum of the pseudo-header |
| HostPhy.TransportChecksum | generic/host_phy.cpp:96-112 | the calculated checksum is the complement of the folded sum, with the UDP zero rule |
| HostPhy.Walk | generic/host_phy.cpp:119-184 | the checks, in their order, yield the specified error code or transport segment |
| HostPhy.FixIpv4Checksums | generic/host_phy.cpp:119-193 | returned code and frame bytes are those of the repair specification; every frame that carries a segment with the seed in its field passes the receiver's check afterwards |
| Bits.IdsAfterSet | rvi/plic.h:404-408 | setting one bit of the packed words adds exactly one id to the set they stand for |
| Bits.IdsAfterClear | rvi/plic.h:321-322 | clearing one bit removes exactly one id |
| PlicSpec.TopIsMaximum | rvi/plic.h:368-402 | the scan finds the maximum by priority and then lowest id, and 0 exactly if nothing is eligible |
| PlicSpec.Conservation | rvi/plic.h:282-352 | in every run, with completions of any id and any configuration writes, claims plus pending never exceed accepted raises, nor these the accepted completions plus a closed gateway |
| PlicSpec.Lifecycle | rvi/plic.h:282-352 | with disciplined completions every source is always idle, pending or in service, and in service for one context only |
| PlicSpec.ExactConservation | rvi/plic.h:282-352 | in such runs the inequalities are equalities, and claims are completions plus the one in service |
| PlicSpec.StepCovers | rvi/plic.h:282-329 | one event keeps every eligible source signalled if and only if it is no configuration write that makes a source eligible under a low line |
| PlicSpec.NoLostInterrupt | rvi/plic.h:282-329 | a run keeps every eligible source signalled throughout if and only if its configuration writes are harmless in that sense |
| PlicSpec.EnablingLosesInterrupt | rvi/plic.h:282-329 | a run from reset that loses an interrupt: configure, raise and only then enable any source for any context |
| PlicSpec.ShrinkingIsHarmless | rvi/plic.h:368-395 | lowering a priority, raising a threshold or clearing enable bits makes no source eligible, in any state |
| PlicSpec.ShrinkingLosesNothing | rvi/plic.h:282-329 | a run whose configuration writes only shrink what is eligible keeps every eligible source signalled |
| PlicSpec.CompletionsSafe | rvi/plic.h:332-352 | no completion of an id with an enable bit can leave the arrays if and only if only sources are enabled |
| PlicSpec.EnablingSourcesIsSafe | rvi/plic.h:332-352 | in every run in which software enables only sources and completes only ids that have an enable bit, no completion leaves the arrays |
| PlicSpec.SpareBitLeavesBounds | rvi/plic.h:340-351 | a run from reset that leaves them: enable the id after the last source, then complete it |
| PlicSpec.CompletionWithoutEnableBit | rvi/plic.h:332-352 | another, which enables nothing: complete any id beyond the enable words |
| PlicSpec.ClosedUntilCompleted | rvi/plic.h:282-352 | a source neither pending nor open stays so exactly until a completion of it is accepted |
| PlicSpec.ResetStrandsClosed | rvi/plic.h:251-257 | after a reset a source with a closed gateway is not pending and ignores raises until then |
| PlicSpec.SingleContextExact | rvi/plic.h:282-329 | with one context and a fixed configuration the line equals eligibility |
| PlicSpec.StepKeepsExact | rvi/plic.h:282-352 | an event keeps the lines of all contexts equal to eligibility if and only if it is a raise or completion, a claim that does not take another context's last eligible source, a configuration write that leaves each context something or nothing to claim as before, or a reset while all lines are low; an accepted raise makes them equal whatever they were |
| PlicSpec.LinesTellTheTruth | rvi/plic.h:282-352 | the same over every run and any number of contexts |
| PlicSpec.ClaimLeavesStaleLine | rvi/plic.h:316-329 | a run from reset after which a line is not eligibility: two contexts share a source, one of them claims it |
| PlicSpec.DrainSorts | rvi/plic.h:316-329 | repeated claims return every eligible source exactly once, by descending priority and ascending id |
| PlicSpec.DrainEndsLow | rvi/plic.h:316-329 | after them a claim returns 0 and the line is low |
| PlicRegisters.PendingBit | rvi/plic.h:282-329 | a pending bit is set by a raise with a high input and an open gateway only, and cleared by a claim that it wins and by reset only; winning stated on the registers |
| PlicRegisters.Gateway | rvi/plic.h:282-352 | a gateway is closed by a raise with a high input only, and opened only by a completion of its own id, if that is a source enabled for the context |
| PlicRegisters.CompletionOnlyOpens | rvi/plic.h:332-352 | a completion changes no other register |
| PlicRegisters.RaiseTakesEffect | rvi/plic.h:282-299 | a low input or a closed gateway changes nothing; any other raise makes exactly its source pending and leaves every line equal to eligibility |
| PlicRegisters.ClaimTakesWinner | rvi/plic.h:316-329 | the claim records the pending and enabled source above the threshold of highest priority and lowest id, clears it, refreshes the own line and changes nothing else |
| PlicRegisters.ClaimRegister | rvi/plic.h:252-329 | a claim register changes by claims of its context and by reset only, and a line by these claims and accepted raises only |
| PlicRegisters.CompletedFiresAgain | rvi/plic.h:282-352 | in every state, after a completion of an enabled source its next raise makes it pending, with the line high if it is above the threshold |
| PlicRegisters.ServiceCycle | rvi/plic.h:282-352 | in every state, claim, completion and raise of the winner return it and make it pending again with the line high |
| PlicRegisters.InServiceFiresAgain | rvi/plic.h:282-352 | in every disciplined run, completing an enabled source in service keeps the discipline, ends its service, and lets it interrupt again |
| PlicRegisters.ConfigurationHolds | rvi/plic.h:252-257 | in every run priority, threshold and enable bits are what was written last, and zero after reset |
| Plic.Plic.GetSourceIrq | rvi/plic.h:368-402 | the full scan returns the winner, the early-exit scan agrees with it on emptiness, and every result is eligible |
| Plic.Plic.HandlePendingIrq | rvi/plic.h:303-313 | the line of the context, and no other, takes the value of eligibility |
| Plic.Plic.SourceIrq | rvi/plic.h:282-299 | an accepted raise sets exactly one pending bit, closes its gateway and refreshes all lines; any other is ignored |
| Plic.Plic.ClaimCompleteRead | rvi/plic.h:316-329 | the claim returns the winner, clears its pending bit and refreshes the claiming context's line only |
| Plic.Plic.ClaimCompleteWrite | rvi/plic.h:332-352 | for any id: a completion opens the gateway of a source enabled for the context and does nothing otherwise; it stays in bounds if and only if the id is 0, or has an enable bit that is clear or belongs to a source |
| Plic.Plic.WritePriority | rvi/gen/plic_regs.h:33 | a priority write changes one priority and no line |
| Plic.Plic.WriteThreshold | rvi/plic.h:372 | a threshold write changes one threshold and no line |
| Plic.Plic.WriteEnabled | rvi/gen/plic_regs.h:35 | an enable write replaces 32 ids of one context and changes no line |
| Plic.Plic.Reset | rvi/plic.h:252-257 | reset zeroes the registers but keeps gateways and lines |
| AplicSpec.BestWins | rvi/aplic.cpp:375-399 | the pass finds the largest passing priority, lowest id among equals, and 0 exactly if none passes |
| AplicSpec.ClrIeKeepsCache | rvi/aplic.cpp:252-267 | a clrie write keeps the cache right if and only if it spares the cached interrupt |
| AplicSpec.TargetKeepsCache | rvi/aplic.cpp:59-75 | a target write keeps the cache right if and only if the source is not arbitrated, keeps its cached priority, or still loses |
| AplicSpec.StepKeepsCache | rvi/aplic.cpp:37-153 | every other callback leaves top and claim equal to a full arbitration |
| AplicSpec.CacheAgreement | rvi/aplic.cpp:37-153 | from reset, top and claim agree with arbitration throughout a run if and only if its clrie and target writes spare the cached interrupt |
| AplicSpec.ClaimIsSignalled | rvi/aplic.cpp:375-447 | in every run from reset, delivery enabled with a nonzero claim implies a high core line |
| AplicSpec.LineFalls | rvi/aplic.cpp:416-447 | a high line falls if and only if, while delivering, a pending bit is taken away or a claim acknowledged and nothing is left to claim |
| AplicSpec.StepKeepsQuiet | rvi/aplic.cpp:37-153 | whatever the caches hold, an empty claim keeps implying a low line over a callback if and only if it is no arbitration that delivers to a high line while no source passes |
| AplicSpec.QuietLine | rvi/aplic.cpp:37-153 | in every run from reset an empty claim implies a low line throughout if and only if no such arbitration occurs |
| AplicSpec.OnlyConfigurationHarms | rvi/aplic.cpp:37-153 | with right caches, only domaincfg, delivery and threshold writes can be such an arbitration |
| AplicSpec.ThresholdLeavesLineHigh | rvi/aplic.cpp:148-153 | a run from reset that violates it: claim an interrupt, then silence it by threshold |
| AplicSpec.ClrIeLeavesLineHigh | rvi/aplic.cpp:185-267 | another, without such a write after the interrupt was claimable: disable it by clrie, then write setip |
| AplicSpec.ClrIeDisagrees | rvi/aplic.cpp:252-267 | a run from reset after which claim names an interrupt that arbitration would not grant: disable it |
| AplicSpec.LevelTracking | rvi/aplic.cpp:332-373 | after a wire event under a level mode, the pending bit equals the rectified wire through all later events that do not drive, reconfigure or reset the source |
| AplicRegisters.PendingBit | rvi/aplic.cpp:185-229 | every way a pending bit can change, stated on mode values and wire levels: four wire modes, setip, in_clrip, claim, reset |
| AplicRegisters.EnableBit | rvi/aplic.cpp:231-267 | every way an enable bit can change |
| AplicRegisters.ArbitrationNames | rvi/aplic.cpp:375-414 | arbitration grants the pending and enabled source below the threshold with the largest nonzero priority, lowest number among equals, and nothing else, stated on the registers |
| AplicRegisters.ReadClaimAcknowledges | rvi/aplic.cpp:99-108 | a claim read clears the pending bit of the interrupt it returns and no other, leaves the first of the rest in top and claim, and the line high exactly if there is one; for a level source or an empty claim it changes nothing |
| AplicRegisters.CachesAfter | rvi/aplic.cpp:37-153 | top and claim name the first contending source after every arbitration, acknowledgement and reset, and are left alone by any other callback |
| AplicRegisters.LineRises | rvi/aplic.cpp:375-447 | a low line rises if and only if such a callback finds something to claim while delivering |
| AplicRegisters.EdgeLatched | rvi/aplic.cpp:332-373 | an edge-sensitive source whose wire has gone to its active level stays pending whatever the wire does next, until it is claimed, cleared, reconfigured or reset; the other level changes nothing |
| AplicRegisters.ClaimsSort | rvi/aplic.cpp:99-108 | repeated claim reads return every contending edge-sensitive or detached source exactly once, by descending priority and ascending number |
| AplicRegisters.ClaimsEndLow | rvi/aplic.cpp:99-108 | after them claim reads zero and, while delivering, the line is low |
| AplicRegisters.ConfigurationHolds | rvi/aplic.cpp:37-153 | in every run sourcecfg, target, threshold, delivery and the interrupt enable are what was last written and accepted, and zero after reset |
| AplicSpec.SetIpOneMore | rvi/aplic.cpp:185-206 | arbitrating after each bit of a setip word is arbitrating once after all of them |
| AplicSpec.ClrIpOneMore | rvi/aplic.cpp:208-229 | the same for in_clrip, where the line falls and may rise again at each bit |
| AplicSpec.SetIeOneMore | rvi/aplic.cpp:231-250 | the same for setie |
| Aplic.Aplic.Scan | rvi/aplic.cpp:375-399 | the loop over sources computes the arbitration winner and its priority |
| Aplic.Aplic.HandlePendingInt | rvi/aplic.cpp:375-414 | caches take the arbitration result; the line can only rise |
| Aplic.Aplic.ResetPendingInt | rvi/aplic.cpp:416-425 | one pending bit is cleared, the line lowered, and arbitration done again |
| Aplic.Aplic.WireChange | rvi/aplic.cpp:321-373 | a wire change sets, clears or keeps the pending bit by source mode and rectified value, and re-arbitrates |
| Aplic.Aplic.WriteSetIp | rvi/aplic.cpp:185-206 | exactly the eligible bits of the addressed word are set, no other word changes |
| Aplic.Aplic.WriteClrIp | rvi/aplic.cpp:208-229 | exactly the eligible pending bits of the addressed word are cleared |
| Aplic.Aplic.WriteSetIe | rvi/aplic.cpp:231-250 | exactly the bits of active sources in the addressed word are enabled |
| Aplic.Aplic.WriteClrIe | rvi/aplic.cpp:252-267 | exactly the selected bits of existing sources are disabled, without new arbitration |
| Aplic.Aplic.WriteSetIeNum | rvi/aplic.cpp:77-95 | one active source is enabled and arbitration done again |
| Aplic.Aplic.WriteDomainCfg | rvi/aplic.cpp:37-47 | delivery is switched, and arbitration done again when it is switched on |
| Aplic.Aplic.WriteSourceCfg | rvi/aplic.cpp:49-57 | a source mode is stored for existing sources, without new arbitration |
| Aplic.Aplic.WriteDelivery | rvi/aplic.cpp:138-146 | the register is stored, and arbitration done again for the value one |
| Aplic.Aplic.WriteThreshold | rvi/aplic.cpp:148-153 | the threshold is stored and arbitration done again |
| Aplic.Aplic.WriteTarget | rvi/aplic.cpp:59-75 | only priorities from 1 to the maximum are accepted, without new arbitration |
| Aplic.Aplic.ReadClaim | rvi/aplic.cpp:99-108 | the read returns the cached claim and acknowledges it unless its source is level-sensitive |
| Aplic.Aplic.Reset | rvi/aplic.cpp:178-183 | all registers return to zero, the core line is not driven |
| Clint.PeriodsIsQuotient | sifive/clint.cpp:80 | counted periods are the floor of elapsed time by clock period |
| Clint.UpdateInvisible | sifive/clint.cpp:78-92 | an update changes the free-running value at no later instant, and mtime shows that value at its own |
| Clint.DriftFree | sifive/clint.cpp:32-43 | with a constant clock, after any looks and compare writes mtime is start plus elapsed whole periods modulo 2^64 |
| Clint.TimeIsConserved | sifive/clint.cpp:61-92 | across any clock changes, counted ticks times their periods plus a remainder below one period make up the elapsed time |
| Clint.UpdateBeforeCrossing | sifive/clint.cpp:82-89 | an update before the crossing leaves the crossing instant unchanged and re-arms the event |
| Clint.StaysArmed | sifive/clint.cpp:82-89 | so does any sequence of them |
| Clint.WakeUp | sifive/clint.cpp:78-92 | under arbitrary re-scheduling the line rises not before the crossing and less than one clock period after it |
| Clint.LineShowsComparison | sifive/clint.cpp:78-92 | after every event of every run, unless the clock is off, the line is high if and only if mtimecmp is at most mtime; high, no event is pending, low, it is scheduled at the crossing or less than one period after it |
| Clint.LineIsFreeRunning | sifive/clint.cpp:78-92 | with a constant clock the line is high after an event if and only if the compare value written last is at most what a free-running counter shows |
| Clint.LineStaysHigh | sifive/clint.cpp:78-92 | so it stays high through any looks until the counter wraps |
| Clint.CompareHolds | sifive/clint.cpp:32-38 | in every run mtimecmp is the value written last |
| Clint.Clint.UpdateMtime | sifive/clint.cpp:78-92 | time stamp, counter, line and event are those of the update specification |
| Clint.Clint.ClockChange | sifive/clint.cpp:61-65 | a clock change settles the old period before the new one counts |
| Clint.Clint.WriteMtimecmp | sifive/clint.cpp:32-38 | the compare value is stored before time is brought up to date |
| Clint.ResetCountsOn | sifive/clint.cpp:69-92 | after a reset, with a constant clock, every look shows the periods elapsed since the time stamp from before the reset |
| Clint.RestartsIff | sifive/clint.cpp:69-92 | at all later instants the counter shows what one started at the reset would if and only if a whole number of full turns lies between time stamp and reset, as when both are the same instant |
| Clint.Clint.Reset | sifive/clint.cpp:69-76 | registers zero and line low; time stamp and pending event stay |
| Clint.Clint.ReadMtime | sifive/clint.cpp:39-43 | the value read is that of a free-running counter |
| SpiSerial.SerialRoundTrip | pulpino/spi_master.h:492-506 | bits or nibbles of a word, shifted down and accumulated as the receive loops do, rebuild the word |
| SpiSerial.CyclesCarryBits | pulpino/spi_master.h:492-506 | the cycles of a field put its consecutive bits on the data lines, and zeros past the end of the word |
| SpiSpec.WriteTransfer | pulpino/spi_master.h:365-490 | for 1 to 65504 bits, any run that reaches FINISHED under arbitrary pushes has sent exactly ceil(bits/32) words in FIFO order, the rest still queued |
| SpiSpec.DeviceReadsSent | pulpino/spi_master.h:611-640 | at every moment of the transfer a device on the bus has assembled exactly the words sent |
| SpiSpec.TransferOnBus | pulpino/spi_master.h:508-685 | until it finishes, a transfer has put on the bus exactly the select, the command and address that have a length, the dummy cycles, and one burst for each word sent |
| SpiSpec.CommandOnBus | pulpino/spi_master.h:537-553 | the command cycles carry the leading bits of SPICMD, most significant first |
| SpiSpec.AddressOnBus | pulpino/spi_master.h:555-571 | the address cycles carry the trailing bits of SPIADR, most significant first |
| SpiSpec.TooLongNeverFinishes | pulpino/spi_master.h:163 | above 65504 bits the 16-bit counter wraps and no run ever finishes |
| SpiSpec.FedTransferFinishes | pulpino/spi_master.h:437-457 | if software offers a word at every clock, the transfer finishes within 2 ceil(bits/32) + 5 rounds |
| SpiSpec.NextTransferStarts | pulpino/spi_master.h:481-488 | after a transfer the machine stays in FINISHED or has nothing going on, the latter at once if RX_STATUS is zero; a WR or QWR write then starts a transfer that meets the premises of the results above, with the words already queued |
| SpiSpec.WrittenStatusForgotten | pulpino/spi_master.h:525-528 | the first round of a write transfer sets TX_STATUS to its value at the last push outside a transfer, whatever the STATUS write and pushes since then made of it |
| SpiSpec.QueuedWordsShow | pulpino/spi_master.h:302-316 | words queued at rest are what TX_STATUS shows after the first round of the transfer that sends them, whatever the STATUS write stored there |
| SpiSpec.TxStatusFollows | pulpino/spi_master.h:302-321 | from its first round on, through a write transfer and after it, TX_STATUS follows the FIFO, four for each word, modulo 256 |
| SpiSpec.DataTxRound | pulpino/spi_master.h:437-449 | after each data word: FINISHED once the words sent make up the length, else the next word if there is one, else a wait |
| SpiSpec.WaitsArePushes | pulpino/spi_master.h:611-640 | pushing at each wait of a burst is pushing all the words at once |
| SpiRead.ReadTransfer | pulpino/spi_master.h:641-671 | for 1 to 65504 bits, any read that reaches FINISHED has received exactly ceil(bits/32) words, those the device delivered; what software has read, followed by the FIFO, is what was queued before and then these, in order |
| SpiRead.ReceivesDelivered | pulpino/spi_master.h:641-671 | at every moment of every run exactly the words delivered in rounds of DATA_RX have been received, in order |
| SpiRead.TransferOnBus | pulpino/spi_master.h:508-685 | until it finishes, a read has put on the bus exactly the select, the command and address that have a length, its dummy cycles, and one announced burst for each word received |
| SpiRead.DataRxRound | pulpino/spi_master.h:459-471 | after each word: FINISHED once the words received make up the length, else the next word if fewer than two are queued, else a wait |
| SpiRead.RxStatusCounts | pulpino/spi_master.h:323-332 | in every run RX_STATUS grows by 32 for each word received and shrinks by 32 for each word read, modulo 256 |
| SpiRead.WaitRxRound | pulpino/spi_master.h:473-479 | WAIT_RX is left if and only if exactly one word is in the FIFO |
| SpiRead.EmptiedReadStalls | pulpino/spi_master.h:473-479 | once the FIFO has been emptied in WAIT_RX no run ever goes on |
| SpiRead.ThreeWordReadStalls | pulpino/spi_master.h:473-479 | such a run from rest: a read of 96 bits of which software reads two words as soon as the FIFO is full |
| SpiRead.ServedReadFinishes | pulpino/spi_master.h:459-479 | if software leaves exactly one word at every wait, the read finishes within 2 ceil(bits/32) + 5 rounds |
| SpiMaster.SpiMaster.BeginWrite | pulpino/spi_master.h:242-279 | the STATUS write stores its TX_STATUS and RX_STATUS fields (`pulpino/spi_master.h:76-77`) and starts a write transfer, in standard or quad mode, unless one is in progress; started from rest, the transfer meets the premises of the transfer results |
| SpiMaster.SpiMaster.BeginRead | pulpino/spi_master.h:255-292 | so does a read transfer, and started from rest it meets the premises of the read results |
| SpiMaster.SpiMaster.RxRead | pulpino/spi_master.h:323-336 | a read of RXFIFO returns and removes the front word and counts it off RX_STATUS, or returns zero if there is none |
| SpiMaster.SpiMaster.ReceiveCycles | pulpino/spi_master.h:641-671 | the receive loop or-s every sample in at its place, whatever is pushed meanwhile, and counts 32 bits |
| SpiMaster.SpiMaster.TxWrite | pulpino/spi_master.h:302-321 | a push is refused in read mode and dropped when two words are queued, else appended and counted |
| SpiMaster.SpiMaster.SendField | pulpino/spi_master.h:537-571 | the command and address loops put the consecutive bits of their register on the bus, whatever is pushed meanwhile |
| SpiMaster.SpiMaster.SendCycles | pulpino/spi_master.h:611-640 | the data loop puts all cycles of the front word on the bus and counts 32 bits, whatever is pushed meanwhile |
| SpiMaster.SpiMaster.ActOnState | pulpino/spi_master.h:523-682 | the body of every state changes the registers and puts on the bus what the specification says, announcement and cycles |
| SpiMaster.SpiMaster.ControlRound | pulpino/spi_master.h:508-685 | one pass of the control thread is one round of the transfer specification, with exactly its bus traffic |
| SpiMaster.SpiMaster.ChangeState | pulpino/spi_master.h:365-490 | the next state is that of the transfer specification |
| Dma.StridedCopy | minres/dma.cpp:71-105 | byte dst + k * dst_stride + i ends up with the original byte src + k * src_stride + i, for all segments k and bytes i, and every byte outside the destination segments is kept |
| Dma.SegmentBytes | minres/dma.cpp:73 | a segment has seg_length times two to the power of width bytes |
| Dma.AddressesAdvance | minres/dma.cpp:97-98 | after n segments each address is its start plus n strides, modulo 2^32 |
| Dma.DisjointFootprintsCopyCleanly | minres/dma.cpp:71-105 | disjoint footprints and a destination stride of at least a segment are enough for the strided copy |
| Dma.FailureStays | minres/dma.cpp:85-95 | after a failed transaction nothing changes any more |
| Dma.Dma.DoTransfer | minres/dma.cpp:71-105 | the segment loop computes the specified memory, addresses and segment interrupt; segments that copy cleanly succeed, byte i of segment k goes to its place for all i below seg_length * 2^width, and no other byte changes |
| Dma.Dma.TransferCh0 | minres/dma.cpp:107-124 | the same between the addresses in the start registers; a transfer clears busy, raises its done flag and drives the interrupt high for enabled causes and only then; a failed one does neither |

## Left out

- PlicSpec.Next: what a completion that leaves the arrays overwrites; the model stores nothing. The `ignore_threshold` flag, which no caller sets.
- PlicSpec.State: sized to hold id NUM_SOURCES; the generated register file has one priority entry less (`rvi/gen/plic_regs.h:33`).
- AplicSpec.Event: software writes to top and claim, setipnum and clripnum, which have no callback, and MSI delivery.
- Clint.Event: writes of mtime, which add the ticks elapsed before the write to the value written, and the software interrupt register.
- Clint.Update: times are natural multiples of the simulator resolution and the quotient is exact; the rounding of the floating-point division of two times is not modelled.
- SpiSpec.Lengths: command and address lengths above 32 bits, for which the code shifts a word by more than its width.
- SpiSpec.Act: software reset, STATUS and length writes during a transfer, RXFIFO reads during a write transfer or between the bus cycles of one state, and STATUS writes that set several transfer bits; the finished bit; the validity check of chip selects and the clock divider.
- EthTx.TransmitRoundTrip: no flush inside a frame; a flush empties the ring but not the transmit phase (`minres/ethmac.cpp:237-238`).
- EthTx.Write: util::ring_buffer is not part of this model; a push on a full ring is taken to be refused. By EthTx.RoomThroughout that matters only for aligned frames of 4095 and 4096 bytes, and for frames that are never sent.
- EthRx.Event: runs in which rx_flush or the alignment setting changes; the build without EMULATE_CRC, which leaves out the bit loop.
- EthMac.EthMac: the MDIO and SPI registers, the second interrupt output, event outputs, and packet capture.
- HostPhy.Walk: the reads of ports and sequence number (`generic/host_phy.cpp:154-155`, `generic/host_phy.cpp:169`), whose values are not used; raw sockets, threads and MAC address mapping.
- Dma.Dma: channel 1, which uses the strides and interrupt bits of channel 0, and the register writes that start a transfer.
- Variants built with SC_SIGNAL_IF; logging, transport phases and delta cycles.
- The remaining timers, GPIO, UART, PWM and the older interrupt controllers, which are simpler relatives or register plumbing.
