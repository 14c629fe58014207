/** The controller of rvi/aplic.cpp as it is written: register arrays with packed pending and enable
    bits, and write callbacks that loop over the bits of a word. Each callback refines one event of
    AplicSpec. */
module Aplic {
  import opened Bits
  import S = AplicSpec

  const WORDS := 32

  function ShiftRight(data: nat, k: nat): nat {
    if k == 0 then data else ShiftRight(data / 2, k - 1)
  }

  /** `(data >> k) & 1` of a written word. */
  predicate DataBit(data: nat, k: nat) {
    ShiftRight(data, k) % 2 == 1
  }

  /** `id` lies in the word at `index` and its bit is one in `data`. */
  ghost predicate Selects(index: nat, data: nat, id: nat) {
    32 * index <= id < 32 * index + 32 && DataBit(data, id - 32 * index)
  }

  /** The selected ids among the first `k` bits. */
  ghost function IdsBelow(index: nat, data: nat, k: nat): set<nat>
    requires k <= 32
  {
    set id: nat | id < 32 * index + k && Selects(index, data, id)
  }

  lemma IdsBelowNext(index: nat, data: nat, k: nat)
    requires k < 32
    ensures IdsBelow(index, data, k + 1) == IdsBelow(index, data, k) + if DataBit(data, k) then {32 * index + k} else {}
  {
  }

  lemma IdsBelowNone(index: nat, data: nat)
    ensures IdsBelow(index, data, 0) == {}
  {
  }

  class Aplic {
    const ports: nat
    const maxPriority: nat
    const sourcecfg: array<nat>
    const targetcfg: array<nat>
    const pending: array<bv32>
    const enabled: array<bv32>
    var threshold: nat
    var delivery: nat
    var interruptEnable: bool
    var top: S.Grant
    var claim: S.Grant
    /** The interrupt output to the core. */
    var line: bool

    ghost predicate Valid()
      reads this
    {
      && ports <= S.ENTRIES && claim.id < S.ENTRIES
      && sourcecfg.Length == S.ENTRIES && targetcfg.Length == S.ENTRIES
      && pending.Length == WORDS && enabled.Length == WORDS
      && sourcecfg != targetcfg && pending != enabled
    }

    /** The abstract controller that the registers stand for. */
    ghost function State(): (s: S.State)
      requires Valid()
      reads this, sourcecfg, targetcfg, pending, enabled
      ensures s.Valid() && s.ports == ports
    {
      S.State(ports, maxPriority, sourcecfg[..], targetcfg[..], Ids(pending[..]), Ids(enabled[..]),
              threshold, delivery, interruptEnable, top, claim, line)
    }

    /** A controller out of reset, for at most the 1023 interrupts an APLIC may support. */
    constructor (ports: nat, maxPriority: nat)
      requires ports <= S.ENTRIES
      ensures Valid() && S.Initial(State())
      ensures fresh(sourcecfg) && fresh(targetcfg) && fresh(pending) && fresh(enabled)
    {
      this.ports, this.maxPriority := ports, maxPriority;
      sourcecfg := new nat[S.ENTRIES](_ => 0);
      targetcfg := new nat[S.ENTRIES](_ => 0);
      pending := new bv32[WORDS](_ => 0);
      enabled := new bv32[WORDS](_ => 0);
      threshold, delivery, interruptEnable := 0, 0, false;
      top, claim, line := S.NONE, S.NONE, false;
      new;
      IdsOfZeros(pending[..]);
      IdsOfZeros(enabled[..]);
    }

    function Mode(irq: nat): (mode: nat)
      requires Valid() && irq <= S.ENTRIES
      reads this, sourcecfg
    {
      if irq == 0 then S.INACTIVE else sourcecfg[irq - 1] % 256
    }

    function Priority(irq: nat): nat
      requires Valid() && irq <= S.ENTRIES
      reads this, targetcfg
    {
      if irq == 0 then 0 else targetcfg[irq - 1] % 256
    }

    /** write_irq: reaches the core only while interrupts are delivered. */
    method WriteIrq(value: bool)
      modifies this`line
      ensures line == if delivery == 1 && interruptEnable then value else old(line)
    {
      if delivery == 1 && interruptEnable {
        line := value;
      }
    }

    /** The priority of a source, and whether it is enabled, pending and below the threshold. */
    method Contributes(irq: nat) returns (b: bool, prio: nat)
      requires Valid() && 1 <= irq < ports
      ensures prio == State().Priority(irq)
      ensures b && prio > 0 <==> State().Passes(irq)
    {
      var isPending := Bit(pending[irq / 32], irq % 32);
      var isEnabled := Bit(enabled[irq / 32], irq % 32);
      InIds(pending[..], irq);
      InIds(enabled[..], irq);
      prio := Priority(irq);
      b := isEnabled && isPending && (threshold == 0 || prio < threshold);
    }

    /** The pass of handle_pending_int over the sources. */
    method Scan() returns (claimInt: nat, claimPrio: nat)
      requires Valid()
      ensures claimInt == State().Best()
      ensures claimPrio == State().Priority(claimInt)
    {
      ghost var s := State();
      claimInt, claimPrio := 0, 0;
      var irq := 1;
      while irq < ports
        invariant irq == 1 || 1 <= irq <= ports
        invariant claimInt == s.BestUpTo(irq - 1) && claimPrio == s.Priority(claimInt)
      {
        S.BestUpToStep(s, irq, claimInt, claimPrio);
        var contributes, prio := Contributes(irq);
        if contributes {
          if prio > claimPrio {
            claimPrio, claimInt := prio, irq;
          }
        }
        irq := irq + 1;
      }
    }

    /** handle_pending_int: the caches and the line take the result of the pass. */
    method HandlePendingInt()
      requires Valid()
      modifies this`top, this`claim, this`line
      ensures Valid() && State() == old(State()).Refreshed()
    {
      var claimInt, claimPrio := Scan();
      if claimInt != 0 {
        top := S.Grant(claimPrio, claimInt);
        claim := S.Grant(claimPrio, claimInt);
        WriteIrq(true);
      } else {
        top, claim := S.NONE, S.NONE;
      }
    }

    method SetPendingBit(irq: nat)
      requires Valid() && irq <= S.ENTRIES
      modifies pending
      ensures Valid() && State() == old(State()).(pending := old(State()).pending + {irq})
    {
      ghost var words := pending[..];
      IdsAfterSet(words, irq);
      pending[irq / 32] := SetBit(pending[irq / 32], irq % 32);
      assert pending[..] == words[irq / 32 := SetBit(words[irq / 32], irq % 32)];
    }

    method ClearPendingBit(irq: nat)
      requires Valid() && irq <= S.ENTRIES
      modifies pending
      ensures Valid() && State() == old(State()).(pending := old(State()).pending - {irq})
    {
      ghost var words := pending[..];
      IdsAfterClear(words, irq);
      pending[irq / 32] := ClearBit(pending[irq / 32], irq % 32);
      assert pending[..] == words[irq / 32 := ClearBit(words[irq / 32], irq % 32)];
    }

    method IsPending(irq: nat) returns (b: bool)
      requires Valid() && irq <= S.ENTRIES
      ensures b <==> irq in State().pending
    {
      b := Bit(pending[irq / 32], irq % 32);
      InIds(pending[..], irq);
    }

    /** reset_pending_int. */
    method ResetPendingInt(irq: nat)
      requires Valid() && irq <= S.ENTRIES
      modifies pending, this`top, this`claim, this`line
      ensures Valid() && State() == old(State()).Cleared({irq})
    {
      ClearPendingBit(irq);
      WriteIrq(false);
      HandlePendingInt();
    }

    /** external_global_interrupts_cb with external_global_interrupts_handling. */
    method WireChange(irq: nat, value: bool)
      requires Valid() && 1 <= irq < ports
      modifies pending, this`top, this`claim, this`line
      ensures Valid() && State() == S.Next(old(State()), S.Wire(irq, value))
    {
      var mode := Mode(irq);
      if mode == S.INACTIVE {
        return;
      }
      var inverted := mode == S.EDGE_FALLING || mode == S.LEVEL_LOW;
      var rectified := value != inverted;
      var handlePending := false;
      if rectified {
        SetPendingBit(irq);
        handlePending := true;
      }
      if mode == S.LEVEL_HIGH || mode == S.LEVEL_LOW {
        var isPending := IsPending(irq);
        if !rectified && isPending {
          ResetPendingInt(irq);
        }
      }
      if handlePending {
        HandlePendingInt();
      }
    }

    // -------------------------------------------------------------- per-bit write loops

    /** One bit of register_pending_callback. */
    method SetIpBit(irq: nat)
      requires Valid() && irq <= S.ENTRIES
      modifies pending, this`top, this`claim, this`line
      ensures Valid() && State() == S.AfterSetIp(old(State()), {irq})
    {
      S.SetIpOfOne(State(), irq);
      if irq > ports {
        return;
      }
      var mode := Mode(irq);
      if !(mode == S.LEVEL_HIGH || mode == S.LEVEL_LOW) {
        if S.IsActive(mode) {
          SetPendingBit(irq);
          HandlePendingInt();
        }
      }
    }

    /** One iteration of the loop over the bits of a word. */
    method SetIpStep(ghost s: S.State, ghost ids: set<nat>, irq: nat, value: bool)
      requires Valid() && irq <= S.ENTRIES && s.Valid() && State() == S.AfterSetIp(s, ids)
      modifies pending, this`top, this`claim, this`line
      ensures Valid() && State() == S.AfterSetIp(s, ids + if value then {irq} else {})
    {
      if value {
        S.SetIpOneMore(s, ids, irq);
        SetIpBit(irq);
      } else {
        assert ids + {} == ids;
      }
    }

    /** register_pending_callback: the setip word at `index`. */
    method WriteSetIp(index: nat, data: nat)
      requires Valid() && index < WORDS
      modifies pending, this`top, this`claim, this`line
      ensures Valid() && State() == S.Next(old(State()), S.WriteSetIp(IdsBelow(index, data, 32)))
    {
      ghost var s := State();
      S.SetIpOfNone(s);
      IdsBelowNone(index, data);
      for bit := 0 to 32
        invariant Valid() && State() == S.AfterSetIp(s, IdsBelow(index, data, bit))
      {
        IdsBelowNext(index, data, bit);
        var value := DataBit(data, bit);
        SetIpStep(s, IdsBelow(index, data, bit), 32 * index + bit, value);
      }
    }

    /** One bit of register_clrpending_callback. */
    method ClrIpBit(irq: nat)
      requires Valid() && irq <= S.ENTRIES
      modifies pending, this`top, this`claim, this`line
      ensures Valid() && State() == S.AfterClrIp(old(State()), {irq})
    {
      S.ClrIpOfOne(State(), irq);
      if irq > ports {
        return;
      }
      var mode := Mode(irq);
      if !(mode == S.LEVEL_HIGH || mode == S.LEVEL_LOW) {
        var isPending := IsPending(irq);
        if S.IsActive(mode) && isPending {
          ResetPendingInt(irq);
        }
      }
    }

    /** One iteration of the loop over the bits of a word. */
    method ClrIpStep(ghost s: S.State, ghost ids: set<nat>, irq: nat, value: bool)
      requires Valid() && irq <= S.ENTRIES && s.Valid() && State() == S.AfterClrIp(s, ids)
      modifies pending, this`top, this`claim, this`line
      ensures Valid() && State() == S.AfterClrIp(s, ids + if value then {irq} else {})
    {
      if value {
        S.ClrIpOneMore(s, ids, irq);
        ClrIpBit(irq);
      } else {
        assert ids + {} == ids;
      }
    }

    /** register_clrpending_callback: the in_clrip word at `index`. */
    method WriteClrIp(index: nat, data: nat)
      requires Valid() && index < WORDS
      modifies pending, this`top, this`claim, this`line
      ensures Valid() && State() == S.Next(old(State()), S.WriteClrIp(IdsBelow(index, data, 32)))
    {
      ghost var s := State();
      S.ClrIpOfNone(s);
      IdsBelowNone(index, data);
      for bit := 0 to 32
        invariant Valid() && State() == S.AfterClrIp(s, IdsBelow(index, data, bit))
      {
        IdsBelowNext(index, data, bit);
        var value := DataBit(data, bit);
        ClrIpStep(s, IdsBelow(index, data, bit), 32 * index + bit, value);
      }
    }

    /** One bit of register_enabled_callback, and the whole of a setienum write. */
    method SetIeBit(irq: nat)
      requires Valid()
      modifies enabled, this`top, this`claim, this`line
      ensures Valid() && State() == S.AfterSetIe(old(State()), {irq})
    {
      S.SetIeOfOne(State(), irq);
      if irq > ports {
        return;
      }
      if S.IsActive(Mode(irq)) {
        ghost var words := enabled[..];
        IdsAfterSet(words, irq);
        enabled[irq / 32] := SetBit(enabled[irq / 32], irq % 32);
        assert enabled[..] == words[irq / 32 := SetBit(words[irq / 32], irq % 32)];
        HandlePendingInt();
      }
    }

    method WriteSetIeNum(irq: nat)
      requires Valid()
      modifies enabled, this`top, this`claim, this`line
      ensures Valid() && State() == S.Next(old(State()), S.WriteSetIeNum(irq))
    {
      SetIeBit(irq);
    }

    /** One iteration of the loop over the bits of a word. */
    method SetIeStep(ghost s: S.State, ghost ids: set<nat>, irq: nat, value: bool)
      requires Valid() && irq <= S.ENTRIES && s.Valid() && State() == S.AfterSetIe(s, ids)
      modifies enabled, this`top, this`claim, this`line
      ensures Valid() && State() == S.AfterSetIe(s, ids + if value then {irq} else {})
    {
      if value {
        S.SetIeOneMore(s, ids, irq);
        SetIeBit(irq);
      } else {
        assert ids + {} == ids;
      }
    }

    /** register_enabled_callback: the setie word at `index`. */
    method WriteSetIe(index: nat, data: nat)
      requires Valid() && index < WORDS
      modifies enabled, this`top, this`claim, this`line
      ensures Valid() && State() == S.Next(old(State()), S.WriteSetIe(IdsBelow(index, data, 32)))
    {
      ghost var s := State();
      S.SetIeOfNone(s);
      IdsBelowNone(index, data);
      for bit := 0 to 32
        invariant Valid() && State() == S.AfterSetIe(s, IdsBelow(index, data, bit))
      {
        IdsBelowNext(index, data, bit);
        var value := DataBit(data, bit);
        SetIeStep(s, IdsBelow(index, data, bit), 32 * index + bit, value);
      }
    }

    /** One iteration of the loop over the bits of a clrie word. */
    method ClrIeStep(ghost s: S.State, ghost ids: set<nat>, irq: nat, value: bool)
      requires Valid() && irq <= S.ENTRIES && s.Valid() && State() == S.AfterClrIe(s, ids)
      modifies enabled
      ensures Valid() && State() == S.AfterClrIe(s, ids + if value then {irq} else {})
    {
      if value && irq <= ports {
        ghost var words := enabled[..];
        IdsAfterClear(words, irq);
        enabled[irq / 32] := ClearBit(enabled[irq / 32], irq % 32);
        assert enabled[..] == words[irq / 32 := ClearBit(words[irq / 32], irq % 32)];
      }
      if value {
        S.ClrIeOneMore(s, ids, irq);
      } else {
        assert ids + {} == ids;
      }
    }

    /** register_clrenabled_callback: the clrie word at `index`. */
    method WriteClrIe(index: nat, data: nat)
      requires Valid() && index < WORDS
      modifies enabled
      ensures Valid() && State() == S.Next(old(State()), S.WriteClrIe(IdsBelow(index, data, 32)))
    {
      ghost var s := State();
      IdsBelowNone(index, data);
      for bit := 0 to 32
        invariant Valid() && State() == S.AfterClrIe(s, IdsBelow(index, data, bit))
      {
        IdsBelowNext(index, data, bit);
        var value := DataBit(data, bit);
        ClrIeStep(s, IdsBelow(index, data, bit), 32 * index + bit, value);
      }
    }

    // -------------------------------------------------------------- the other register callbacks

    /** The domaincfg write: bit 8 is the interrupt enable. */
    method WriteDomainCfg(data: nat)
      requires Valid()
      modifies this`interruptEnable, this`top, this`claim, this`line
      ensures Valid() && State() == S.Next(old(State()), S.WriteDomainCfg(data / 256 % 2 == 1))
    {
      interruptEnable := data / 256 % 2 == 1;
      if interruptEnable {
        HandlePendingInt();
      }
    }

    method WriteSourceCfg(index: nat, data: nat)
      requires Valid() && index < S.ENTRIES
      modifies sourcecfg
      ensures Valid() && State() == S.Next(old(State()), S.WriteSourceCfg(index + 1, data))
    {
      if index + 1 <= ports {
        sourcecfg[index] := data;
      }
    }

    method WriteTarget(index: nat, data: nat)
      requires Valid() && index < S.ENTRIES
      modifies targetcfg
      ensures Valid() && State() == S.Next(old(State()), S.WriteTarget(index + 1, data))
    {
      if index + 1 <= ports {
        var irqPriority := data % 256;
        if irqPriority <= maxPriority {
          if irqPriority != 0 {
            targetcfg[index] := data;
          }
        }
      }
    }

    method WriteDelivery(data: nat)
      requires Valid()
      modifies this`delivery, this`top, this`claim, this`line
      ensures Valid() && State() == S.Next(old(State()), S.WriteDelivery(data))
    {
      delivery := data;
      if delivery == 1 {
        HandlePendingInt();
      }
    }

    method WriteThreshold(data: nat)
      requires Valid()
      modifies this`threshold, this`top, this`claim, this`line
      ensures Valid() && State() == S.Next(old(State()), S.WriteThreshold(data))
    {
      threshold := data;
      HandlePendingInt();
    }

    /** The claim read returns the cached grant and acknowledges it unless its source is a level. */
    method ReadClaim() returns (data: S.Grant)
      requires Valid()
      modifies pending, this`top, this`claim, this`line
      ensures Valid() && State() == S.Next(old(State()), S.ReadClaim)
      ensures data == old(claim)
    {
      data := claim;
      var mode := Mode(claim.id);
      if claim != S.NONE {
        if !(mode == S.LEVEL_HIGH || mode == S.LEVEL_LOW) {
          ResetPendingInt(claim.id);
        }
      }
    }

    /** reset_cb: the registers return to zero, the core line keeps its state. */
    method Reset()
      requires Valid()
      modifies this, sourcecfg, targetcfg, pending, enabled
      ensures Valid() && State() == S.Next(old(State()), S.Reset)
      ensures line == old(line)
    {
      ZeroRegisters(sourcecfg);
      ZeroRegisters(targetcfg);
      ZeroWords(pending);
      ZeroWords(enabled);
      threshold, delivery, interruptEnable := 0, 0, false;
      top, claim := S.NONE, S.NONE;
    }
  }
}
