/** What the callbacks of rvi/aplic.cpp do to its registers, source by source and in terms of register
    values alone: which events set and clear a pending or enable bit, what a claim read acknowledges, and
    what repeated claim reads return. */
module AplicRegisters {
  import opened AplicSpec

  /** The low byte of the sourcecfg register of a source: 1 detached, 4 and 5 rising and falling edge, 6 and
      7 high and low level; 0, and the reserved values, as they stand. */
  function ModeField(s: State, irq: nat): nat
    requires s.Valid() && 1 <= irq <= ENTRIES
  {
    s.sourcecfg[irq - 1] % 256
  }

  function PriorityField(s: State, irq: nat): nat
    requires s.Valid() && 1 <= irq <= ENTRIES
  {
    s.target[irq - 1] % 256
  }

  // ---------------------------------------------------------------- bits

  /** The pending bit of a source after its wire has changed, by source mode and level. */
  function WireSets(mode: nat, wire: bool, was: bool): bool {
    if mode == 0 then was
    else if mode == 6 then wire
    else if mode == 7 then !wire
    else if mode == 5 then was || !wire
    else was || wire
  }

  /** Software may set and clear the pending bit of detached and edge-sensitive sources only. */
  predicate Writable(mode: nat) {
    mode == 1 || mode == 4 || mode == 5
  }

  predicate Wired(mode: nat) {
    Writable(mode) || mode == 6 || mode == 7
  }

  /** Every way in which a pending bit can change. */
  lemma PendingBit(s: State, e: Event, irq: nat)
    requires s.Valid() && e.Addresses(s) && 1 <= irq <= s.ports
    ensures irq in Next(s, e).pending <==>
            match e
            case Wire(i, wire) =>
              if i == irq then WireSets(ModeField(s, irq), wire, irq in s.pending) else irq in s.pending
            case WriteSetIp(ids) => irq in s.pending || (irq in ids && Writable(ModeField(s, irq)))
            case WriteClrIp(ids) => irq in s.pending && !(irq in ids && Writable(ModeField(s, irq)))
            case ReadClaim =>
              irq in s.pending && (s.claim.id != irq || ModeField(s, irq) == 6 || ModeField(s, irq) == 7)
            case Reset => false
            case _ => irq in s.pending
  {
    match e
    case WriteSetIp(ids) => assert irq in s.SettableIn(ids) <==> irq in ids && Writable(ModeField(s, irq));
    case WriteClrIp(ids) =>
      assert irq in s.ClearableIn(ids) <==> irq in ids && irq in s.pending && Writable(ModeField(s, irq));
    case _ =>
  }

  /** Every way in which an enable bit can change. */
  lemma EnableBit(s: State, e: Event, irq: nat)
    requires s.Valid() && e.Addresses(s) && 1 <= irq <= s.ports
    ensures irq in Next(s, e).enabled <==>
            match e
            case WriteSetIe(ids) => irq in s.enabled || (irq in ids && Wired(ModeField(s, irq)))
            case WriteSetIeNum(i) => irq in s.enabled || (irq == i && Wired(ModeField(s, irq)))
            case WriteClrIe(ids) => irq in s.enabled && irq !in ids
            case Reset => false
            case _ => irq in s.enabled
  {
    match e
    case WriteSetIe(ids) => assert irq in s.EnableableIn(ids) <==> irq in ids && Wired(ModeField(s, irq));
    case WriteSetIeNum(i) => assert irq in s.EnableableIn({i}) <==> irq == i && Wired(ModeField(s, irq));
    case _ =>
  }

  // ---------------------------------------------------------------- arbitration

  /** Pending, enabled, with a priority, and silenced by no threshold. */
  predicate Contends(s: State, irq: nat)
    requires s.Valid()
  {
    && 1 <= irq < s.ports && irq in s.pending && irq in s.enabled && PriorityField(s, irq) > 0
    && (s.threshold == 0 || PriorityField(s, irq) < s.threshold)
  }

  /** `i` is granted before `j`: by larger priority, then by smaller number. */
  predicate Precedes(s: State, i: nat, j: nat)
    requires s.Valid() && 1 <= i <= ENTRIES && 1 <= j <= ENTRIES
  {
    PriorityField(s, i) > PriorityField(s, j) || (PriorityField(s, i) == PriorityField(s, j) && i < j)
  }

  ghost predicate First(s: State, irq: nat)
    requires s.Valid()
  {
    Contends(s, irq) && forall j: nat | Contends(s, j) && j != irq :: Precedes(s, irq, j)
  }

  /** `g` names the source that is granted first, with its priority; zero if none contends. */
  ghost predicate Names(s: State, g: Grant)
    requires s.Valid()
  {
    if g == Grant(0, 0) then forall j: nat :: !Contends(s, j)
    else First(s, g.id) && g.priority == PriorityField(s, g.id)
  }

  lemma ContendsPasses(s: State)
    requires s.Valid()
    ensures forall j: nat :: Contends(s, j) <==> s.Passes(j)
  {
  }

  lemma ArbitrationNames(s: State)
    requires s.Valid()
    ensures Names(s, s.Arbitrate())
    ensures forall g | Names(s, g) :: g == s.Arbitrate()
  {
    ContendsPasses(s);
    BestWins(s);
  }

  /** A claim read acknowledges the interrupt that it returns: its pending bit, and no other, is cleared,
      both caches name the first of the remaining sources, and while interrupts are delivered the line is high
      exactly if there is one. For a level-sensitive source, and when there is nothing to claim, it changes
      nothing. */
  lemma ReadClaimAcknowledges(s: State)
    requires s.Valid()
    ensures var t, id := Next(s, ReadClaim), s.claim.id;
            if s.claim == Grant(0, 0) || (id > 0 && (ModeField(s, id) == 6 || ModeField(s, id) == 7)) then t == s
            else
              && t == s.(pending := s.pending - {id}, top := t.top, claim := t.claim, line := t.line)
              && Names(t, t.claim) && t.top == t.claim
              && t.line == if s.delivery == 1 && s.interruptEnable then t.claim != Grant(0, 0) else s.line
  {
    var t := s.(pending := s.pending - {s.claim.id}, line := s.line && !s.Delivering());
    ArbitrationNames(t);
    SameNames(t, t.Refreshed(), t.Arbitrate());
  }

  /** Contention reads neither the caches nor the line. */
  lemma SameNames(s: State, t: State, g: Grant)
    requires s.Valid() && t.Valid() && t == s.(top := t.top, claim := t.claim, line := t.line)
    ensures Names(s, g) <==> Names(t, g)
  {
    assert forall j: nat :: Contends(s, j) <==> Contends(t, j);
    assert forall i: nat, j: nat | 1 <= i <= ENTRIES && 1 <= j <= ENTRIES :: Precedes(s, i, j) <==> Precedes(t, i, j);
  }

  /** The caches name the first contending source after every callback that arbitrates or acknowledges, and
      after a reset; any other leaves them alone. */
  lemma CachesAfter(s: State, e: Event)
    requires s.Valid() && e.Addresses(s)
    ensures var t := Next(s, e);
            if Arbitrates(s, e) || Releases(s, e) || e.Reset? then Names(t, t.claim) && t.top == t.claim
            else t.claim == s.claim && t.top == s.top
  {
    var t := Next(s, e);
    if Arbitrates(s, e) || Releases(s, e) {
      SameBest(t, t.Refreshed());
      ArbitrationNames(t);
      ArbitratedCaches(s, e);
    }
  }

  lemma ArbitratedCaches(s: State, e: Event)
    requires s.Valid() && e.Addresses(s) && (Arbitrates(s, e) || Releases(s, e))
    ensures Next(s, e).claim == Next(s, e).top == Next(s, e).Arbitrate()
  {
    if Arbitrates(s, e) {
      RefreshedAgrees(AplicSpec.Before(s, e));
    } else {
      match e
      case Wire(irq, _) => ClearedAgrees(s, {irq});
      case WriteClrIp(ids) => ClearedAgrees(s, s.ClearableIn(ids));
      case _ => ClearedAgrees(s, {s.claim.id});
    }
  }

  /** A low line rises exactly when such a callback finds something to claim while interrupts are delivered. */
  lemma LineRises(s: State, e: Event)
    requires s.Valid() && e.Addresses(s) && !s.line
    ensures var t := Next(s, e);
            t.line <==> (Arbitrates(s, e) || Releases(s, e)) && t.delivery == 1 && t.interruptEnable
                        && t.claim != Grant(0, 0)
  {
  }

  // ---------------------------------------------------------------- edges

  /** The event takes no pending bit of `irq` away: no reset, no write that clears or reconfigures it, no
      claim read. */
  predicate LeavesPending(e: Event, irq: nat) {
    match e
    case WriteClrIp(ids) => irq !in ids
    case WriteSourceCfg(i, _) => i != irq
    case ReadClaim => false
    case Reset => false
    case _ => true
  }

  lemma {:induction false} PendingStays(s: State, irq: nat, es: seq<Event>)
    requires s.Valid() && WellFormed(s, es) && 1 <= irq <= s.ports && forall e | e in es :: LeavesPending(e, irq)
    requires irq in s.pending && Writable(ModeField(s, irq))
    ensures irq in Run(s, es).pending && ModeField(Run(s, es), irq) == ModeField(s, irq)
  {
    if es != [] {
      var front, e := es[..|es| - 1], es[|es| - 1];
      PendingStays(s, irq, front);
      AddressesKept(s, Run(s, front), e);
      assert e in es;
      PendingBit(Run(s, front), e, irq);
    }
  }

  /** An edge is latched: once the wire of an edge-sensitive source has gone to its active level, high for a
      rising and low for a falling edge, the source stays pending whatever the wire does next, until it is
      claimed, cleared, reconfigured or reset; and the opposite level alone never makes it pending. */
  lemma EdgeLatched(s: State, irq: nat, wire: bool, es: seq<Event>)
    requires s.Valid() && 1 <= irq < s.ports && (ModeField(s, irq) == 4 || ModeField(s, irq) == 5)
    requires WellFormed(Next(s, Wire(irq, wire)), es) && forall e | e in es :: LeavesPending(e, irq)
    ensures if wire == (ModeField(s, irq) == 4) then irq in Run(Next(s, Wire(irq, wire)), es).pending
            else Next(s, Wire(irq, wire)) == s
  {
    PendingBit(s, Wire(irq, wire), irq);
    if wire == (ModeField(s, irq) == 4) {
      PendingStays(Next(s, Wire(irq, wire)), irq, es);
    }
  }

  // ---------------------------------------------------------------- configuration

  /** The configuration that concerns one source. */
  datatype Config = Config(sourcecfg: nat, target: nat, threshold: nat, delivery: nat, interruptEnable: bool)

  function ConfigOf(s: State, irq: nat): Config
    requires s.Valid() && 1 <= irq <= ENTRIES
  {
    Config(s.sourcecfg[irq - 1], s.target[irq - 1], s.threshold, s.delivery, s.interruptEnable)
  }

  /** What the last writes in a run were: sources up to `ports` can be configured, and only with a priority
      from 1 to the maximum. */
  function LastWrites(c: Config, ports: nat, maxPriority: nat, es: seq<Event>, irq: nat): Config {
    if es == [] then c
    else
      var d := LastWrites(c, ports, maxPriority, es[..|es| - 1], irq);
      match es[|es| - 1]
      case WriteSourceCfg(i, data) => if i == irq && irq <= ports then d.(sourcecfg := data) else d
      case WriteTarget(i, data) =>
        if i == irq && irq <= ports && 1 <= data % 256 <= maxPriority then d.(target := data) else d
      case WriteThreshold(data) => d.(threshold := data)
      case WriteDelivery(data) => d.(delivery := data)
      case WriteDomainCfg(enable) => d.(interruptEnable := enable)
      case Reset => Config(0, 0, 0, 0, false)
      case _ => d
  }

  /** In every run the configuration is what was written last; nothing else ever changes it. */
  lemma {:induction false} ConfigurationHolds(s: State, es: seq<Event>, irq: nat)
    requires s.Valid() && WellFormed(s, es) && 1 <= irq <= ENTRIES
    ensures ConfigOf(Run(s, es), irq) == LastWrites(ConfigOf(s, irq), s.ports, s.maxPriority, es, irq)
  {
    if es != [] {
      ConfigurationHolds(s, es[..|es| - 1], irq);
      AddressesKept(s, Run(s, es[..|es| - 1]), es[|es| - 1]);
    }
  }

  // ---------------------------------------------------------------- repeated claims

  ghost function Contenders(s: State): set<nat>
    requires s.Valid()
  {
    set j | j in s.pending && Contends(s, j)
  }

  /** Every source that contends is edge-sensitive or detached, and the claim register is right. */
  ghost predicate Claimable(s: State) {
    && s.Valid() && Names(s, s.claim)
    && forall j: nat | Contends(s, j) :: ModeField(s, j) != 6 && ModeField(s, j) != 7
  }

  lemma ClaimRemovesFirst(s: State)
    requires Claimable(s) && s.claim != Grant(0, 0)
    ensures var t := Next(s, ReadClaim);
            && Claimable(t) && t.target == s.target
            && t.delivery == s.delivery && t.interruptEnable == s.interruptEnable
            && s.claim.id in Contenders(s) && Contenders(t) == Contenders(s) - {s.claim.id}
            && |Contenders(t)| < |Contenders(s)|
            && t.line == if s.delivery == 1 && s.interruptEnable then t.claim != Grant(0, 0) else s.line
  {
    ReadClaimAcknowledges(s);
    var t := Next(s, ReadClaim);
    assert forall j: nat :: Contends(t, j) <==> Contends(s, j) && j != s.claim.id;
    assert Contenders(t) == Contenders(s) - {s.claim.id};
  }

  /** The ids returned by reading claim again and again until it returns zero. */
  ghost function Claims(s: State): seq<nat>
    requires Claimable(s)
    decreases |Contenders(s)|
  {
    if s.claim == Grant(0, 0) then []
    else
      ClaimRemovesFirst(s);
      [s.claim.id] + Claims(Next(s, ReadClaim))
  }

  function Reads(s: State, n: nat): (t: State)
    requires s.Valid()
    ensures t.Valid()
    decreases n
  {
    if n == 0 then s else Reads(Next(s, ReadClaim), n - 1)
  }

  ghost predicate Ranked(s: State, ids: seq<nat>)
    requires s.Valid()
  {
    && (forall k | 0 <= k < |ids| :: 1 <= ids[k] <= ENTRIES)
    && forall i, j | 0 <= i < j < |ids| :: Precedes(s, ids[i], ids[j])
  }

  lemma RankedCons(s: State, t: State, id: nat, ids: seq<nat>)
    requires s.Valid() && t.Valid() && t.target == s.target && Ranked(t, ids) && 1 <= id <= ENTRIES
    requires forall j | j in ids :: 1 <= j <= ENTRIES && Precedes(s, id, j)
    ensures Ranked(s, [id] + ids)
  {
    forall i, j | 0 <= i < j < |ids| ensures Precedes(s, ids[i], ids[j]) {
      assert Precedes(t, ids[i], ids[j]);
    }
  }

  /** Repeated claim reads return every contending source exactly once, by descending priority and ascending
      number. */
  lemma {:induction false} ClaimsSort(s: State)
    requires Claimable(s)
    ensures forall id: nat :: id in Claims(s) <==> Contends(s, id)
    ensures Ranked(s, Claims(s))
    decreases |Contenders(s)|
  {
    if s.claim != Grant(0, 0) {
      ClaimRemovesFirst(s);
      var t := Next(s, ReadClaim);
      ClaimsSort(t);
      forall id: nat ensures id in Claims(t) <==> Contends(s, id) && id != s.claim.id {
        assert id in Contenders(t) <==> Contends(t, id);
      }
      RankedCons(s, t, s.claim.id, Claims(t));
    }
  }

  /** After them claim reads zero, and while interrupts are delivered the line is low, unless it was high
      with nothing to claim from the start. */
  lemma {:induction false} ClaimsEndLow(s: State)
    requires Claimable(s) && Quiet(s)
    ensures var t := Reads(s, |Claims(s)|);
            t.claim == Grant(0, 0) && (s.delivery == 1 && s.interruptEnable ==> !t.line)
    decreases |Contenders(s)|
  {
    if s.claim != Grant(0, 0) {
      ClaimRemovesFirst(s);
      ClaimsEndLow(Next(s, ReadClaim));
    }
  }
}
