/** The advanced platform-level interrupt controller of rvi/aplic.cpp in direct delivery mode, on sets
    of interrupt ids: a cached top/claim pair, level- and edge-dependent pending rules, one core line.
    The code grants the numerically largest passing priority; statements are made against that order. */
module AplicSpec {

  const INACTIVE := 0
  const DETACHED := 1
  const EDGE_RISING := 4
  const EDGE_FALLING := 5
  const LEVEL_HIGH := 6
  const LEVEL_LOW := 7
  /** Entries of the sourcecfg and target arrays; interrupt `irq` uses entry `irq - 1`. */
  const ENTRIES := 1023

  predicate IsLevel(mode: nat) {
    mode == LEVEL_HIGH || mode == LEVEL_LOW
  }

  predicate IsActive(mode: nat) {
    mode == DETACHED || mode == EDGE_RISING || mode == EDGE_FALLING || IsLevel(mode)
  }

  /** Falling edge and low level invert the wire. */
  predicate Rectified(mode: nat, wire: bool) {
    wire != (mode == EDGE_FALLING || mode == LEVEL_LOW)
  }

  /** The content of the top and claim registers. */
  datatype Grant = Grant(priority: nat, id: nat)

  const NONE := Grant(0, 0)

  /** `ports` is the size of the input vector: ids 1 to `ports - 1` are wired and arbitrated, ids up to
      `ports` may be written. */
  datatype State = State(
    ports: nat,
    maxPriority: nat,
    sourcecfg: seq<nat>,
    target: seq<nat>,
    pending: set<nat>,
    enabled: set<nat>,
    threshold: nat,
    delivery: nat,
    interruptEnable: bool,
    top: Grant,
    claim: Grant,
    line: bool)
  {
    predicate Valid() {
      ports <= ENTRIES && |sourcecfg| == |target| == ENTRIES && claim.id < ENTRIES
    }

    /** The source mode is the low byte of the sourcecfg register. */
    function Mode(irq: nat): nat
      requires Valid() && irq <= ENTRIES
    {
      if irq == 0 then INACTIVE else sourcecfg[irq - 1] % 256
    }

    function Priority(irq: nat): nat
      requires Valid() && irq <= ENTRIES
    {
      if irq == 0 then 0 else target[irq - 1] % 256
    }

    predicate Below(priority: nat) {
      threshold == 0 || priority < threshold
    }

    /** `irq` takes part in arbitration and may win; priority 0 never does. */
    predicate Passes(irq: nat)
      requires Valid()
    {
      1 <= irq < ports && irq in enabled && irq in pending && Below(Priority(irq)) && Priority(irq) > 0
    }

    function BestUpTo(n: nat): (best: nat)
      requires Valid() && (n == 0 || n < ports)
      ensures best == 0 || (best <= n && Passes(best))
    {
      if n == 0 then 0
      else
        var best := BestUpTo(n - 1);
        if Passes(n) && (best == 0 || Priority(n) > Priority(best)) then n else best
    }

    function Best(): (best: nat)
      requires Valid()
      ensures best == 0 || Passes(best)
    {
      BestUpTo(if ports == 0 then 0 else ports - 1)
    }

    /** A full arbitration over all sources. */
    function Arbitrate(): Grant
      requires Valid()
    {
      if Best() == 0 then NONE else Grant(Priority(Best()), Best())
    }

    predicate Delivering() {
      delivery == 1 && interruptEnable
    }

    /** handle_pending_int: the caches take the arbitration result; the line can only rise. */
    function Refreshed(): (s: State)
      requires Valid()
      ensures s.Valid()
    {
      this.(top := Arbitrate(), claim := Arbitrate(), line := line || (Best() != 0 && Delivering()))
    }

    /** reset_pending_int for a set of ids: the line falls before the next arbitration. */
    function Cleared(ids: set<nat>): (s: State)
      requires Valid()
      ensures s.Valid()
    {
      this.(pending := pending - ids, line := line && !Delivering()).Refreshed()
    }

    predicate Settable(irq: nat)
      requires Valid()
    {
      irq <= ports && IsActive(Mode(irq)) && !IsLevel(Mode(irq))
    }

    /** The ids a setip write may set: level-sensitive sources are exempt. */
    function SettableIn(ids: set<nat>): set<nat>
      requires Valid()
    {
      set id | id in ids && Settable(id)
    }

    /** The ids a setie write may enable. */
    function EnableableIn(ids: set<nat>): set<nat>
      requires Valid()
    {
      set id | id in ids && id <= ports && IsActive(Mode(id))
    }

    /** The ids an in_clrip write may clear. */
    function ClearableIn(ids: set<nat>): set<nat>
      requires Valid()
    {
      set id | id in ids && id in pending && Settable(id)
    }
  }

  // ---------------------------------------------------------------- steps

  /** One callback; `ids` are the interrupts whose bit is one in the written word. */
  datatype Event =
    | Wire(irq: nat, value: bool)
    | WriteDomainCfg(enable: bool)
    | WriteSourceCfg(irq: nat, data: nat)
    | WriteTarget(irq: nat, data: nat)
    | WriteSetIeNum(irq: nat)
    | WriteSetIe(ids: set<nat>)
    | WriteClrIe(ids: set<nat>)
    | WriteSetIp(ids: set<nat>)
    | WriteClrIp(ids: set<nat>)
    | WriteDelivery(data: nat)
    | WriteThreshold(data: nat)
    | ReadClaim
    | Reset
  {
    /** Wires exist for 1 to `ports - 1`; the indexed registers have ENTRIES entries. */
    predicate Addresses(s: State) {
      match this
      case Wire(irq, _) => 1 <= irq < s.ports
      case WriteSourceCfg(irq, _) => 1 <= irq <= ENTRIES
      case WriteTarget(irq, _) => 1 <= irq <= ENTRIES
      case _ => true
    }
  }

  function AfterWire(s: State, irq: nat, value: bool): (s': State)
    requires s.Valid() && 1 <= irq < s.ports
    ensures s'.Valid()
  {
    var mode := s.Mode(irq);
    if mode == INACTIVE then s
    else if Rectified(mode, value) then s.(pending := s.pending + {irq}).Refreshed()
    else if IsLevel(mode) && irq in s.pending then s.Cleared({irq})
    else s
  }

  function AfterTarget(s: State, irq: nat, data: nat): (s': State)
    requires s.Valid() && 1 <= irq <= ENTRIES
    ensures s'.Valid()
  {
    if irq <= s.ports && 1 <= data % 256 <= s.maxPriority then s.(target := s.target[irq - 1 := data]) else s
  }

  function AfterSetIe(s: State, ids: set<nat>): (s': State)
    requires s.Valid()
    ensures s'.Valid()
  {
    var add := s.EnableableIn(ids);
    if add == {} then s else s.(enabled := s.enabled + add).Refreshed()
  }

  function AfterClrIe(s: State, ids: set<nat>): State {
    s.(enabled := s.enabled - set id | id in ids && id <= s.ports)
  }

  function AfterSetIp(s: State, ids: set<nat>): (s': State)
    requires s.Valid()
    ensures s'.Valid()
  {
    var add := s.SettableIn(ids);
    if add == {} then s else s.(pending := s.pending + add).Refreshed()
  }

  function AfterClrIp(s: State, ids: set<nat>): (s': State)
    requires s.Valid()
    ensures s'.Valid()
  {
    var drop := s.ClearableIn(ids);
    if drop == {} then s else s.Cleared(drop)
  }

  /** Reading claim acknowledges the cached interrupt, unless its source is level-sensitive. */
  function AfterReadClaim(s: State): (s': State)
    requires s.Valid()
    ensures s'.Valid()
  {
    if s.claim != NONE && !IsLevel(s.Mode(s.claim.id)) then s.Cleared({s.claim.id}) else s
  }

  /** All registers return to zero; the core line is not driven. */
  function AfterReset(s: State): State {
    State(s.ports, s.maxPriority, seq(ENTRIES, _ => 0), seq(ENTRIES, _ => 0), {}, {}, 0, 0, false, NONE, NONE, s.line)
  }

  function Next(s: State, e: Event): (s': State)
    requires s.Valid() && e.Addresses(s)
    ensures s'.Valid() && s'.ports == s.ports && s'.maxPriority == s.maxPriority
  {
    match e
    case Wire(irq, value) => AfterWire(s, irq, value)
    case WriteDomainCfg(enable) =>
      var s1 := s.(interruptEnable := enable);
      if enable then s1.Refreshed() else s1
    case WriteSourceCfg(irq, data) =>
      if irq <= s.ports then s.(sourcecfg := s.sourcecfg[irq - 1 := data]) else s
    case WriteTarget(irq, data) => AfterTarget(s, irq, data)
    case WriteSetIeNum(irq) => AfterSetIe(s, {irq})
    case WriteSetIe(ids) => AfterSetIe(s, ids)
    case WriteClrIe(ids) => AfterClrIe(s, ids)
    case WriteSetIp(ids) => AfterSetIp(s, ids)
    case WriteClrIp(ids) => AfterClrIp(s, ids)
    case WriteDelivery(data) =>
      var s1 := s.(delivery := data);
      if data == 1 then s1.Refreshed() else s1
    case WriteThreshold(data) => s.(threshold := data).Refreshed()
    case ReadClaim => AfterReadClaim(s)
    case Reset => AfterReset(s)
  }

  // ---------------------------------------------------------------- arbitration

  /** The largest passing priority, the lowest id among equals. */
  ghost predicate IsWinner(s: State, irq: nat)
    requires s.Valid()
  {
    && s.Passes(irq)
    && forall j: nat | s.Passes(j) && j != irq ::
         s.Priority(irq) > s.Priority(j) || (s.Priority(irq) == s.Priority(j) && irq < j)
  }

  /** One step of the pass, as a scan with a running best priority takes it. */
  lemma BestUpToStep(s: State, n: nat, best: nat, bestPriority: nat)
    requires s.Valid() && 1 <= n < s.ports
    requires best == s.BestUpTo(n - 1) && bestPriority == s.Priority(best)
    ensures s.BestUpTo(n) == if s.Passes(n) && s.Priority(n) > bestPriority then n else best
  {
  }

  lemma {:induction false} BestUpToWins(s: State, n: nat)
    requires s.Valid() && (n == 0 || n < s.ports)
    ensures s.BestUpTo(n) == 0 ==> forall j: nat | j <= n :: !s.Passes(j)
    ensures var best := s.BestUpTo(n);
            best != 0 ==>
              forall j: nat | j <= n && s.Passes(j) && j != best ::
                s.Priority(best) > s.Priority(j) || (s.Priority(best) == s.Priority(j) && best < j)
  {
    if n > 0 {
      BestUpToWins(s, n - 1);
    }
  }

  lemma BestWins(s: State)
    requires s.Valid()
    ensures s.Best() == 0 <==> forall j: nat :: !s.Passes(j)
    ensures s.Best() != 0 <==> IsWinner(s, s.Best())
    ensures forall irq: nat | IsWinner(s, irq) :: irq == s.Best()
  {
    BestUpToWins(s, if s.ports == 0 then 0 else s.ports - 1);
  }

  /** Arbitration reads nothing but the enabled and pending sources, their priorities and the threshold. */
  lemma SameBest(s: State, t: State)
    requires s.Valid() && t.Valid()
    requires forall j: nat :: s.Passes(j) <==> t.Passes(j)
    requires forall j: nat | s.Passes(j) :: s.Priority(j) == t.Priority(j)
    ensures s.Best() == t.Best() && s.Arbitrate() == t.Arbitrate()
  {
    BestWins(s);
    BestWins(t);
    if s.Best() != 0 {
      assert IsWinner(t, s.Best());
    }
  }

  // ---------------------------------------------------------------- the cache

  /** top and claim hold what a full arbitration would give. */
  predicate CacheAgrees(s: State)
    requires s.Valid()
  {
    s.top == s.claim == s.Arbitrate()
  }

  lemma RefreshedAgrees(s: State)
    requires s.Valid()
    ensures CacheAgrees(s.Refreshed())
  {
    SameBest(s, s.Refreshed());
  }

  /** Clearing enable bits leaves the cache right exactly when the cached interrupt stays enabled. */
  predicate ClrIeHarmless(s: State, ids: set<nat>) {
    s.claim == NONE || s.claim.id !in ids
  }

  /** A target write leaves the cache right exactly when the source is not arbitrated, or is the cached
      one and keeps its priority, or still loses. */
  predicate TargetHarmless(s: State, irq: nat, data: nat)
    requires s.Valid() && 1 <= irq <= ENTRIES
  {
    var p := data % 256;
    || !(irq <= s.ports && 1 <= p <= s.maxPriority)
    || !(irq < s.ports && irq in s.enabled && irq in s.pending)
    || (if s.claim.id == irq then p == s.claim.priority
        else !s.Below(p) || p < s.claim.priority || (p == s.claim.priority && irq > s.claim.id))
  }

  lemma ClrIeKeepsCache(s: State, ids: set<nat>)
    requires s.Valid() && CacheAgrees(s)
    ensures CacheAgrees(AfterClrIe(s, ids)) <==> ClrIeHarmless(s, ids)
  {
    var t := AfterClrIe(s, ids);
    BestWins(s);
    BestWins(t);
    assert forall j: nat | t.Passes(j) :: s.Passes(j);
    if s.Best() != 0 {
      if s.Best() in ids {
        assert !t.Passes(s.Best());
      } else {
        assert IsWinner(t, s.Best());
      }
    }
  }

  lemma TargetKeepsCache(s: State, irq: nat, data: nat)
    requires s.Valid() && 1 <= irq <= ENTRIES && CacheAgrees(s)
    ensures CacheAgrees(AfterTarget(s, irq, data)) <==> TargetHarmless(s, irq, data)
  {
    var t := AfterTarget(s, irq, data);
    BestWins(s);
    BestWins(t);
    forall j: nat | j != irq && j <= ENTRIES ensures t.Priority(j) == s.Priority(j) && (t.Passes(j) <==> s.Passes(j)) {
    }
    if irq <= s.ports && 1 <= data % 256 <= s.maxPriority {
      assert t.Priority(irq) == data % 256;
      if TargetHarmless(s, irq, data) {
        if s.Best() != 0 {
          assert IsWinner(t, s.Best());
        } else {
          assert !t.Passes(irq);
        }
      } else if s.claim.id == irq {
        assert t.Arbitrate() != s.claim;
      } else {
        assert t.Passes(irq);
        assert !IsWinner(t, s.Best());
      }
    }
  }

  /** Which steps keep the cache right: all of them, except clrie and target writes that disturb the
      cached interrupt. */
  predicate KeepsCache(s: State, e: Event)
    requires s.Valid() && e.Addresses(s)
  {
    match e
    case WriteClrIe(ids) => ClrIeHarmless(s, ids)
    case WriteTarget(irq, data) => TargetHarmless(s, irq, data)
    case _ => true
  }

  lemma StepKeepsCache(s: State, e: Event)
    requires s.Valid() && e.Addresses(s) && CacheAgrees(s)
    ensures CacheAgrees(Next(s, e)) <==> KeepsCache(s, e)
  {
    match e
    case WriteClrIe(ids) => ClrIeKeepsCache(s, ids);
    case WriteTarget(irq, data) => TargetKeepsCache(s, irq, data);
    case WriteSourceCfg(irq, data) => SameBest(s, Next(s, e));
    case WriteDomainCfg(enable) =>
      SameBest(s, s.(interruptEnable := enable));
      RefreshedAgrees(s.(interruptEnable := enable));
    case WriteDelivery(data) =>
      SameBest(s, s.(delivery := data));
      RefreshedAgrees(s.(delivery := data));
    case WriteThreshold(data) => RefreshedAgrees(s.(threshold := data));
    case WriteSetIe(ids) => SetIeAgrees(s, ids);
    case WriteSetIeNum(irq) => SetIeAgrees(s, {irq});
    case WriteSetIp(ids) =>
      RefreshedAgrees(s.(pending := s.pending + s.SettableIn(ids)));
    case WriteClrIp(ids) =>
      ClearedAgrees(s, s.ClearableIn(ids));
    case ReadClaim => ClearedAgrees(s, {s.claim.id});
    case Wire(irq, value) =>
      RefreshedAgrees(s.(pending := s.pending + {irq}));
      ClearedAgrees(s, {irq});
    case Reset => BestWins(Next(s, e));
  }

  lemma SetIeAgrees(s: State, ids: set<nat>)
    requires s.Valid() && CacheAgrees(s)
    ensures CacheAgrees(AfterSetIe(s, ids))
  {
    RefreshedAgrees(s.(enabled := s.enabled + s.EnableableIn(ids)));
  }

  lemma ClearedAgrees(s: State, ids: set<nat>)
    requires s.Valid()
    ensures CacheAgrees(s.Cleared(ids))
  {
    RefreshedAgrees(s.(pending := s.pending - ids, line := s.line && !s.Delivering()));
  }

  // ---------------------------------------------------------------- the core line

  /** While interrupts are delivered, a nonzero claim register implies a high line. */
  predicate Signalled(s: State) {
    s.Delivering() && s.claim != NONE ==> s.line
  }

  lemma StepSignals(s: State, e: Event)
    requires s.Valid() && e.Addresses(s) && Signalled(s)
    ensures Signalled(Next(s, e))
  {
  }

  /** The event takes a pending bit away or acknowledges the cached interrupt: the only callbacks that
      drive the line low before they arbitrate again. */
  predicate Releases(s: State, e: Event)
    requires s.Valid() && e.Addresses(s)
  {
    match e
    case Wire(irq, value) => IsLevel(s.Mode(irq)) && !Rectified(s.Mode(irq), value) && irq in s.pending
    case WriteClrIp(ids) => s.ClearableIn(ids) != {}
    case ReadClaim => s.claim != NONE && !IsLevel(s.Mode(s.claim.id))
    case _ => false
  }

  /** The line falls exactly when such an event, while interrupts are delivered, leaves nothing to claim. */
  lemma LineFalls(s: State, e: Event)
    requires s.Valid() && e.Addresses(s) && s.line
    ensures !Next(s, e).line <==> s.Delivering() && Releases(s, e) && Next(s, e).claim == NONE
  {
  }

  /** While interrupts are delivered, an empty claim register implies a low line. */
  predicate Quiet(s: State) {
    s.Delivering() && s.claim == NONE ==> !s.line
  }

  /** The callback arbitrates without lowering the line first. */
  predicate Arbitrates(s: State, e: Event)
    requires s.Valid() && e.Addresses(s)
  {
    match e
    case WriteDomainCfg(enable) => enable
    case WriteDelivery(data) => data == 1
    case WriteThreshold(_) => true
    case WriteSetIe(ids) => s.EnableableIn(ids) != {}
    case WriteSetIeNum(irq) => s.EnableableIn({irq}) != {}
    case WriteSetIp(ids) => s.SettableIn(ids) != {}
    case Wire(irq, value) => s.Mode(irq) != INACTIVE && Rectified(s.Mode(irq), value)
    case _ => false
  }

  /** The state such a callback arbitrates over: its own change is made, the caches are the old ones. */
  function Before(s: State, e: Event): (t: State)
    requires s.Valid() && e.Addresses(s)
    ensures t.Valid()
  {
    match e
    case WriteDomainCfg(enable) => s.(interruptEnable := enable)
    case WriteDelivery(data) => s.(delivery := data)
    case WriteThreshold(data) => s.(threshold := data)
    case WriteSetIe(ids) => s.(enabled := s.enabled + s.EnableableIn(ids))
    case WriteSetIeNum(irq) => s.(enabled := s.enabled + s.EnableableIn({irq}))
    case WriteSetIp(ids) => s.(pending := s.pending + s.SettableIn(ids))
    case Wire(irq, _) => s.(pending := s.pending + {irq})
    case _ => s
  }

  /** The callback does not arbitrate, or nothing is delivered to a high line, or some source passes. */
  ghost predicate LineHarmless(s: State, e: Event)
    requires s.Valid() && e.Addresses(s)
  {
    Arbitrates(s, e) && Before(s, e).Delivering() && s.line ==> exists irq: nat :: Before(s, e).Passes(irq)
  }

  /** One callback keeps a quiet line quiet, whatever the caches hold, with one exception: an arbitration
      that delivers to a high line although no source passes. */
  lemma StepKeepsQuiet(s: State, e: Event)
    requires s.Valid() && e.Addresses(s) && Quiet(s)
    ensures Quiet(Next(s, e)) <==> LineHarmless(s, e)
  {
    BestWins(Before(s, e));
  }

  /** With right caches only configuration can make an arbitration come out empty under a high line. */
  lemma OnlyConfigurationHarms(s: State, e: Event)
    requires s.Valid() && e.Addresses(s) && CacheAgrees(s) && Quiet(s) && !LineHarmless(s, e)
    ensures e.WriteDomainCfg? || e.WriteDelivery? || e.WriteThreshold?
  {
    BestWins(s);
    if s.Best() != 0 {
      assert s.Passes(s.Best());
      assert e.WriteSetIe? || e.WriteSetIeNum? || e.WriteSetIp? || e.Wire? ==> Before(s, e).Passes(s.Best());
    }
  }

  // ---------------------------------------------------------------- level tracking

  /** A level-sensitive source whose pending bit is its rectified wire. */
  predicate Tracks(s: State, irq: nat, wire: bool)
    requires s.Valid() && irq <= ENTRIES
  {
    IsLevel(s.Mode(irq)) && (irq in s.pending <==> Rectified(s.Mode(irq), wire))
  }

  lemma WireTracks(s: State, irq: nat, wire: bool)
    requires s.Valid() && 1 <= irq < s.ports && IsLevel(s.Mode(irq))
    ensures Tracks(Next(s, Wire(irq, wire)), irq, wire)
  {
  }

  /** The event neither reconfigures nor resets `irq`, nor drives its wire. */
  predicate LeavesSource(e: Event, irq: nat) {
    match e
    case Wire(i, _) => i != irq
    case WriteSourceCfg(i, _) => i != irq
    case Reset => false
    case _ => true
  }

  lemma StepTracks(s: State, e: Event, irq: nat, wire: bool)
    requires s.Valid() && e.Addresses(s) && 1 <= irq <= ENTRIES
    requires Tracks(s, irq, wire) && LeavesSource(e, irq)
    ensures Tracks(Next(s, e), irq, wire)
  {
  }

  // ---------------------------------------------------------------- runs

  ghost predicate WellFormed(s: State, es: seq<Event>) {
    forall e | e in es :: e.Addresses(s)
  }

  function Run(s: State, es: seq<Event>): (s': State)
    requires s.Valid() && WellFormed(s, es)
    ensures s'.Valid() && s'.ports == s.ports && s'.maxPriority == s.maxPriority
  {
    if es == [] then s
    else
      var s1 := Run(s, es[..|es| - 1]);
      AddressesKept(s, s1, es[|es| - 1]);
      Next(s1, es[|es| - 1])
  }

  lemma AddressesKept(s: State, s': State, e: Event)
    requires e.Addresses(s) && s'.ports == s.ports
    ensures e.Addresses(s')
  {
  }

  /** The state after reset. */
  predicate Initial(s: State) {
    s.Valid() && s == AfterReset(s)
  }

  /** Every clrie and target write of the run spares the cached interrupt. */
  predicate SparesCache(s: State, es: seq<Event>)
    requires s.Valid() && WellFormed(s, es)
  {
    es == [] || (
      var front, e := es[..|es| - 1], es[|es| - 1];
      AddressesKept(s, Run(s, front), e);
      SparesCache(s, front) && KeepsCache(Run(s, front), e))
  }

  predicate AlwaysAgrees(s: State, es: seq<Event>)
    requires s.Valid() && WellFormed(s, es)
  {
    CacheAgrees(Run(s, es)) && (es == [] || AlwaysAgrees(s, es[..|es| - 1]))
  }

  /** From reset on, top and claim agree with a full arbitration throughout a run exactly when its clrie
      and target writes spare the cached interrupt; every other callback keeps them right. */
  lemma {:induction false} CacheAgreement(s: State, es: seq<Event>)
    requires Initial(s) && WellFormed(s, es)
    ensures AlwaysAgrees(s, es) <==> SparesCache(s, es)
  {
    if es == [] {
      BestWins(s);
    } else {
      var front, e := es[..|es| - 1], es[|es| - 1];
      CacheAgreement(s, front);
      AddressesKept(s, Run(s, front), e);
      assert AlwaysAgrees(s, front) ==> CacheAgrees(Run(s, front));
      if CacheAgrees(Run(s, front)) {
        StepKeepsCache(Run(s, front), e);
      }
    }
  }

  predicate AlwaysQuiet(s: State, es: seq<Event>)
    requires s.Valid() && WellFormed(s, es)
  {
    Quiet(Run(s, es)) && (es == [] || AlwaysQuiet(s, es[..|es| - 1]))
  }

  ghost predicate SparesLine(s: State, es: seq<Event>)
    requires s.Valid() && WellFormed(s, es)
  {
    es == [] || (
      var front, e := es[..|es| - 1], es[|es| - 1];
      AddressesKept(s, Run(s, front), e);
      SparesLine(s, front) && LineHarmless(Run(s, front), e))
  }

  /** In every run from reset the line is low over an empty claim register throughout exactly when no
      arbitration of it delivers to a high line with no source passing. */
  lemma {:induction false} QuietLine(s: State, es: seq<Event>)
    requires Initial(s) && WellFormed(s, es)
    ensures AlwaysQuiet(s, es) <==> SparesLine(s, es)
  {
    if es != [] {
      var front, e := es[..|es| - 1], es[|es| - 1];
      QuietLine(s, front);
      AddressesKept(s, Run(s, front), e);
      assert AlwaysQuiet(s, front) ==> Quiet(Run(s, front));
      if Quiet(Run(s, front)) {
        StepKeepsQuiet(Run(s, front), e);
      }
    }
  }

  /** In every run from reset, with any writes, delivery with a nonzero claim means the line is high. */
  lemma {:induction false} ClaimIsSignalled(s: State, es: seq<Event>)
    requires Initial(s) && WellFormed(s, es)
    ensures Signalled(Run(s, es))
  {
    if es != [] {
      var front, e := es[..|es| - 1], es[|es| - 1];
      ClaimIsSignalled(s, front);
      AddressesKept(s, Run(s, front), e);
      StepSignals(Run(s, front), e);
    }
  }

  /** Once a wire event has been seen under a level mode, the pending bit equals the rectified wire after
      any further events that do not drive, reconfigure or reset that source. */
  lemma {:induction false} LevelTracking(s: State, irq: nat, wire: bool, es: seq<Event>)
    requires s.Valid() && 1 <= irq < s.ports && IsLevel(s.Mode(irq)) && WellFormed(s, es)
    requires forall e | e in es :: LeavesSource(e, irq)
    ensures WellFormed(Next(s, Wire(irq, wire)), es)
    ensures Tracks(Run(Next(s, Wire(irq, wire)), es), irq, wire)
  {
    var s0 := Next(s, Wire(irq, wire));
    forall e | e in es ensures e.Addresses(s0) {
      AddressesKept(s, s0, e);
    }
    if es == [] {
      WireTracks(s, irq, wire);
    } else {
      var front, e := es[..|es| - 1], es[|es| - 1];
      LevelTracking(s, irq, wire, front);
      AddressesKept(s0, Run(s0, front), e);
      assert e in es;
      StepTracks(Run(s0, front), e, irq, wire);
    }
  }

  // ---------------------------------------------------------------- bit-by-bit writes

  /** Arbitrating again after more sources pass adds nothing to arbitrating once at the end. */
  lemma RefreshTwice(t: State, pending: set<nat>, enabled: set<nat>)
    requires t.Valid() && t.pending <= pending && t.enabled <= enabled
    ensures t.Refreshed().(pending := pending, enabled := enabled).Refreshed()
         == t.(pending := pending, enabled := enabled).Refreshed()
  {
    var u := t.(pending := pending, enabled := enabled);
    var v := t.Refreshed().(pending := pending, enabled := enabled);
    BestWins(t);
    BestWins(u);
    SameBest(u, v);
    assert t.Best() != 0 ==> u.Passes(t.Best());
  }

  lemma SetIpOfNone(s: State)
    requires s.Valid()
    ensures AfterSetIp(s, {}) == s
  {
    assert s.SettableIn({}) == {};
  }

  lemma SetIpOneMore(s: State, ids: set<nat>, id: nat)
    requires s.Valid()
    ensures AfterSetIp(AfterSetIp(s, ids), {id}) == AfterSetIp(s, ids + {id})
  {
    var add := s.SettableIn(ids);
    var all := s.SettableIn(ids + {id});
    var s1 := AfterSetIp(s, ids);
    SetIpOfOne(s1, id);
    if !s.Settable(id) {
      assert all == add;
    } else {
      assert all == add + {id} && s1.Settable(id);
      if add == {} {
        assert all == {id};
      } else {
        var t := s.(pending := s.pending + add);
        assert s1 == t.Refreshed() && s1.pending + {id} == s.pending + all;
        RefreshTwice(t, s.pending + all, s.enabled);
      }
    }
  }

  lemma SetIpOfOne(s: State, id: nat)
    requires s.Valid()
    ensures AfterSetIp(s, {id}) == if s.Settable(id) then s.(pending := s.pending + {id}).Refreshed() else s
  {
    var one := s.SettableIn({id});
    assert one == if s.Settable(id) then {id} else {};
  }

  lemma SetIeOfNone(s: State)
    requires s.Valid()
    ensures AfterSetIe(s, {}) == s
  {
    assert s.EnableableIn({}) == {};
  }

  lemma SetIeOneMore(s: State, ids: set<nat>, id: nat)
    requires s.Valid()
    ensures AfterSetIe(AfterSetIe(s, ids), {id}) == AfterSetIe(s, ids + {id})
  {
    var add := s.EnableableIn(ids);
    var all := s.EnableableIn(ids + {id});
    var s1 := AfterSetIe(s, ids);
    SetIeOfOne(s1, id);
    if !(id <= s.ports && IsActive(s.Mode(id))) {
      assert all == add;
    } else {
      assert all == add + {id} && s1.Mode(id) == s.Mode(id);
      if add == {} {
        assert all == {id};
      } else {
        var t := s.(enabled := s.enabled + add);
        assert s1 == t.Refreshed() && s1.enabled + {id} == s.enabled + all;
        RefreshTwice(t, s.pending, s.enabled + all);
      }
    }
  }

  lemma SetIeOfOne(s: State, id: nat)
    requires s.Valid()
    ensures AfterSetIe(s, {id}) ==
            if id <= s.ports && IsActive(s.Mode(id)) then s.(enabled := s.enabled + {id}).Refreshed() else s
  {
    var one := s.EnableableIn({id});
    assert one == if id <= s.ports && IsActive(s.Mode(id)) then {id} else {};
  }

  lemma ClearTwice(s: State, a: set<nat>, b: set<nat>)
    requires s.Valid()
    ensures s.Cleared(a).Cleared(b) == s.Cleared(a + b)
  {
    assert s.pending - a - b == s.pending - (a + b);
    SameBest(s.(pending := s.pending - (a + b), line := s.line && !s.Delivering()),
             s.Cleared(a).(pending := s.pending - (a + b), line := s.Cleared(a).line && !s.Delivering()));
  }

  lemma ClrIpOfNone(s: State)
    requires s.Valid()
    ensures AfterClrIp(s, {}) == s
  {
    assert s.ClearableIn({}) == {};
  }

  lemma ClrIpOneMore(s: State, ids: set<nat>, id: nat)
    requires s.Valid()
    ensures AfterClrIp(AfterClrIp(s, ids), {id}) == AfterClrIp(s, ids + {id})
  {
    var drop := s.ClearableIn(ids);
    var all := s.ClearableIn(ids + {id});
    var s1 := AfterClrIp(s, ids);
    ClrIpOfOne(s1, id);
    assert s1.Settable(id) == s.Settable(id);
    if id in s.pending && s.Settable(id) && id !in ids {
      assert all == drop + {id};
      if drop == {} {
        assert all == {id};
      } else {
        ClearTwice(s, drop, {id});
      }
    } else {
      assert all == drop;
    }
  }

  lemma ClrIpOfOne(s: State, id: nat)
    requires s.Valid()
    ensures AfterClrIp(s, {id}) == if id in s.pending && s.Settable(id) then s.Cleared({id}) else s
  {
    var one := s.ClearableIn({id});
    assert one == if id in s.pending && s.Settable(id) then {id} else {};
  }

  lemma ClrIeOneMore(s: State, ids: set<nat>, id: nat)
    ensures AfterClrIe(AfterClrIe(s, ids), {id}) == AfterClrIe(s, ids + {id})
    ensures AfterClrIe(s, {id}) == if id <= s.ports then s.(enabled := s.enabled - {id}) else s
  {
    assert AfterClrIe(AfterClrIe(s, ids), {id}).enabled == AfterClrIe(s, ids + {id}).enabled;
    assert AfterClrIe(s, {id}).enabled == if id <= s.ports then s.enabled - {id} else s.enabled;
  }

  // ---------------------------------------------------------------- runs that fail

  lemma RunSnoc(s: State, es: seq<Event>, e: Event)
    requires s.Valid() && WellFormed(s, es) && e.Addresses(s)
    ensures WellFormed(s, es + [e]) && e.Addresses(Run(s, es)) && Run(s, es + [e]) == Next(Run(s, es), e)
  {
    AddressesKept(s, Run(s, es), e);
    assert (es + [e])[..|es|] == es;
  }

  /** Interrupt 1 is configured with priority 1 and delivered, if it is enabled and pending. */
  predicate Configured(s: State, pending: set<nat>, enabled: set<nat>) {
    && s.Valid() && s.ports >= 2 && s.Mode(1) == DETACHED && s.Priority(1) == 1 && s.Delivering()
    && s.threshold == 0 && s.pending == pending && s.enabled == enabled
  }

  lemma OnlyOnePasses(s: State)
    requires Configured(s, {1}, {1})
    ensures s.Best() == 1 && s.Arbitrate() == Grant(1, 1)
  {
    BestWins(s);
    assert s.Passes(1);
  }

  /** Configuration from reset. */
  lemma Configure(s: State) returns (es: seq<Event>)
    requires Initial(s) && s.ports >= 2 && s.maxPriority >= 1
    ensures WellFormed(s, es) && Configured(Run(s, es), {}, {})
  {
    var cfg, target := WriteSourceCfg(1, DETACHED), WriteTarget(1, 1);
    var enable, deliver := WriteDomainCfg(true), WriteDelivery(1);
    RunSnoc(s, [], cfg);
    RunSnoc(s, [] + [cfg], target);
    RunSnoc(s, [] + [cfg] + [target], enable);
    RunSnoc(s, [] + [cfg] + [target] + [enable], deliver);
    es := [] + [cfg] + [target] + [enable] + [deliver];
  }

  lemma EnableAndRaise(s: State)
    requires Configured(s, {}, {})
    ensures var t := Next(Next(s, WriteSetIe({1})), WriteSetIp({1}));
            Configured(t, {1}, {1}) && t.claim == Grant(1, 1) && t.line
  {
    SetIeOfOne(s, 1);
    var t := Next(s, WriteSetIe({1}));
    SetIpOfOne(t, 1);
    OnlyOnePasses(t.(pending := t.pending + {1}));
  }

  /** From reset to a claimed interrupt: configure, enable, set pending. */
  lemma Claimable(s: State) returns (es: seq<Event>)
    requires Initial(s) && s.ports >= 2 && s.maxPriority >= 1
    ensures WellFormed(s, es)
    ensures var t := Run(s, es); Configured(t, {1}, {1}) && t.claim == Grant(1, 1) && t.line
  {
    var es0 := Configure(s);
    RunSnoc(s, es0, WriteSetIe({1}));
    RunSnoc(s, es0 + [WriteSetIe({1})], WriteSetIp({1}));
    EnableAndRaise(Run(s, es0));
    es := es0 + [WriteSetIe({1})] + [WriteSetIp({1})];
  }

  /** Disabling the cached interrupt: a run from reset after which claim names an interrupt that no
      arbitration would grant. */
  lemma ClrIeDisagrees(s: State) returns (es: seq<Event>)
    requires Initial(s) && s.ports >= 2 && s.maxPriority >= 1
    ensures WellFormed(s, es) && !CacheAgrees(Run(s, es))
  {
    var es0 := Claimable(s);
    RunSnoc(s, es0, WriteClrIe({1}));
    var t := Run(s, es0 + [WriteClrIe({1})]);
    BestWins(t);
    es := es0 + [WriteClrIe({1})];
  }

  /** Silencing the claimed interrupt by threshold: a run from reset after which the line is high over an
      empty claim register. */
  lemma ThresholdLeavesLineHigh(s: State) returns (es: seq<Event>)
    requires Initial(s) && s.ports >= 2 && s.maxPriority >= 1
    ensures WellFormed(s, es) && !Quiet(Run(s, es))
  {
    var es0 := Claimable(s);
    RunSnoc(s, es0, WriteThreshold(1));
    BestWins(Run(s, es0).(threshold := 1));
    es := es0 + [WriteThreshold(1)];
  }

  lemma SetIpAfterClrIe(t: State)
    requires Configured(t, {1}, {1}) && t.line
    ensures !Quiet(Next(Next(t, WriteClrIe({1})), WriteSetIp({1})))
  {
    var u := Next(t, WriteClrIe({1}));
    SetIpOfOne(u, 1);
    BestWins(u.(pending := u.pending + {1}));
  }

  /** Disabling the claimed interrupt and arbitrating again: the same without any write of threshold,
      domaincfg or delivery after it was claimed. */
  lemma ClrIeLeavesLineHigh(s: State) returns (claimed: seq<Event>, es: seq<Event>)
    requires Initial(s) && s.ports >= 2 && s.maxPriority >= 1
    ensures es == claimed + [WriteClrIe({1})] + [WriteSetIp({1})] && WellFormed(s, claimed) && WellFormed(s, es)
    ensures Run(s, claimed).claim == Grant(1, 1) && Run(s, claimed).line && !Quiet(Run(s, es))
  {
    claimed := Claimable(s);
    es := claimed + [WriteClrIe({1})] + [WriteSetIp({1})];
    RunSnoc(s, claimed, WriteClrIe({1}));
    RunSnoc(s, claimed + [WriteClrIe({1})], WriteSetIp({1}));
    SetIpAfterClrIe(Run(s, claimed));
  }
}
