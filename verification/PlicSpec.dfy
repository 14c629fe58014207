/** The RISC-V platform-level interrupt controller of rvi/plic.h, on sets of source ids: what each
    register access or input change does, and what every run keeps. */
module PlicSpec {

  /** Source ids run from 1 to `sources`; `open` holds the ids whose gateway accepts a new raise. */
  datatype State = State(
    sources: nat,
    priority: seq<nat>,
    pending: set<nat>,
    open: set<nat>,
    enabled: seq<set<nat>>,
    threshold: seq<nat>,
    claimed: seq<nat>,
    line: seq<bool>)
  {
    ghost predicate Valid() {
      && |priority| == sources + 1
      && |enabled| == |threshold| == |claimed| == |line|
      && (forall id | id in pending :: 1 <= id <= sources)
      && (forall id | id in open :: 1 <= id <= sources)
    }

    predicate Source(id: nat) {
      1 <= id <= sources
    }

    predicate Context(c: nat) {
      c < |line|
    }

    /** `id` may interrupt context `c`. */
    predicate Eligible(c: nat, id: nat)
      requires |priority| == sources + 1 && c < |enabled| && c < |threshold|
    {
      Source(id) && id in pending && id in enabled[c] && priority[id] > threshold[c]
    }

    ghost predicate HasEligible(c: nat)
      requires Valid() && Context(c)
    {
      exists id :: Eligible(c, id)
    }

    ghost function EligibleSet(c: nat): set<nat>
      requires Valid() && Context(c)
    {
      set id | id in pending && Eligible(c, id)
    }

    /** Higher priority first, then lower id. */
    predicate Beats(i: nat, j: nat)
      requires |priority| == sources + 1 && Source(i) && Source(j)
    {
      priority[i] > priority[j] || (priority[i] == priority[j] && i < j)
    }

    ghost predicate IsTop(c: nat, id: nat)
      requires Valid() && Context(c)
    {
      Eligible(c, id) && forall j | Eligible(c, j) && j != id :: Beats(id, j)
    }

    /** The winner among the ids up to `n`, or 0: one pass in ascending order that replaces the winner
        only by a strictly higher priority. */
    function TopUpTo(c: nat, n: nat): (top: nat)
      requires Valid() && Context(c) && n <= sources
      ensures top == 0 || (top <= n && Eligible(c, top))
    {
      if n == 0 then 0
      else
        var best := TopUpTo(c, n - 1);
        if Eligible(c, n) && (best == 0 || priority[n] > priority[best]) then n else best
    }

    function Top(c: nat): nat
      requires Valid() && Context(c)
    {
      TopUpTo(c, sources)
    }
  }

  // ---------------------------------------------------------------- steps

  datatype Event =
    | Raise(id: nat, value: bool)
    | Claim(c: nat)
    | Complete(c: nat, id: nat)
    | SetPriority(id: nat, priority: nat)
    | SetThreshold(c: nat, threshold: nat)
    | SetEnabled(c: nat, enabled: set<nat>)
    | Reset
  {
    /** The event addresses sources and contexts that exist. */
    predicate Addresses(s: State) {
      match this
      case Raise(id, _) => s.Source(id)
      case Claim(c) => s.Context(c)
      case Complete(c, _) => s.Context(c)
      case SetPriority(id, _) => id <= s.sources
      case SetThreshold(c, _) => s.Context(c)
      case SetEnabled(c, _) => s.Context(c)
      case Reset => true
    }

    predicate IsConfiguration() {
      SetPriority? || SetThreshold? || SetEnabled?
    }
  }

  /** A raise is accepted when the input is high and the gateway is open. */
  predicate Accepts(s: State, e: Event) {
    e.Raise? && e.value && e.id in s.open
  }

  /** A completion is accepted if it names a source that is enabled for the context. */
  predicate Completes(s: State, e: Event)
    requires |s.enabled| == |s.line| && e.Addresses(s)
  {
    e.Complete? && s.Source(e.id) && e.id in s.enabled[e.c]
  }

  /** A completion stays within the arrays of a register file with `words` enable words: its enable bit
      exists, and if that bit is set, so does its gateway. Id 0 is never looked up. */
  predicate InBounds(s: State, words: nat, e: Event)
    requires |s.enabled| == |s.line| && e.Addresses(s)
  {
    e.Complete? && e.id != 0 ==> e.id < 32 * words && (e.id in s.enabled[e.c] ==> e.id <= s.sources)
  }

  ghost function AfterRaise(s: State, id: nat): State
    requires s.Valid() && s.Source(id)
  {
    var s1 := s.(pending := s.pending + {id}, open := s.open - {id});
    s1.(line := seq(|s.line|, c requires 0 <= c < |s.line| => s1.HasEligible(c)))
  }

  ghost function AfterClaim(s: State, c: nat): State
    requires s.Valid() && s.Context(c)
  {
    var id := s.Top(c);
    var s1 := s.(pending := s.pending - {id}, claimed := s.claimed[c := id]);
    s1.(line := s.line[c := s1.HasEligible(c)])
  }

  ghost function AfterReset(s: State): State {
    s.(priority := seq(|s.priority|, _ => 0), pending := {}, enabled := seq(|s.enabled|, _ => {}),
       threshold := seq(|s.threshold|, _ => 0), claimed := seq(|s.claimed|, _ => 0))
  }

  ghost function Next(s: State, e: Event): (s': State)
    requires s.Valid() && e.Addresses(s)
    ensures s'.Valid() && s'.sources == s.sources && |s'.line| == |s.line|
  {
    match e
    case Raise(id, _) => if Accepts(s, e) then AfterRaise(s, id) else s
    case Claim(c) => AfterClaim(s, c)
    case Complete(c, id) => if Completes(s, e) then s.(open := s.open + {id}) else s
    case SetPriority(id, p) => s.(priority := s.priority[id := p])
    case SetThreshold(c, t) => s.(threshold := s.threshold[c := t])
    case SetEnabled(c, ids) => s.(enabled := s.enabled[c := ids])
    case Reset => AfterReset(s)
  }

  // ---------------------------------------------------------------- arbitration

  lemma {:induction false} TopUpToIsBest(s: State, c: nat, n: nat)
    requires s.Valid() && s.Context(c) && n <= s.sources
    ensures s.TopUpTo(c, n) == 0 ==> forall j: nat | j <= n :: !s.Eligible(c, j)
    ensures s.TopUpTo(c, n) != 0 ==>
              forall j: nat | j <= n && s.Eligible(c, j) && j != s.TopUpTo(c, n) :: s.Beats(s.TopUpTo(c, n), j)
  {
    if n > 0 {
      TopUpToIsBest(s, c, n - 1);
    }
  }

  /** One step of the pass, as a scan with a running best priority takes it. */
  lemma TopUpToStep(s: State, c: nat, n: nat, best: nat, bestPriority: nat)
    requires s.Valid() && s.Context(c) && n < s.sources
    requires best == s.TopUpTo(c, n) && bestPriority == if best == 0 then 0 else s.priority[best]
    ensures s.TopUpTo(c, n + 1) == if s.Eligible(c, n + 1) && s.priority[n + 1] > bestPriority then n + 1 else best
  {
  }

  /** Once the pass has met an eligible source it ends with one. */
  lemma {:induction false} TopUpToStays(s: State, c: nat, m: nat, n: nat)
    requires s.Valid() && s.Context(c) && m <= n <= s.sources && s.TopUpTo(c, m) != 0
    ensures s.TopUpTo(c, n) != 0
  {
    if m < n {
      TopUpToStays(s, c, m, n - 1);
    }
  }

  /** The scan finds the lexicographic maximum, and 0 exactly when nothing is eligible. */
  lemma TopIsMaximum(s: State, c: nat)
    requires s.Valid() && s.Context(c)
    ensures s.Top(c) == 0 <==> !s.HasEligible(c)
    ensures s.Top(c) != 0 <==> s.IsTop(c, s.Top(c))
    ensures forall id | s.IsTop(c, id) :: id == s.Top(c)
  {
    TopUpToIsBest(s, c, s.sources);
  }

  // ---------------------------------------------------------------- runs

  /** Every event of the run addresses existing sources and contexts. */
  ghost predicate WellFormed(s: State, es: seq<Event>) {
    forall e | e in es :: e.Addresses(s)
  }

  lemma AddressesKept(s: State, s': State, e: Event)
    requires e.Addresses(s) && s'.sources == s.sources && |s'.line| == |s.line|
    ensures e.Addresses(s')
  {
  }

  ghost function Run(s: State, es: seq<Event>): (s': State)
    requires s.Valid() && WellFormed(s, es)
    ensures s'.Valid() && s'.sources == s.sources && |s'.line| == |s.line|
  {
    if es == [] then s
    else
      var s1 := Run(s, es[..|es| - 1]);
      AddressesKept(s, s1, es[|es| - 1]);
      Next(s1, es[|es| - 1])
  }

  /** No source pending, every gateway open. */
  ghost predicate Initial(s: State) {
    s.Valid() && s.pending == {} && (forall id | s.Source(id) :: id in s.open)
  }

  /** A controller fresh from construction and reset: all registers zero, all lines low. */
  ghost predicate FromReset(s: State) {
    Initial(s) && s == AfterReset(s) && s.line == seq(|s.line|, _ => false)
  }

  function Count(b: bool): nat {
    if b then 1 else 0
  }

  /** What has happened to source `id` so far. */
  datatype Ledger = Ledger(raises: nat, claims: nat, completions: nat)

  ghost function Post(l: Ledger, s: State, e: Event, id: nat): Ledger
    requires s.Valid() && e.Addresses(s)
  {
    Ledger(l.raises + Count(Accepts(s, e) && e.id == id),
           l.claims + Count(e.Claim? && s.Top(e.c) == id),
           l.completions + Count(Completes(s, e) && e.id == id))
  }

  ghost function Book(s: State, es: seq<Event>, id: nat): Ledger
    requires s.Valid() && WellFormed(s, es)
  {
    if es == [] then Ledger(0, 0, 0)
    else
      var front := es[..|es| - 1];
      AddressesKept(s, Run(s, front), es[|es| - 1]);
      Post(Book(s, front, id), Run(s, front), es[|es| - 1], id)
  }

  /** Conservation, in every run whatever software writes: no source is claimed more often than it was
      raised, nor raised more often than its gateway was opened. */
  lemma {:induction false} Conservation(s: State, es: seq<Event>, id: nat)
    requires Initial(s) && WellFormed(s, es) && s.Source(id)
    ensures var l, now := Book(s, es, id), Run(s, es);
            && l.claims + Count(id in now.pending) <= l.raises
            && l.raises <= l.completions + Count(id !in now.open)
  {
    if es != [] {
      var front, e := es[..|es| - 1], es[|es| - 1];
      Conservation(s, front, id);
      AddressesKept(s, Run(s, front), e);
    }
  }

  // ---------------------------------------------------------------- completions out of bounds

  ghost predicate StaysInBounds(s: State, words: nat, es: seq<Event>)
    requires s.Valid() && WellFormed(s, es)
  {
    es == [] || (
      var front, e := es[..|es| - 1], es[|es| - 1];
      AddressesKept(s, Run(s, front), e);
      StaysInBounds(s, words, front) && InBounds(Run(s, front), words, e))
  }

  /** No context has an id above the number of sources enabled. */
  ghost predicate EnablesSources(s: State) {
    forall c, id | 0 <= c < |s.enabled| && id in s.enabled[c] :: id <= s.sources
  }

  /** In a state, no completion of an id that has an enable bit can leave the arrays exactly if only
      sources are enabled. */
  lemma CompletionsSafe(s: State, words: nat)
    requires s.Valid() && forall c, id | 0 <= c < |s.enabled| && id in s.enabled[c] :: id < 32 * words
    ensures (forall c: nat, id: nat | s.Context(c) && id < 32 * words :: InBounds(s, words, Complete(c, id)))
       <==> EnablesSources(s)
  {
    if !EnablesSources(s) {
      var c: nat, id: nat :| c < |s.enabled| && id in s.enabled[c] && id > s.sources;
      assert !InBounds(s, words, Complete(c, id));
    }
  }

  /** Software writes only enable bits of sources, and completes only ids that have an enable bit. */
  ghost predicate KeepsToSources(s: State, words: nat, e: Event) {
    && (e.SetEnabled? ==> forall id | id in e.enabled :: id <= s.sources)
    && (e.Complete? ==> e.id < 32 * words)
  }

  /** Software that never enables an id above the number of sources, and completes only ids that have an
      enable bit, never leaves the arrays. */
  lemma {:induction false} EnablingSourcesIsSafe(s: State, words: nat, es: seq<Event>)
    requires s.Valid() && EnablesSources(s) && WellFormed(s, es)
    requires forall e | e in es :: KeepsToSources(s, words, e)
    ensures StaysInBounds(s, words, es) && EnablesSources(Run(s, es))
  {
    if es != [] {
      var front, e := es[..|es| - 1], es[|es| - 1];
      EnablingSourcesIsSafe(s, words, front);
      AddressesKept(s, Run(s, front), e);
      assert e in es;
    }
  }

  /** The failing run: wherever the enable words have a spare bit, enabling and then completing its id
      stores past the gateways. */
  lemma SpareBitLeavesBounds(s: State, words: nat)
    requires Initial(s) && s.Context(0) && s.sources + 1 < 32 * words
    ensures var es := [SetEnabled(0, {s.sources + 1}), Complete(0, s.sources + 1)];
            WellFormed(s, es) && !StaysInBounds(s, words, es)
  {
    var es := [SetEnabled(0, {s.sources + 1}), Complete(0, s.sources + 1)];
    assert es[..1] == [es[0]] && es[..1][..0] == [];
    assert Run(s, es[..1]) == Next(s, es[0]);
  }

  /** Nor does it help to enable nothing: in any context, completing an id that has no enable bit reads past
      the enable words. */
  lemma CompletionWithoutEnableBit(s: State, words: nat, c: nat, id: nat)
    requires Initial(s) && s.Context(c) && id != 0 && id >= 32 * words
    ensures WellFormed(s, [Complete(c, id)]) && !StaysInBounds(s, words, [Complete(c, id)])
  {
    assert [Complete(c, id)][..0] == [];
    assert !InBounds(s, words, Complete(c, id));
  }

  // ---------------------------------------------------------------- lifecycle under disciplined software

  /** The (source, context) pairs in service: claimed, and not completed since. */
  ghost function InService(s: State, es: seq<Event>): set<(nat, nat)>
    requires s.Valid() && WellFormed(s, es)
  {
    if es == [] then {}
    else
      var front, e := es[..|es| - 1], es[|es| - 1];
      var s1 := Run(s, front);
      AddressesKept(s, s1, e);
      if e.Claim? && s1.Top(e.c) != 0 then InService(s, front) + {(s1.Top(e.c), e.c)}
      else if Completes(s1, e) then set p | p in InService(s, front) && p.0 != e.id
      else InService(s, front)
  }

  ghost predicate Serving(service: set<(nat, nat)>, id: nat) {
    exists c :: (id, c) in service
  }

  /** Software's completions, as far as they are accepted, name sources in service, and the controller is
      not reset. */
  ghost predicate Disciplined(s: State, es: seq<Event>)
    requires s.Valid() && WellFormed(s, es)
  {
    es == [] || (
      var front, e := es[..|es| - 1], es[|es| - 1];
      AddressesKept(s, Run(s, front), e);
      && Disciplined(s, front)
      && !e.Reset?
      && (Completes(Run(s, front), e) ==> Serving(InService(s, front), e.id)))
  }

  ghost predicate OneServer(service: set<(nat, nat)>) {
    forall p, q | p in service && q in service && p.0 == q.0 :: p == q
  }

  /** Idle, pending, or in service: the three phases of a source. */
  ghost predicate InOnePhase(s: State, service: set<(nat, nat)>, id: nat) {
    || (id in s.open && id !in s.pending && !Serving(service, id))
    || (id !in s.open && id in s.pending && !Serving(service, id))
    || (id !in s.open && id !in s.pending && Serving(service, id))
  }

  lemma {:induction false} Lifecycle(s: State, es: seq<Event>)
    requires Initial(s) && WellFormed(s, es) && Disciplined(s, es)
    ensures OneServer(InService(s, es))
    ensures forall id | s.Source(id) :: InOnePhase(Run(s, es), InService(s, es), id)
  {
    if es != [] {
      var front, e := es[..|es| - 1], es[|es| - 1];
      var s1, before := Run(s, front), InService(s, front);
      AddressesKept(s, s1, e);
      Lifecycle(s, front);
      var s2, after := Run(s, es), InService(s, es);
      forall id | s.Source(id) ensures InOnePhase(s2, after, id) {
        assert InOnePhase(s1, before, id);
        ServiceStep(s, es, id);
      }
      if e.Claim? && s1.Top(e.c) != 0 {
        assert InOnePhase(s1, before, s1.Top(e.c));
      }
    }
  }

  /** How one event changes whether `id` is in service. */
  lemma ServiceStep(s: State, es: seq<Event>, id: nat)
    requires s.Valid() && WellFormed(s, es) && es != []
    ensures var front, e := es[..|es| - 1], es[|es| - 1];
            var s1 := Run(s, front);
            e.Addresses(s1) &&
            (Serving(InService(s, es), id) <==>
              if e.Claim? && s1.Top(e.c) == id != 0 then true
              else if Completes(s1, e) && e.id == id then false
              else Serving(InService(s, front), id))
  {
    var front, e := es[..|es| - 1], es[|es| - 1];
    var s1 := Run(s, front);
    AddressesKept(s, s1, e);
    var before, after := InService(s, front), InService(s, es);
    if e.Claim? && s1.Top(e.c) == id != 0 {
      assert (id, e.c) in after;
    } else if Completes(s1, e) && e.id == id {
    } else {
      forall c ensures (id, c) in after <==> (id, c) in before {
      }
    }
  }

  /** In disciplined runs the conservation inequalities are equalities. */
  lemma {:induction false} ExactConservation(s: State, es: seq<Event>, id: nat)
    requires Initial(s) && WellFormed(s, es) && Disciplined(s, es) && s.Source(id)
    ensures var l, now := Book(s, es, id), Run(s, es);
            && l.claims + Count(id in now.pending) == l.raises
            && l.raises == l.completions + Count(id !in now.open)
            && l.claims == l.completions + Count(Serving(InService(s, es), id))
  {
    if es != [] {
      var front, e := es[..|es| - 1], es[|es| - 1];
      ExactConservation(s, front, id);
      AddressesKept(s, Run(s, front), e);
      Lifecycle(s, front);
      assert InOnePhase(Run(s, front), InService(s, front), id);
      ServiceStep(s, es, id);
    }
  }

  // ---------------------------------------------------------------- no lost interrupt

  /** Every context with an eligible source has its line asserted. */
  ghost predicate Covered(s: State)
    requires s.Valid()
  {
    forall c: nat | s.Context(c) && s.HasEligible(c) :: s.line[c]
  }

  /** Whatever the event makes newly eligible, it does so for contexts whose line is already high. */
  ghost predicate Harmless(s: State, e: Event)
    requires s.Valid() && e.Addresses(s)
  {
    forall c: nat, id: nat | s.Context(c) && Next(s, e).Eligible(c, id) && !s.Eligible(c, id) :: s.line[c]
  }

  lemma SameEligibility(s: State, t: State, c: nat)
    requires s.Valid() && t.Valid() && s.Context(c) && t.Context(c)
    requires forall id: nat :: s.Eligible(c, id) <==> t.Eligible(c, id)
    ensures s.HasEligible(c) == t.HasEligible(c)
  {
  }

  /** An accepted raise refreshes every line, a claim the line of its own context. */
  lemma LineRefreshed(s: State, e: Event, c: nat)
    requires s.Valid() && e.Addresses(s) && s.Context(c)
    requires Accepts(s, e) || e == Claim(c)
    ensures Next(s, e).line[c] == Next(s, e).HasEligible(c)
  {
    var s' := Next(s, e);
    SameEligibility(s', s'.(line := s.line), c);
  }

  /** One event keeps every eligible source signalled, with one exception: a configuration write that
      makes a source eligible for a context whose line is low. */
  lemma StepCovers(s: State, e: Event)
    requires s.Valid() && e.Addresses(s) && Covered(s)
    ensures Covered(Next(s, e)) <==> (e.IsConfiguration() ==> Harmless(s, e))
  {
    var s' := Next(s, e);
    if e.IsConfiguration() ==> Harmless(s, e) {
      forall c: nat | s'.Context(c) && s'.HasEligible(c) ensures s'.line[c] {
        if Accepts(s, e) || e == Claim(c) {
          LineRefreshed(s, e, c);
        } else {
          var id :| s'.Eligible(c, id);
          assert s.Eligible(c, id) ==> s.HasEligible(c);
        }
      }
    } else {
      var c: nat, id: nat :| s.Context(c) && s'.Eligible(c, id) && !s.Eligible(c, id) && !s.line[c];
      assert s'.HasEligible(c) && !s'.line[c];
    }
  }

  /** The write can only take sources away from what a context may receive. */
  predicate Shrinks(s: State, e: Event)
    requires s.Valid() && e.Addresses(s)
  {
    match e
    case SetPriority(id, p) => p <= s.priority[id]
    case SetThreshold(c, t) => t >= s.threshold[c]
    case SetEnabled(c, ids) => ids <= s.enabled[c]
    case _ => false
  }

  /** Lowering a priority, raising a threshold and clearing enable bits make no source eligible, in any
      state. */
  lemma ShrinkingIsHarmless(s: State, e: Event)
    requires s.Valid() && e.Addresses(s) && Shrinks(s, e)
    ensures forall c: nat, id: nat | s.Context(c) && Next(s, e).Eligible(c, id) :: s.Eligible(c, id)
    ensures Harmless(s, e)
  {
    forall c: nat, id: nat | s.Context(c) && Next(s, e).Eligible(c, id) ensures s.Eligible(c, id) {
    }
  }

  ghost predicate AlwaysCovered(s: State, es: seq<Event>)
    requires s.Valid() && WellFormed(s, es)
  {
    Covered(Run(s, es)) && (es == [] || AlwaysCovered(s, es[..|es| - 1]))
  }

  ghost predicate HarmlessWrites(s: State, es: seq<Event>)
    requires s.Valid() && WellFormed(s, es)
  {
    es == [] || (
      var front, e := es[..|es| - 1], es[|es| - 1];
      AddressesKept(s, Run(s, front), e);
      HarmlessWrites(s, front) && (e.IsConfiguration() ==> Harmless(Run(s, front), e)))
  }

  /** No interrupt is lost, although a claim re-evaluates the line of the claiming context only: a run
      keeps every eligible source signalled throughout exactly when its configuration writes are
      harmless, whatever its raises, claims, completions and resets. */
  lemma {:induction false} NoLostInterrupt(s: State, es: seq<Event>)
    requires s.Valid() && WellFormed(s, es) && Covered(s)
    ensures AlwaysCovered(s, es) <==> HarmlessWrites(s, es)
  {
    if es != [] {
      var front, e := es[..|es| - 1], es[|es| - 1];
      NoLostInterrupt(s, front);
      AddressesKept(s, Run(s, front), e);
      assert AlwaysCovered(s, front) ==> Covered(Run(s, front));
      if Covered(Run(s, front)) {
        StepCovers(Run(s, front), e);
      }
    }
  }

  ghost predicate OnlyShrinks(s: State, es: seq<Event>)
    requires s.Valid() && WellFormed(s, es)
  {
    es == [] || (
      var front, e := es[..|es| - 1], es[|es| - 1];
      AddressesKept(s, Run(s, front), e);
      OnlyShrinks(s, front) && (e.IsConfiguration() ==> Shrinks(Run(s, front), e)))
  }

  /** In particular no interrupt is lost in a run whose configuration writes only shrink what is eligible. */
  lemma {:induction false} ShrinkingLosesNothing(s: State, es: seq<Event>)
    requires s.Valid() && WellFormed(s, es) && Covered(s) && OnlyShrinks(s, es)
    ensures AlwaysCovered(s, es)
  {
    if es != [] {
      var front, e := es[..|es| - 1], es[|es| - 1];
      ShrinkingLosesNothing(s, front);
      AddressesKept(s, Run(s, front), e);
      if e.IsConfiguration() {
        ShrinkingIsHarmless(Run(s, front), e);
      }
      StepCovers(Run(s, front), e);
    }
  }

  /** One more event of a run. */
  lemma RunSnoc(s: State, es: seq<Event>, e: Event)
    requires s.Valid() && WellFormed(s, es) && e.Addresses(s)
    ensures WellFormed(s, es + [e]) && e.Addresses(Run(s, es)) && Run(s, es + [e]) == Next(Run(s, es), e)
  {
    AddressesKept(s, Run(s, es), e);
    assert (es + [e])[..|es|] == es;
  }

  /** Enabling a source that is already pending, for a context whose line is low, leaves it unsignalled. */
  lemma EnablingPending(s: State, c: nat, id: nat)
    requires s.Valid() && s.Context(c) && s.Source(id) && id in s.pending
    requires s.priority[id] > s.threshold[c] && !s.line[c]
    ensures !Covered(Next(s, SetEnabled(c, {id})))
  {
    assert Next(s, SetEnabled(c, {id})).Eligible(c, id);
  }

  /** A raise that no context has enabled goes pending under a low line. */
  lemma RaiseWhileDisabled(s: State, c: nat, id: nat)
    requires s.Valid() && s.Context(c) && s.Source(id) && id in s.open && s.enabled[c] == {}
    ensures var t := Next(s, Raise(id, true));
            id in t.pending && !t.line[c] && t.priority == s.priority && t.threshold == s.threshold
  {
    LineRefreshed(s, Raise(id, true), c);
  }

  lemma Displays(e1: Event, e2: Event, e3: Event, e4: Event, e5: Event)
    ensures [] + [e1] == [e1] && [e1] + [e2] == [e1, e2] && [e1, e2] + [e3] == [e1, e2, e3]
    ensures [e1, e2, e3] + [e4] == [e1, e2, e3, e4] && [e1, e2, e3, e4] + [e5] == [e1, e2, e3, e4, e5]
  {
  }

  lemma RunOfThree(s: State, e1: Event, e2: Event, e3: Event)
    requires s.Valid() && e1.Addresses(s) && e2.Addresses(s) && e3.Addresses(s)
    ensures e2.Addresses(Next(s, e1)) && e3.Addresses(Next(Next(s, e1), e2))
    ensures WellFormed(s, [e1, e2, e3]) && Run(s, [e1, e2, e3]) == Next(Next(Next(s, e1), e2), e3)
  {
    Displays(e1, e2, e3, e3, e3);
    RunSnoc(s, [], e1);
    RunSnoc(s, [e1], e2);
    RunSnoc(s, [e1, e2], e3);
  }

  lemma RunOfFive(s: State, e1: Event, e2: Event, e3: Event, e4: Event, e5: Event)
    requires s.Valid() && e1.Addresses(s) && e2.Addresses(s) && e3.Addresses(s) && e4.Addresses(s) && e5.Addresses(s)
    ensures WellFormed(s, [e1, e2, e3]) && WellFormed(s, [e1, e2, e3, e4, e5])
    ensures var t := Run(s, [e1, e2, e3]);
            && e4.Addresses(t) && e5.Addresses(Next(t, e4))
            && Run(s, [e1, e2, e3, e4, e5]) == Next(Next(t, e4), e5)
  {
    Displays(e1, e2, e3, e4, e5);
    RunSnoc(s, [e1, e2, e3], e4);
    RunSnoc(s, [e1, e2, e3, e4], e5);
  }

  lemma ResetIsCovered(s: State)
    requires FromReset(s)
    ensures Covered(s)
  {
  }

  /** Such writes occur: from reset on, configuring, raising and then enabling any source for any context
      loses its interrupt. */
  lemma EnablingLosesInterrupt(s: State, c: nat, id: nat)
    requires FromReset(s) && s.Source(id) && s.Context(c)
    ensures var es := [SetPriority(id, 1), Raise(id, true), SetEnabled(c, {id})];
            WellFormed(s, es) && Covered(s) && !Covered(Run(s, es))
  {
    var e1, e2, e3 := SetPriority(id, 1), Raise(id, true), SetEnabled(c, {id});
    ResetIsCovered(s);
    RunOfThree(s, e1, e2, e3);
    RaiseWhileDisabled(Next(s, e1), c, id);
    EnablingPending(Next(Next(s, e1), e2), c, id);
  }

  /** With a single context and no configuration writes the line is exactly eligibility. */
  lemma {:induction false} SingleContextExact(s: State, es: seq<Event>)
    requires s.Valid() && WellFormed(s, es) && |s.line| == 1 && s.line[0] == s.HasEligible(0)
    requires forall e | e in es :: !e.IsConfiguration() && !e.Reset?
    ensures Run(s, es).line[0] == Run(s, es).HasEligible(0)
  {
    if es != [] {
      var front, e := es[..|es| - 1], es[|es| - 1];
      SingleContextExact(s, front);
      var s1 := Run(s, front);
      AddressesKept(s, s1, e);
      if Accepts(s1, e) || e.Claim? {
        LineRefreshed(s1, e, 0);
      } else {
        assert e in es;
        SameEligibility(s1, Next(s1, e), 0);
      }
    }
  }

  // ---------------------------------------------------------------- lines that tell the truth

  /** Every line is high exactly if its context has an eligible source. */
  ghost predicate Exact(s: State)
    requires s.Valid()
  {
    forall c: nat | s.Context(c) :: s.line[c] == s.HasEligible(c)
  }

  /** What decides it beforehand: a claim must not take the last eligible source of another context, a
      configuration write must leave every context something, or nothing, to claim as before, and a reset
      must find all lines low. Raises and completions never matter. */
  ghost predicate SparesLines(s: State, e: Event)
    requires s.Valid() && e.Addresses(s)
  {
    match e
    case Raise(_, _) => true
    case Complete(_, _) => true
    case Claim(c) => forall d: nat | s.Context(d) && d != c :: s.EligibleSet(d) != {s.Top(c)}
    case Reset => forall d: nat | s.Context(d) :: !s.line[d]
    case _ => forall d: nat | s.Context(d) :: Next(s, e).HasEligible(d) == s.HasEligible(d)
  }

  lemma EligibleSetIsEmpty(s: State, c: nat)
    requires s.Valid() && s.Context(c)
    ensures s.HasEligible(c) <==> s.EligibleSet(c) != {}
  {
    if s.HasEligible(c) {
      var id :| s.Eligible(c, id);
      assert id in s.EligibleSet(c);
    }
  }

  /** A claim leaves the line of another context alone, and takes the winner away from it. */
  lemma ClaimElsewhere(s: State, c: nat, d: nat)
    requires s.Valid() && s.Context(c) && s.Context(d) && d != c
    ensures Next(s, Claim(c)).line[d] == s.line[d]
    ensures Next(s, Claim(c)).HasEligible(d) == s.HasEligible(d) <==> s.EligibleSet(d) != {s.Top(c)}
  {
    var s' := Next(s, Claim(c));
    assert s'.EligibleSet(d) == s.EligibleSet(d) - {s.Top(c)};
    EligibleSetIsEmpty(s, d);
    EligibleSetIsEmpty(s', d);
  }

  /** Events that refresh no line keep it exact only if they leave eligibility as it was. */
  lemma UntouchedLine(s: State, e: Event, d: nat)
    requires s.Valid() && e.Addresses(s) && s.Context(d) && !Accepts(s, e) && !e.Claim?
    ensures Next(s, e).line[d] == s.line[d]
    ensures e.Raise? || e.Complete? ==> Next(s, e).HasEligible(d) == s.HasEligible(d)
    ensures e.Reset? ==> !Next(s, e).HasEligible(d)
  {
    if e.Raise? || e.Complete? {
      SameEligibility(s, Next(s, e), d);
    }
  }

  lemma AcceptedRaiseIsExact(s: State, e: Event)
    requires s.Valid() && e.Addresses(s) && Accepts(s, e)
    ensures Exact(Next(s, e))
  {
    forall d: nat | s.Context(d) ensures Next(s, e).line[d] == Next(s, e).HasEligible(d) {
      LineRefreshed(s, e, d);
    }
  }

  /** One event keeps all lines exact if and only if it spares them; an accepted raise makes them exact
      whatever they were before. */
  lemma StepKeepsExact(s: State, e: Event)
    requires s.Valid() && e.Addresses(s)
    ensures Accepts(s, e) ==> Exact(Next(s, e))
    ensures Exact(s) ==> (Exact(Next(s, e)) <==> SparesLines(s, e))
  {
    if Accepts(s, e) {
      AcceptedRaiseIsExact(s, e);
    } else if e.Claim? {
      LineRefreshed(s, e, e.c);
      forall d: nat | s.Context(d) && d != e.c
        ensures Next(s, e).line[d] == s.line[d]
        ensures Next(s, e).HasEligible(d) == s.HasEligible(d) <==> s.EligibleSet(d) != {s.Top(e.c)}
      {
        ClaimElsewhere(s, e.c, d);
      }
    } else {
      forall d: nat | s.Context(d)
        ensures Next(s, e).line[d] == s.line[d]
        ensures e.Raise? || e.Complete? ==> Next(s, e).HasEligible(d) == s.HasEligible(d)
        ensures e.Reset? ==> !Next(s, e).HasEligible(d)
      {
        UntouchedLine(s, e, d);
      }
    }
  }

  ghost predicate AlwaysExact(s: State, es: seq<Event>)
    requires s.Valid() && WellFormed(s, es)
  {
    Exact(Run(s, es)) && (es == [] || AlwaysExact(s, es[..|es| - 1]))
  }

  ghost predicate SparesLinesThroughout(s: State, es: seq<Event>)
    requires s.Valid() && WellFormed(s, es)
  {
    es == [] || (
      var front, e := es[..|es| - 1], es[|es| - 1];
      AddressesKept(s, Run(s, front), e);
      SparesLinesThroughout(s, front) && SparesLines(Run(s, front), e))
  }

  /** Over any run and any number of contexts: the lines tell exactly which contexts have something to claim,
      throughout, if and only if every event spares them. */
  lemma {:induction false} LinesTellTheTruth(s: State, es: seq<Event>)
    requires s.Valid() && WellFormed(s, es) && Exact(s)
    ensures AlwaysExact(s, es) <==> SparesLinesThroughout(s, es)
  {
    if es != [] {
      var front, e := es[..|es| - 1], es[|es| - 1];
      LinesTellTheTruth(s, front);
      AddressesKept(s, Run(s, front), e);
      assert AlwaysExact(s, front) ==> Exact(Run(s, front));
      if Exact(Run(s, front)) {
        StepKeepsExact(Run(s, front), e);
      }
    }
  }

  /** Raised and claimed, a source that two contexts share leaves a line high for nothing. */
  lemma ClaimOfShared(s: State, c: nat, d: nat, id: nat)
    requires s.Valid() && s.Context(c) && s.Context(d) && c != d && s.Source(id) && id in s.open && s.pending == {}
    requires id in s.enabled[c] && id in s.enabled[d]
    requires s.priority[id] > s.threshold[c] && s.priority[id] > s.threshold[d]
    ensures !Exact(Next(Next(s, Raise(id, true)), Claim(c)))
  {
    var t := Next(s, Raise(id, true));
    AcceptedRaiseIsExact(s, Raise(id, true));
    assert t.Eligible(c, id) && t.Eligible(d, id);
    TopIsMaximum(t, c);
    assert t.EligibleSet(d) == {id} && t.Top(c) == id;
    StepKeepsExact(t, Claim(c));
  }

  /** Such runs start from reset, for any source and any two contexts. */
  lemma ClaimLeavesStaleLine(s: State, c: nat, d: nat, id: nat)
    requires FromReset(s) && s.Source(id) && s.Context(c) && s.Context(d) && c != d
    ensures var es := [SetPriority(id, 1), SetEnabled(c, {id}), SetEnabled(d, {id}), Raise(id, true), Claim(c)];
            WellFormed(s, es) && Exact(s) && !Exact(Run(s, es))
  {
    var e1, e2, e3 := SetPriority(id, 1), SetEnabled(c, {id}), SetEnabled(d, {id});
    RunOfThree(s, e1, e2, e3);
    RunOfFive(s, e1, e2, e3, Raise(id, true), Claim(c));
    ClaimOfShared(Next(Next(Next(s, e1), e2), e3), c, d, id);
  }

  // ---------------------------------------------------------------- reset and closed gateways

  /** `id` is completed, in a way that counts, somewhere in the run. */
  ghost predicate Reopens(s: State, es: seq<Event>, id: nat)
    requires s.Valid() && WellFormed(s, es)
  {
    es != [] && (
      var front, e := es[..|es| - 1], es[|es| - 1];
      AddressesKept(s, Run(s, front), e);
      Reopens(s, front, id) || (Completes(Run(s, front), e) && e.id == id))
  }

  /** A source that is neither pending nor open stays so, through any raises, claims, writes and further
      resets, exactly until an accepted completion opens its gateway. */
  lemma {:induction false} ClosedUntilCompleted(s: State, es: seq<Event>, id: nat)
    requires s.Valid() && WellFormed(s, es) && s.Source(id) && id !in s.open && id !in s.pending
    ensures !Reopens(s, es, id) ==> id !in Run(s, es).open && id !in Run(s, es).pending
    ensures es != [] && !Reopens(s, es[..|es| - 1], id) && Reopens(s, es, id) ==> id in Run(s, es).open
  {
    if es != [] {
      var front, e := es[..|es| - 1], es[|es| - 1];
      ClosedUntilCompleted(s, front, id);
      AddressesKept(s, Run(s, front), e);
    }
  }

  /** Reset strands every source whose gateway is closed: its pending bit is gone, its gateway stays
      closed, and until a completion of it is accepted, no raise of it has any effect. */
  lemma ResetStrandsClosed(s: State, es: seq<Event>, id: nat, value: bool)
    requires s.Valid() && WellFormed(Next(s, Reset), es) && s.Source(id) && id !in s.open
    requires !Reopens(Next(s, Reset), es, id)
    ensures var t := Run(Next(s, Reset), es);
            id !in t.pending && id !in t.open && Next(t, Raise(id, value)) == t
  {
    ClosedUntilCompleted(Next(s, Reset), es, id);
  }

  // ---------------------------------------------------------------- draining

  /** A claim removes exactly the winner from what the claiming context may take. */
  lemma ClaimRemovesTop(s: State, c: nat)
    requires s.Valid() && s.Context(c)
    ensures Next(s, Claim(c)).EligibleSet(c) == s.EligibleSet(c) - {s.Top(c)}
    ensures s.Top(c) != 0 <==> s.Top(c) in s.EligibleSet(c)
    ensures Next(s, Claim(c)).priority == s.priority
  {
  }

  /** The ids returned by claiming again and again until 0 comes back. */
  ghost function Drain(s: State, c: nat): seq<nat>
    requires s.Valid() && s.Context(c)
    decreases |s.EligibleSet(c)|
  {
    ClaimRemovesTop(s, c);
    if s.Top(c) == 0 then [] else [s.Top(c)] + Drain(Next(s, Claim(c)), c)
  }

  ghost function Claims(c: nat, n: nat): seq<Event> {
    seq(n, _ => Claim(c))
  }

  /** Strictly descending in the order of arbitration; in particular without repetition. */
  ghost predicate Ranked(s: State, ids: seq<nat>)
    requires s.Valid()
  {
    && (forall id | id in ids :: s.Source(id))
    && (forall i, j | 0 <= i < j < |ids| :: s.Beats(ids[i], ids[j]))
  }

  lemma RankedCons(s: State, s': State, top: nat, ids: seq<nat>)
    requires s.Valid() && s'.Valid() && s'.priority == s.priority && s'.sources == s.sources
    requires Ranked(s', ids) && s.Source(top) && forall id | id in ids :: s.Source(id) && s.Beats(top, id)
    ensures Ranked(s, [top] + ids)
  {
    forall i, j | 0 <= i < j < |ids| ensures s.Beats(ids[i], ids[j]) {
      assert s'.Beats(ids[i], ids[j]);
    }
  }

  lemma SetSizes(all: set<nat>, top: nat)
    requires top in all
    ensures |all - {top}| == |all| - 1
  {
  }

  /** Claiming returns every eligible source exactly once, by descending priority and ascending id. */
  lemma {:induction false} DrainSorts(s: State, c: nat)
    requires s.Valid() && s.Context(c)
    ensures forall id :: id in Drain(s, c) <==> s.Eligible(c, id)
    ensures Ranked(s, Drain(s, c))
    ensures |Drain(s, c)| == |s.EligibleSet(c)|
    decreases |s.EligibleSet(c)|
  {
    ClaimRemovesTop(s, c);
    TopIsMaximum(s, c);
    if s.Top(c) != 0 {
      var s' := Next(s, Claim(c));
      DrainSorts(s', c);
      SetSizes(s.EligibleSet(c), s.Top(c));
      forall id ensures s'.Eligible(c, id) <==> s.Eligible(c, id) && id != s.Top(c) {
      }
      RankedCons(s, s', s.Top(c), Drain(s', c));
    } else {
      assert s.EligibleSet(c) == {};
    }
  }

  /** A claim that finds nothing returns 0 and leaves the line low. */
  lemma EmptyClaim(s: State, c: nat)
    requires s.Valid() && s.Context(c) && s.Top(c) == 0
    ensures var s' := Next(s, Claim(c)); s'.Top(c) == 0 && s'.claimed[c] == 0 && !s'.line[c]
  {
    var s' := Next(s, Claim(c));
    TopIsMaximum(s, c);
    assert forall id: nat | s'.Eligible(c, id) :: s.Eligible(c, id);
    TopIsMaximum(s', c);
    LineRefreshed(s, Claim(c), c);
  }

  /** A run may be read from its first event as well as to its last. */
  lemma {:induction false} RunFirst(s: State, e: Event, es: seq<Event>)
    requires s.Valid() && WellFormed(s, es) && e.Addresses(s)
    ensures WellFormed(s, [e] + es) && WellFormed(Next(s, e), es)
    ensures Run(s, [e] + es) == Run(Next(s, e), es)
  {
    forall x | x in es ensures x.Addresses(Next(s, e)) {
      AddressesKept(s, Next(s, e), x);
    }
    if es == [] {
      assert ([e] + es)[..0] == [];
    } else {
      var front := es[..|es| - 1];
      assert ([e] + es)[..|es|] == [e] + front;
      RunFirst(s, e, front);
    }
  }

  lemma ClaimsAddress(s: State, c: nat, n: nat)
    requires s.Context(c)
    ensures WellFormed(s, Claims(c, n))
  {
  }

  lemma ClaimsCons(c: nat, n: nat)
    ensures Claims(c, n + 1) == [Claim(c)] + Claims(c, n)
  {
  }

  /** Claiming once more is claiming once and then the other times. */
  lemma FirstClaim(s: State, c: nat, n: nat)
    requires s.Valid() && s.Context(c)
    ensures WellFormed(s, Claims(c, n + 1)) && WellFormed(Next(s, Claim(c)), Claims(c, n))
    ensures Run(s, Claims(c, n + 1)) == Run(Next(s, Claim(c)), Claims(c, n))
  {
    ClaimsAddress(s, c, n);
    ClaimsCons(c, n);
    RunFirst(s, Claim(c), Claims(c, n));
  }

  /** After the last of them the line is low and a further claim returns 0. */
  lemma {:induction false} DrainEndsLow(s: State, c: nat)
    requires s.Valid() && s.Context(c)
    ensures WellFormed(s, Claims(c, |Drain(s, c)| + 1))
    ensures var end := Run(s, Claims(c, |Drain(s, c)| + 1)); end.Top(c) == 0 && end.claimed[c] == 0 && !end.line[c]
    decreases |s.EligibleSet(c)|
  {
    ClaimRemovesTop(s, c);
    FirstClaim(s, c, |Drain(s, c)|);
    if s.Top(c) == 0 {
      EmptyClaim(s, c);
    } else {
      DrainEndsLow(Next(s, Claim(c)), c);
    }
  }
}
