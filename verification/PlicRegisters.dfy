/** What the callbacks of rvi/plic.h do to its registers, source by source and in terms of register values
    alone: which events set and clear a pending bit, which open and close a gateway, what a claim returns,
    and that a source can be served again and again. */
module PlicRegisters {
  import opened PlicSpec

  /** Pending, enabled for the context, and above its threshold. */
  predicate Contends(s: State, c: nat, id: nat)
    requires s.Valid() && s.Context(c)
  {
    1 <= id <= s.sources && id in s.pending && id in s.enabled[c] && s.priority[id] > s.threshold[c]
  }

  /** What a claim by context `c` returns: the contending source of the highest priority, the smallest id
      among equals, and 0 if none contends. */
  ghost predicate Wins(s: State, c: nat, id: nat)
    requires s.Valid() && s.Context(c)
  {
    if id == 0 then forall j: nat :: !Contends(s, c, j)
    else Contends(s, c, id) && forall j: nat | Contends(s, c, j) && j != id ::
      s.priority[id] > s.priority[j] || (s.priority[id] == s.priority[j] && id < j)
  }

  lemma TopWins(s: State, c: nat)
    requires s.Valid() && s.Context(c)
    ensures Wins(s, c, s.Top(c))
    ensures forall id: nat | Wins(s, c, id) :: id == s.Top(c)
  {
    assert forall id: nat :: Contends(s, c, id) <==> s.Eligible(c, id);
    TopIsMaximum(s, c);
    if s.Top(c) != 0 {
      forall j: nat | Contends(s, c, j) && j != s.Top(c)
        ensures s.priority[s.Top(c)] > s.priority[j] || (s.priority[s.Top(c)] == s.priority[j] && s.Top(c) < j) {
        assert s.Beats(s.Top(c), j);
      }
    }
  }

  // ---------------------------------------------------------------- bits

  /** Every way in which a pending bit can change. */
  lemma PendingBit(s: State, e: Event, id: nat)
    requires s.Valid() && e.Addresses(s) && 1 <= id <= s.sources
    ensures id in Next(s, e).pending <==>
            match e
            case Raise(i, value) => id in s.pending || (i == id && value && id in s.open)
            case Claim(c) => id in s.pending && !Wins(s, c, id)
            case Reset => false
            case _ => id in s.pending
  {
    if e.Claim? {
      TopWins(s, e.c);
    }
  }

  /** Every way in which a gateway can open or close. */
  lemma Gateway(s: State, e: Event, id: nat)
    requires s.Valid() && e.Addresses(s)
    ensures id in Next(s, e).open <==>
            match e
            case Raise(i, value) => id in s.open && !(i == id && value)
            case Complete(c, i) => id in s.open || (i == id && 1 <= id <= s.sources && id in s.enabled[c])
            case _ => id in s.open
  {
  }

  /** A completion touches nothing but that gateway. */
  lemma CompletionOnlyOpens(s: State, c: nat, id: nat)
    requires s.Valid() && s.Context(c)
    ensures Next(s, Complete(c, id)) == s.(open := Next(s, Complete(c, id)).open)
  {
  }

  /** A raise by a low input, or one against a closed gateway, does nothing; any other makes exactly its
      source pending, closes exactly its gateway, and leaves the line of every context high exactly if the
      context has something to claim. */
  lemma RaiseTakesEffect(s: State, id: nat, value: bool)
    requires s.Valid() && s.Source(id)
    ensures var t := Next(s, Raise(id, value));
            if !value || id !in s.open then t == s
            else
              && t == s.(pending := s.pending + {id}, open := s.open - {id}, line := t.line)
              && forall c: nat | s.Context(c) :: t.line[c] <==> exists j: nat :: Contends(t, c, j)
  {
    var t := Next(s, Raise(id, value));
    if value && id in s.open {
      forall c: nat | s.Context(c) ensures t.line[c] <==> exists j: nat :: Contends(t, c, j) {
        LineRefreshed(s, Raise(id, value), c);
        assert forall j: nat :: Contends(t, c, j) <==> t.Eligible(c, j);
      }
    }
  }

  /** A claim records the winner, takes its pending bit away, refreshes the line of its own context, and
      touches nothing else. */
  lemma ClaimTakesWinner(s: State, c: nat)
    requires s.Valid() && s.Context(c)
    ensures var t := Next(s, Claim(c));
            && Wins(s, c, t.claimed[c])
            && t == s.(pending := s.pending - {t.claimed[c]}, claimed := s.claimed[c := t.claimed[c]],
                       line := s.line[c := t.line[c]])
            && (t.line[c] <==> exists j: nat :: Contends(t, c, j))
  {
    var t := Next(s, Claim(c));
    TopWins(s, c);
    LineRefreshed(s, Claim(c), c);
    assert forall j: nat :: Contends(t, c, j) <==> t.Eligible(c, j);
  }

  /** Every way in which the claim register of a context can change; its line changes in these and in accepted
      raises only. */
  lemma ClaimRegister(s: State, e: Event, c: nat)
    requires s.Valid() && e.Addresses(s) && s.Context(c)
    ensures var t := Next(s, e);
            match e
            case Claim(d) => if d == c then Wins(s, c, t.claimed[c]) else t.claimed[c] == s.claimed[c]
            case Reset => t.claimed[c] == 0
            case _ => t.claimed[c] == s.claimed[c]
    ensures !Accepts(s, e) && e != Claim(c) ==> Next(s, e).line[c] == s.line[c]
  {
    if e.Claim? {
      TopWins(s, c);
    }
  }

  // ---------------------------------------------------------------- served again

  /** Once it is completed, an enabled source whose gateway was closed can interrupt again: its next raise
      makes it pending and, if it is above the threshold, the line high. */
  lemma CompletedFiresAgain(s: State, c: nat, id: nat)
    requires s.Valid() && s.Context(c) && s.Source(id) && id in s.enabled[c]
    ensures var t := Next(Next(s, Complete(c, id)), Raise(id, true));
            id in t.pending && id !in t.open && (s.priority[id] > s.threshold[c] ==> t.line[c])
  {
    var u := Next(s, Complete(c, id));
    Gateway(s, Complete(c, id), id);
    CompletionOnlyOpens(s, c, id);
    RaiseTakesEffect(u, id, true);
    assert s.priority[id] > s.threshold[c] ==> Contends(Next(u, Raise(id, true)), c, id);
  }

  /** The whole cycle, in every state: the winner of a context is claimed, completed and raised; the claim
      returns it, and after the raise it is pending again with the line high. */
  lemma ServiceCycle(s: State, c: nat, id: nat)
    requires s.Valid() && s.Context(c) && id != 0 && Wins(s, c, id)
    ensures var t := Next(Next(Next(s, Claim(c)), Complete(c, id)), Raise(id, true));
            t.claimed[c] == id && id !in Next(s, Claim(c)).pending && id in t.pending && id !in t.open && t.line[c]
  {
    ClaimTakesWinner(s, c);
    TopWins(s, c);
    CompletedFiresAgain(Next(s, Claim(c)), c, id);
  }

  /** Over runs: whenever a source is in service and enabled for a context, completing it there is in order,
      and after it the source can interrupt again. */
  lemma InServiceFiresAgain(s: State, es: seq<Event>, c: nat, id: nat)
    requires Initial(s) && WellFormed(s, es) && Disciplined(s, es) && Serving(InService(s, es), id)
    requires s.Context(c) && s.Source(id) && id in Run(s, es).enabled[c]
    ensures var es' := es + [Complete(c, id)];
            && WellFormed(s, es') && Disciplined(s, es') && !Serving(InService(s, es'), id)
            && id in Run(s, es').open && id in Next(Run(s, es'), Raise(id, true)).pending
  {
    var e := Complete(c, id);
    RunSnoc(s, es, e);
    assert (es + [e])[..|es|] == es;
    ServiceStep(s, es + [e], id);
    Gateway(Run(s, es), e, id);
    PendingBit(Run(s, es + [e]), Raise(id, true), id);
  }

  // ---------------------------------------------------------------- configuration

  /** The configuration that concerns one source and one context. */
  datatype Config = Config(priority: nat, threshold: nat, enabled: set<nat>)

  function ConfigOf(s: State, c: nat, id: nat): Config
    requires s.Valid() && s.Context(c) && id <= s.sources
  {
    Config(s.priority[id], s.threshold[c], s.enabled[c])
  }

  /** What the last writes in a run were. */
  function LastWrites(config: Config, es: seq<Event>, c: nat, id: nat): Config {
    if es == [] then config
    else
      var last := LastWrites(config, es[..|es| - 1], c, id);
      match es[|es| - 1]
      case SetPriority(i, priority) => if i == id then last.(priority := priority) else last
      case SetThreshold(d, threshold) => if d == c then last.(threshold := threshold) else last
      case SetEnabled(d, ids) => if d == c then last.(enabled := ids) else last
      case Reset => Config(0, 0, {})
      case _ => last
  }

  /** In every run the configuration is what was written last; nothing else ever changes it. */
  lemma {:induction false} ConfigurationHolds(s: State, es: seq<Event>, c: nat, id: nat)
    requires s.Valid() && WellFormed(s, es) && s.Context(c) && id <= s.sources
    ensures ConfigOf(Run(s, es), c, id) == LastWrites(ConfigOf(s, c, id), es, c, id)
  {
    if es != [] {
      var front, e := es[..|es| - 1], es[|es| - 1];
      ConfigurationHolds(s, front, c, id);
      AddressesKept(s, Run(s, front), e);
    }
  }
}
