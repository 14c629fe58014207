/** The controller of rvi/plic.h as it is written: registers in fixed-size arrays, pending and enable
    bits packed in 32-bit words. Each callback refines one event of PlicSpec. */
module Plic {
  import opened Bits
  import S = PlicSpec

  class Plic {
    const sources: nat
    const contexts: nat
    const priority: array<nat>
    const pending: array<bv32>
    const enabled: seq<array<bv32>>
    const threshold: array<nat>
    const claimComplete: array<nat>
    const irqCleared: array<bool>
    /** The interrupt outputs, one per context. */
    const line: array<bool>

    ghost predicate Layout()
      reads this
    {
      && priority.Length == sources + 1
      && 32 * pending.Length > sources
      && |enabled| == contexts
      && (forall c | 0 <= c < contexts :: enabled[c].Length == pending.Length && enabled[c] != pending)
      && (forall c, d | 0 <= c < d < contexts :: enabled[c] != enabled[d])
      && threshold.Length == contexts && claimComplete.Length == contexts && line.Length == contexts
      && irqCleared.Length == sources
      && priority != threshold && priority != claimComplete && threshold != claimComplete && irqCleared != line
      && Apart(priority) && Apart(threshold) && Apart(claimComplete) && Apart(irqCleared) && Apart(line)
    }

    /** The packed words are stored apart from the other registers. */
    ghost predicate Apart(o: object)
      reads this
    {
      o != pending && forall c | 0 <= c < |enabled| :: o != enabled[c]
    }

    ghost predicate Valid()
      reads this, pending
    {
      Layout() && forall id | id in Ids(pending[..]) :: 1 <= id <= sources
    }

    ghost function Open(): set<nat>
      reads this, irqCleared
    {
      set id: nat | id <= irqCleared.Length && Cleared(id)
    }

    ghost predicate Cleared(id: nat)
      reads this, irqCleared
    {
      1 <= id <= irqCleared.Length && irqCleared[id - 1]
    }

    ghost function Rows(): seq<set<nat>>
      reads this, enabled
    {
      seq(|enabled|, c requires 0 <= c < |enabled| reads this, enabled => Ids(enabled[c][..]))
    }

    /** The abstract controller that the registers stand for. */
    ghost function State(): (s: S.State)
      reads this, priority, pending, enabled, threshold, claimComplete, irqCleared, line
      ensures Valid() ==> s.Valid() && s.sources == sources && |s.line| == contexts
    {
      S.State(sources, priority[..], Ids(pending[..]), Open(), Rows(), threshold[..], claimComplete[..], line[..])
    }

    constructor (sources: nat, contexts: nat)
      ensures Valid() && S.FromReset(State())
      ensures this.sources == sources && this.contexts == contexts
      ensures fresh(priority) && fresh(pending) && fresh(threshold) && fresh(claimComplete) && fresh(irqCleared)
      ensures fresh(line) && forall c | 0 <= c < contexts :: fresh(enabled[c])
    {
      this.sources := sources;
      this.contexts := contexts;
      priority := new nat[sources + 1](_ => 0);
      var words := new bv32[sources / 32 + 1](_ => 0);
      pending := words;
      threshold := new nat[contexts](_ => 0);
      claimComplete := new nat[contexts](_ => 0);
      irqCleared := new bool[sources](_ => true);
      line := new bool[contexts](_ => false);
      var rows := ZeroRows(contexts, sources / 32 + 1);
      enabled := rows;
      new;
      IdsOfZeros(pending[..]);
      FreshIsReset();
    }

    lemma FreshIsReset()
      requires Layout() && Ids(pending[..]) == {} && forall c | 0 <= c < contexts :: Ids(enabled[c][..]) == {}
      requires priority[..] == seq(sources + 1, _ => 0)
      requires threshold[..] == claimComplete[..] == seq(contexts, _ => 0)
      requires forall k | 0 <= k < sources :: irqCleared[k]
      requires forall c | 0 <= c < contexts :: !line[c]
      ensures Valid() && S.FromReset(State())
    {
      assert forall id: nat | 1 <= id <= sources :: Cleared(id);
      assert Rows() == seq(contexts, _ => {});
    }

    static method ZeroRows(count: nat, words: nat) returns (rows: seq<array<bv32>>)
      ensures |rows| == count && forall k | 0 <= k < count :: fresh(rows[k]) && rows[k].Length == words
      ensures forall k | 0 <= k < count :: Ids(rows[k][..]) == {}
      ensures forall j, k | 0 <= j < k < count :: rows[j] != rows[k]
    {
      rows := [];
      for c := 0 to count
        invariant |rows| == c && forall k | 0 <= k < c :: fresh(rows[k]) && rows[k].Length == words
        invariant forall k | 0 <= k < c :: Ids(rows[k][..]) == {}
        invariant forall j, k | 0 <= j < k < c :: rows[j] != rows[k]
      {
        var row := new bv32[words](_ => 0);
        IdsOfZeros(row[..]);
        rows := rows + [row];
      }
    }

    /** The condition of get_source_irq: pending, enabled for the context and above its threshold. */
    method Contends(ctx: nat, src: nat) returns (b: bool)
      requires priority.Length == sources + 1 && 1 <= src <= sources && ctx < |enabled| && ctx < threshold.Length
      requires src / 32 < pending.Length && src / 32 < enabled[ctx].Length
      ensures b <==> State().Eligible(ctx, src)
    {
      b := Bit(pending[src / 32], src % 32) && Bit(enabled[ctx][src / 32], src % 32) && priority[src] > threshold[ctx];
      InIds(pending[..], src);
      InIds(enabled[ctx][..], src);
    }

    /** The loop of get_source_irq over the first `count` sources; without `findTop` it stops at its first hit. */
    method Scan(ctx: nat, findTop: bool) returns (id: nat, count: nat)
      requires Valid() && ctx < contexts
      ensures count <= sources && id == State().TopUpTo(ctx, count)
      ensures count < sources ==> !findTop && id != 0
    {
      ghost var s := State();
      var topPriority := 0;
      id, count := 0, 0;
      while count < sources && (findTop || id == 0)
        invariant count <= sources && id == s.TopUpTo(ctx, count)
        invariant topPriority == if id == 0 then 0 else s.priority[id]
      {
        S.TopUpToStep(s, ctx, count, id, topPriority);
        count := count + 1;
        var contends := Contends(ctx, count);
        if contends {
          if priority[count] > topPriority {
            topPriority, id := priority[count], count;
          }
        }
      }
    }

    /** get_source_irq: the winner for a context, or without `findTop` some eligible source. */
    method GetSourceIrq(ctx: nat, findTop: bool) returns (id: nat)
      requires Valid() && ctx < contexts
      ensures findTop ==> id == State().Top(ctx)
      ensures !findTop ==> (id != 0 <==> State().Top(ctx) != 0)
      ensures id != 0 ==> State().Eligible(ctx, id)
    {
      var count;
      id, count := Scan(ctx, findTop);
      if id != 0 {
        S.TopUpToStays(State(), ctx, count, sources);
      }
    }

    /** handle_pending_irq: drive the output of one context. */
    method HandlePendingIrq(ctx: nat)
      requires Valid() && ctx < contexts
      modifies line
      ensures line[..] == old(line[..])[ctx := old(State()).HasEligible(ctx)]
    {
      S.TopIsMaximum(State(), ctx);
      var id := GetSourceIrq(ctx, false);
      line[ctx] := id != 0;
    }

    /** source_irq_cb, the TLM input callback of one source. */
    method SourceIrq(index: nat, value: bool)
      requires Valid() && index < sources
      modifies pending, irqCleared, line
      ensures Valid() && State() == S.Next(old(State()), S.Raise(index + 1, value))
    {
      ghost var s := State();
      assert Cleared(index + 1) == irqCleared[index];
      if !irqCleared[index] || !value {
        return;
      }
      AcceptRaise(index + 1);
      RefreshLines();
    }

    /** The accepted part of source_irq_cb: pending bit set, gateway closed. */
    method AcceptRaise(id: nat)
      requires Valid() && 1 <= id <= sources
      modifies pending, irqCleared
      ensures Valid()
      ensures State() == old(State()).(pending := old(State()).pending + {id}, open := old(State()).open - {id})
    {
      IdsAfterSet(pending[..], id);
      ghost var words := pending[..];
      pending[id / 32] := SetBit(pending[id / 32], id % 32);
      assert pending[..] == words[id / 32 := SetBit(words[id / 32], id % 32)];
      irqCleared[id - 1] := false;
      assert forall j: nat :: Cleared(j) <==> j != id && old(Cleared(j));
      assert Rows() == old(Rows());
    }

    method RefreshLines()
      requires Valid()
      modifies line
      ensures Valid()
      ensures State() == old(State()).(line := line[..])
      ensures forall c | 0 <= c < contexts :: line[c] == old(State()).HasEligible(c)
    {
      ghost var s := State();
      for c := 0 to contexts
        invariant Valid() && State() == s.(line := line[..])
        invariant forall k | 0 <= k < c :: line[k] == s.HasEligible(k)
      {
        S.SameEligibility(s, State(), c);
        HandlePendingIrq(c);
        assert Rows() == old(Rows());
      }
    }

    /** claim_complete_read_cb. */
    method ClaimCompleteRead(ctx: nat) returns (id: nat)
      requires Valid() && ctx < contexts
      modifies pending, claimComplete, line
      ensures Valid() && State() == S.Next(old(State()), S.Claim(ctx))
      ensures id == old(State()).Top(ctx)
    {
      id := GetSourceIrq(ctx, true);
      TakeClaim(ctx, id);
      HandlePendingIrq(ctx);
      assert Rows() == old(Rows());
    }

    method TakeClaim(ctx: nat, id: nat)
      requires Valid() && ctx < contexts && id <= sources
      modifies pending, claimComplete
      ensures Valid()
      ensures State() ==
              old(State()).(pending := old(State()).pending - {id}, claimed := old(State()).claimed[ctx := id])
    {
      claimComplete[ctx] := id;
      IdsAfterClear(pending[..], id);
      ghost var words := pending[..];
      pending[id / 32] := ClearBit(pending[id / 32], id % 32);
      assert pending[..] == words[id / 32 := ClearBit(words[id / 32], id % 32)];
      assert Rows() == old(Rows());
    }

    /** claim_complete_write_cb, for any id; `inBounds` is false where the code would leave its arrays,
        and then the model stores nothing. */
    method ClaimCompleteWrite(ctx: nat, id: nat) returns (inBounds: bool)
      requires Valid() && ctx < contexts
      modifies irqCleared
      ensures Valid() && State() == S.Next(old(State()), S.Complete(ctx, id))
      ensures inBounds <==> S.InBounds(old(State()), pending.Length, S.Complete(ctx, id))
    {
      inBounds := true;
      if id == 0 {
        return;
      }
      if id / 32 >= pending.Length {
        return false;
      }
      var isEnabled := Bit(enabled[ctx][id / 32], id % 32);
      InIds(enabled[ctx][..], id);
      if !isEnabled {
        return;
      }
      if id > sources {
        return false;
      }
      irqCleared[id - 1] := true;
      assert forall j: nat :: Cleared(j) <==> j == id || old(Cleared(j));
      assert Rows() == old(Rows());
    }

    // -------------------------------------------------------------- plain register writes and reset

    method WritePriority(id: nat, value: nat)
      requires Valid() && id <= sources
      modifies priority
      ensures Valid() && State() == S.Next(old(State()), S.SetPriority(id, value))
    {
      priority[id] := value;
      assert Rows() == old(Rows());
    }

    method WriteThreshold(ctx: nat, value: nat)
      requires Valid() && ctx < contexts
      modifies threshold
      ensures Valid() && State() == S.Next(old(State()), S.SetThreshold(ctx, value))
    {
      threshold[ctx] := value;
      assert Rows() == old(Rows());
    }

    method WriteEnabled(ctx: nat, word: nat, value: bv32)
      requires Valid() && ctx < contexts && word < pending.Length
      modifies enabled[ctx]
      ensures Valid()
      ensures State() == S.Next(old(State()), S.SetEnabled(ctx, Ids(old(enabled[ctx][..])[word := value])))
    {
      ghost var row := enabled[ctx][..];
      enabled[ctx][word] := value;
      assert enabled[ctx][..] == row[word := value];
      assert forall c | 0 <= c < contexts && c != ctx :: enabled[c][..] == old(enabled[c][..]);
      assert Rows() == old(Rows())[ctx := Ids(row[word := value])];
    }

    /** reset_cb: the registers return to zero, the gateways and the outputs keep their state. */
    method Reset()
      requires Valid()
      modifies priority, pending, threshold, claimComplete, set c | 0 <= c < contexts :: enabled[c]
      ensures Valid() && State() == S.Next(old(State()), S.Reset)
    {
      ZeroRegisters(priority);
      ZeroRegisters(threshold);
      ZeroRegisters(claimComplete);
      ZeroWords(pending);
      ResetEnabled();
    }

    /** The enable words of all contexts. */
    method ResetEnabled()
      requires Valid()
      modifies set c | 0 <= c < contexts :: enabled[c]
      ensures Rows() == seq(contexts, _ => {})
    {
      for c := 0 to contexts
        invariant forall d | 0 <= d < c :: Ids(enabled[d][..]) == {}
      {
        ZeroWords(enabled[c]);
      }
    }
  }
}
