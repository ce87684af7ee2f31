/** Rundown protection: one shared word, an even number or an odd tag, that any number of threads change by
    atomic steps. Every action below is one such step of one thread. The machine is parameterised by the order
    of the operands in the compare-exchange, which decides whether the word counts references. */
module Rundown {
  const WORD := 0x1_0000_0000_0000_0000
  const MAX_REFERENCES := 0x8000_0000_0000_0000
  const EX_RUNDOWN_ACTIVE := 1

  /** Where a thread stands: outside, in a retry loop with the value it last saw, or past a decrement that
      reached zero and about to set the event of a wait block. */
  datatype Place = Outside | Acquiring(current: nat) | Releasing(current: nat) | Waking(block: nat)

  datatype WaitBlock = WaitBlock(count: nat, wakes: nat)

  /** The order in which both loops pass the new and the current value to the compare-exchange: as written, the
      new value comes first, where the helper takes the value to compare with; or exchanged, as it is meant. */
  datatype Order = AsWritten | Exchanged

  /** The shared word, the references acquired and not yet released, by whomever, and where the threads stand. */
  datatype State =
    State(order: Order, word: nat, references: nat, threads: seq<Place>, blocks: map<nat, WaitBlock>)

  datatype Action =
    | Enter                             // a new thread appears
    | ReadForAcquire(t: nat)            // AcquireProtection reads the word
    | TryAcquire(t: nat)                // one turn of its loop
    | ReadForRelease(t: nat)            // ReleaseProtection reads the word
    | TryRelease(t: nat)                // one turn of its loop
    | Wake(t: nat)                      // the last releaser sets the event
    | Install(block: nat)               // a waiter swaps in a wait block for the current count
    | Complete                          // CompleteProtection
    | ReInitialize                      // ReInitializeProtection

  function Initial(order: Order): State { State(order, 0, 0, [], map[]) }

  /** The threads in ReleaseProtection's loop. */
  function Releasers(ts: seq<Place>): nat {
    if ts == [] then 0 else (if ts[0].Releasing? then 1 else 0) + Releasers(ts[1..])
  }

  /** The threads about to set the event of the block `b`. */
  function Wakers(ts: seq<Place>, b: nat): nat {
    if ts == [] then 0 else (if ts[0] == Waking(b) then 1 else 0) + Wakers(ts[1..], b)
  }

  predicate Tagged(value: nat) { value % 2 == 1 }

  /** What the callers owe: a release is for a reference that nobody else is releasing, whichever thread
      acquired it; completion waits for all references, and only a completed word is reinitialised; a wait
      block is a fresh even address, put in place of an untagged word while references are outstanding. */
  predicate Enabled(s: State, a: Action) {
    match a
    case Enter => true
    case ReadForAcquire(t) => t < |s.threads| && s.threads[t].Outside?
    case TryAcquire(t) => t < |s.threads| && s.threads[t].Acquiring?
    case ReadForRelease(t) => t < |s.threads| && s.threads[t].Outside? && Releasers(s.threads) < s.references
    case TryRelease(t) => t < |s.threads| && s.threads[t].Releasing?
    case Wake(t) => t < |s.threads| && s.threads[t].Waking?
    case Install(b) =>
      !Tagged(s.word) && s.references > 0 && 0 < b < WORD && b % 2 == 0 && b !in s.blocks
    case Complete => s.references == 0
    case ReInitialize => s.word == EX_RUNDOWN_ACTIVE
  }

  /** RTL's compare-exchange: the value read, and the word afterwards. */
  function CompareExchange(word: nat, comperand: nat, exchange: nat): (nat, nat) {
    (word, if word == comperand then exchange else word)
  }

  /** The call both loops make. */
  function Attempt(s: State, current: nat, new': nat): (nat, nat) {
    if s.order.AsWritten? then CompareExchange(s.word, new', current) else CompareExchange(s.word, current, new')
  }

  /** One turn of AcquireProtection's loop: refuse a tagged value, or try to add a reference. */
  function TryAcquireStep(s: State, t: nat): State
    requires Enabled(s, TryAcquire(t))
  {
    var current := s.threads[t].current;
    if Tagged(current) then s.(threads := s.threads[t := Outside])
    else
      var (seen, word') := Attempt(s, current, (current + 2) % WORD);
      if seen == current then s.(word := word', references := s.references + 1, threads := s.threads[t := Outside])
      else s.(threads := s.threads[t := Acquiring(seen)])
  }

  /** One turn of ReleaseProtection's loop: count down the wait block of a tagged value, or try to drop a
      reference from the word. */
  function TryReleaseStep(s: State, t: nat): State
    requires Enabled(s, TryRelease(t)) && s.references > 0
    requires var current := s.threads[t].current;
             Tagged(current) ==> current - 1 in s.blocks && s.blocks[current - 1].count > 0
  {
    var current := s.threads[t].current;
    if Tagged(current) then
      var block := s.blocks[current - 1];
      var place := if block.count - 1 == 0 then Waking(current - 1) else Outside;
      s.(references := s.references - 1,
         blocks := s.blocks[current - 1 := block.(count := block.count - 1)],
         threads := s.threads[t := place])
    else
      var (seen, word') := Attempt(s, current, (current - 2) % WORD);
      if seen == current then s.(word := word', references := s.references - 1, threads := s.threads[t := Outside])
      else s.(threads := s.threads[t := Releasing(seen)])
  }

  function Do(s: State, a: Action): State
    requires Enabled(s, a) && Inv(s)
  {
    match a
    case Enter => s.(threads := s.threads + [Outside])
    case ReadForAcquire(t) => s.(threads := s.threads[t := Acquiring(s.word)])
    case TryAcquire(t) => TryAcquireStep(s, t)
    case ReadForRelease(t) => s.(threads := s.threads[t := Releasing(s.word)])
    case TryRelease(t) => ReleaserCounts(s, t); TryReleaseStep(s, t)
    case Wake(t) =>
      var b := s.threads[t].block;
      s.(blocks := s.blocks[b := s.blocks[b].(wakes := s.blocks[b].wakes + 1)], threads := s.threads[t := Outside])
    case Install(b) => s.(word := b + 1, blocks := s.blocks[b := WaitBlock(s.references, 0)])
    case Complete => s.(word := EX_RUNDOWN_ACTIVE)
    case ReInitialize => s.(word := 0)
  }

  /** What an untagged word holds: twice the references, if the exchange is made as it is meant. */
  function Counted(s: State): nat {
    if s.order.AsWritten? then 0 else 2 * s.references
  }

  /** The counting invariant: what an untagged word holds; a completed word has no references; any other tag is
      a wait block that counts them. Nobody releases what is not outstanding, and a releaser that saw a tag
      still sees it. Every wait block is signalled once, or about to be, exactly when its count has run out. */
  predicate Inv(s: State) {
    && Releasers(s.threads) <= s.references < MAX_REFERENCES
    && (!Tagged(s.word) ==> s.word == Counted(s))
    && (s.word == EX_RUNDOWN_ACTIVE ==> s.references == 0)
    && (Tagged(s.word) && s.word != EX_RUNDOWN_ACTIVE ==>
          s.word - 1 in s.blocks && s.blocks[s.word - 1].count == s.references)
    && (forall i :: 0 <= i < |s.threads| ==> ThreadInv(s, s.threads[i]))
    && (forall b :: b in s.blocks ==>
          b > 0 && s.blocks[b].wakes + Wakers(s.threads, b) == if s.blocks[b].count == 0 then 1 else 0)
  }

  predicate ThreadInv(s: State, place: Place) {
    && (place.Releasing? && Tagged(place.current) ==> place.current == s.word)
    && (s.order.AsWritten? && (place.Acquiring? || place.Releasing?) ==> place.current == 0 || Tagged(place.current))
    && (place.Waking? ==> place.block in s.blocks)
  }

  lemma {:induction false} Updated(ts: seq<Place>, i: nat, place: Place, b: nat)
    requires i < |ts|
    ensures Wakers(ts[i := place], b) == Wakers(ts, b) - (if ts[i] == Waking(b) then 1 else 0)
                                         + (if place == Waking(b) then 1 else 0)
    ensures Releasers(ts[i := place]) == Releasers(ts) - (if ts[i].Releasing? then 1 else 0)
                                         + (if place.Releasing? then 1 else 0)
    ensures ts[i] == Waking(b) ==> Wakers(ts, b) > 0
    ensures ts[i].Releasing? ==> Releasers(ts) > 0
  {
    if i == 0 {
      assert ts[0 := place][1..] == ts[1..];
    } else {
      assert ts[i := place][1..] == ts[1..][i - 1 := place];
      Updated(ts[1..], i - 1, place, b);
    }
  }

  lemma ReleaserCounts(s: State, t: nat)
    requires Inv(s) && Enabled(s, TryRelease(t))
    ensures s.references > 0
    ensures var current := s.threads[t].current;
            Tagged(current) ==> current == s.word && current - 1 in s.blocks && s.blocks[current - 1].count > 0
  {
    Updated(s.threads, t, s.threads[t], 0);
    assert ThreadInv(s, s.threads[t]);
  }

  lemma {:induction false} Appended(ts: seq<Place>, b: nat)
    ensures Wakers(ts + [Outside], b) == Wakers(ts, b)
    ensures Releasers(ts + [Outside]) == Releasers(ts)
  {
    if ts == [] {
      assert ts + [Outside] == [Outside];
    } else {
      assert (ts + [Outside])[1..] == ts[1..] + [Outside];
      Appended(ts[1..], b);
    }
  }

  /** Every action of every thread keeps the counting invariant, as long as the references stay countable. */
  lemma DoKeepsInv(s: State, a: Action)
    requires Inv(s) && Enabled(s, a) && Do(s, a).references < MAX_REFERENCES
    ensures Inv(Do(s, a))
  {
    match a
    case Enter => EnterKeepsInv(s);
    case ReadForAcquire(t) => ReadKeepsInv(s, t, Acquiring(s.word));
    case TryAcquire(t) => TryAcquireKeepsInv(s, t);
    case ReadForRelease(t) => ReadKeepsInv(s, t, Releasing(s.word));
    case TryRelease(t) => TryReleaseKeepsInv(s, t);
    case Wake(t) => WakeKeepsInv(s, t);
    case Install(b) => NoWakers(s, b);
    case Complete => NobodyReleasing(s);
    case ReInitialize => NobodyReleasing(s);
  }

  lemma EnterKeepsInv(s: State)
    requires Inv(s)
    ensures Inv(Do(s, Enter))
  {
    Appended(s.threads, 0);
    forall b
      ensures Wakers(s.threads + [Outside], b) == Wakers(s.threads, b)
    {
      Appended(s.threads, b);
    }
  }

  lemma ReadKeepsInv(s: State, t: nat, place: Place)
    requires Inv(s) && t < |s.threads| && s.threads[t].Outside?
    requires place == Acquiring(s.word) || (place == Releasing(s.word) && Releasers(s.threads) < s.references)
    ensures Inv(s.(threads := s.threads[t := place]))
  {
    Moved(s, s.(threads := s.threads[t := place]), t);
  }

  lemma TryAcquireKeepsInv(s: State, t: nat)
    requires Inv(s) && Enabled(s, TryAcquire(t)) && TryAcquireStep(s, t).references < MAX_REFERENCES
    ensures Inv(TryAcquireStep(s, t))
  {
    var s' := TryAcquireStep(s, t);
    Moved(s, s', t);
    forall i | 0 <= i < |s'.threads|
      ensures ThreadInv(s', s'.threads[i])
    {
      assert i != t ==> ThreadInv(s, s.threads[i]);
    }
  }

  lemma TryReleaseKeepsInv(s: State, t: nat)
    requires Inv(s) && Enabled(s, TryRelease(t))
    ensures Inv(Do(s, TryRelease(t)))
  {
    if Tagged(s.threads[t].current) {
      CountDownKeepsInv(s, t);
    } else {
      DropKeepsInv(s, t);
    }
  }

  lemma DropKeepsInv(s: State, t: nat)
    requires Inv(s) && Enabled(s, TryRelease(t)) && !Tagged(s.threads[t].current)
    ensures Inv(Do(s, TryRelease(t)))
  {
    ReleaserCounts(s, t);
    var s' := TryReleaseStep(s, t);
    Moved(s, s', t);
    forall i | 0 <= i < |s'.threads|
      ensures ThreadInv(s', s'.threads[i])
    {
      assert i != t ==> ThreadInv(s, s.threads[i]);
    }
  }

  lemma CountDownKeepsInv(s: State, t: nat)
    requires Inv(s) && Enabled(s, TryRelease(t)) && Tagged(s.threads[t].current)
    ensures Inv(Do(s, TryRelease(t)))
  {
    ReleaserCounts(s, t);
    var s' := TryReleaseStep(s, t);
    assert ThreadInv(s, s.threads[t]);
    Moved(s, s', t);
    forall i | 0 <= i < |s'.threads|
      ensures ThreadInv(s', s'.threads[i])
    {
      assert i != t ==> ThreadInv(s, s.threads[i]);
    }
  }

  lemma WakeKeepsInv(s: State, t: nat)
    requires Inv(s) && Enabled(s, Wake(t))
    ensures Inv(Do(s, Wake(t)))
  {
    assert ThreadInv(s, s.threads[t]);
    var s' := Do(s, Wake(t));
    Moved(s, s', t);
    forall i | 0 <= i < |s'.threads|
      ensures ThreadInv(s', s'.threads[i])
    {
      assert i != t ==> ThreadInv(s, s.threads[i]);
    }
  }

  /** With no reference left nobody is releasing. */
  lemma NobodyReleasing(s: State)
    requires Inv(s) && s.references == 0
    ensures forall i :: 0 <= i < |s.threads| ==> !s.threads[i].Releasing?
  {
    forall i | 0 <= i < |s.threads|
      ensures !s.threads[i].Releasing?
    {
      Updated(s.threads, i, s.threads[i], 0);
    }
  }

  lemma Moved(s: State, s': State, t: nat)
    requires t < |s.threads| && |s'.threads| == |s.threads| && s'.threads == s.threads[t := s'.threads[t]]
    ensures Releasers(s'.threads) == Releasers(s.threads) - (if s.threads[t].Releasing? then 1 else 0)
                                     + (if s'.threads[t].Releasing? then 1 else 0)
    ensures forall b :: Wakers(s'.threads, b) == Wakers(s.threads, b)
                          - (if s.threads[t] == Waking(b) then 1 else 0)
                          + (if s'.threads[t] == Waking(b) then 1 else 0)
  {
    Updated(s.threads, t, s'.threads[t], 0);
    forall b
      ensures Wakers(s'.threads, b) == Wakers(s.threads, b) - (if s.threads[t] == Waking(b) then 1 else 0)
                                       + (if s'.threads[t] == Waking(b) then 1 else 0)
    {
      Updated(s.threads, t, s'.threads[t], b);
    }
  }

  lemma NoWakers(s: State, b: nat)
    requires Inv(s) && b !in s.blocks
    ensures Wakers(s.threads, b) == 0
  {
    NoneWaking(s.threads, b);
  }

  lemma {:induction false} NoneWaking(ts: seq<Place>, b: nat)
    requires forall i :: 0 <= i < |ts| ==> ts[i] != Waking(b)
    ensures Wakers(ts, b) == 0
  {
    if ts != [] {
      NoneWaking(ts[1..], b);
    }
  }

  // ---------------------------------------------------------------- whole runs

  /** The actions can happen one after another from `s`, and never reach 2^63 references. */
  ghost predicate Possible(s: State, acts: seq<Action>)
    requires Inv(s)
    decreases |acts|
  {
    acts != [] ==>
      && Enabled(s, acts[0]) && Do(s, acts[0]).references < MAX_REFERENCES
      && (DoKeepsInv(s, acts[0]); Possible(Do(s, acts[0]), acts[1..]))
  }

  ghost function After(s: State, acts: seq<Action>): State
    requires Inv(s) && Possible(s, acts)
    decreases |acts|
  {
    if acts == [] then s else DoKeepsInv(s, acts[0]); After(Do(s, acts[0]), acts[1..])
  }

  /** This action is an AcquireProtection that returns TRUE. */
  predicate Acquires(s: State, a: Action) {
    a.TryAcquire? && Enabled(s, a)
    && !Tagged(s.threads[a.t].current) && s.threads[a.t].current == s.word
  }

  /** This action ends a ReleaseProtection: it gave up the reference in the word or in the wait block. */
  predicate Releases(s: State, a: Action) {
    a.TryRelease? && Enabled(s, a)
    && (Tagged(s.threads[a.t].current) || s.threads[a.t].current == s.word)
  }

  ghost function Acquired(s: State, acts: seq<Action>): nat
    requires Inv(s) && Possible(s, acts)
    decreases |acts|
  {
    if acts == [] then 0
    else
      DoKeepsInv(s, acts[0]);
      (if Acquires(s, acts[0]) then 1 else 0) + Acquired(Do(s, acts[0]), acts[1..])
  }

  ghost function Released(s: State, acts: seq<Action>): nat
    requires Inv(s) && Possible(s, acts)
    decreases |acts|
  {
    if acts == [] then 0
    else
      DoKeepsInv(s, acts[0]);
      (if Releases(s, acts[0]) then 1 else 0) + Released(Do(s, acts[0]), acts[1..])
  }

  /** With the operands exchanged, in every interleaving from the start: while the word is untagged it is exactly
      twice the references, and the references are exactly the acquisitions granted less the releases finished,
      so no stale snapshot ever lost or duplicated one. */
  lemma CountingHolds(acts: seq<Action>)
    requires Possible(Initial(Exchanged), acts)
    ensures var s := After(Initial(Exchanged), acts);
            && Inv(s)
            && s.references + Released(Initial(Exchanged), acts) == Acquired(Initial(Exchanged), acts)
            && (!Tagged(s.word) ==>
                  s.word == 2 * (Acquired(Initial(Exchanged), acts) - Released(Initial(Exchanged), acts)))
  {
    Conserved(Initial(Exchanged), acts);
    SameOrder(Initial(Exchanged), acts);
  }

  /** As the call is written the word counts nothing: in every interleaving it is 0 or tagged, and without a wait
      block 0 or completed. */
  lemma WordNeverCounts(acts: seq<Action>)
    requires Possible(Initial(AsWritten), acts)
    ensures var s := After(Initial(AsWritten), acts);
            && (s.word == 0 || Tagged(s.word))
            && ((forall a :: a in acts ==> !a.Install?) ==> s.word == 0 || s.word == EX_RUNDOWN_ACTIVE)
  {
    Conserved(Initial(AsWritten), acts);
    SameOrder(Initial(AsWritten), acts);
    if forall a :: a in acts ==> !a.Install? {
      NoBlocks(Initial(AsWritten), acts);
    }
  }

  /** So an untagged word is twice the references exactly if the operands are exchanged or no reference is held. */
  lemma CountsIff(order: Order, acts: seq<Action>)
    requires Possible(Initial(order), acts) && !Tagged(After(Initial(order), acts).word)
    ensures var s := After(Initial(order), acts);
            s.word == 2 * s.references <==> order == Exchanged || s.references == 0
  {
    Conserved(Initial(order), acts);
    SameOrder(Initial(order), acts);
  }

  /** One thread is enough: its first acquisition is granted, and the word stays 0. */
  lemma GrantedWithoutCount()
    ensures var acts := [Enter, ReadForAcquire(0), TryAcquire(0)];
            && Possible(Initial(AsWritten), acts) && Acquired(Initial(AsWritten), acts) == 1
            && After(Initial(AsWritten), acts).references == 1 && After(Initial(AsWritten), acts).word == 0
  {
    var s, acts := Initial(AsWritten), [Enter, ReadForAcquire(0), TryAcquire(0)];
    var s1 := Do(s, Enter);
    DoKeepsInv(s, Enter);
    assert acts[1..] == [ReadForAcquire(0), TryAcquire(0)];
    DoKeepsInv(s1, ReadForAcquire(0));
    var s2 := Do(s1, ReadForAcquire(0));
    assert acts[1..][1..] == [TryAcquire(0)];
    DoKeepsInv(s2, TryAcquire(0));
    assert [TryAcquire(0)][1..] == [];
    assert Possible(s2, [TryAcquire(0)]) && Possible(s1, acts[1..]);
    assert Acquired(s2, [TryAcquire(0)]) == 1 && Acquired(s1, acts[1..]) == 1;
    assert After(s2, [TryAcquire(0)]) == Do(s2, TryAcquire(0)) == After(s1, acts[1..]);
  }

  lemma {:induction false} SameOrder(s: State, acts: seq<Action>)
    requires Inv(s) && Possible(s, acts)
    ensures After(s, acts).order == s.order
    decreases |acts|
  {
    if acts != [] {
      DoKeepsInv(s, acts[0]);
      if acts[0].TryRelease? {
        ReleaserCounts(s, acts[0].t);
      }
      SameOrder(Do(s, acts[0]), acts[1..]);
    }
  }

  lemma {:induction false} NoBlocks(s: State, acts: seq<Action>)
    requires Inv(s) && Possible(s, acts) && s.blocks == map[] && forall a :: a in acts ==> !a.Install?
    ensures After(s, acts).blocks == map[]
    decreases |acts|
  {
    if acts != [] {
      DoKeepsInv(s, acts[0]);
      if acts[0].TryRelease? {
        ReleaserCounts(s, acts[0].t);
      } else if acts[0].Wake? {
        assert ThreadInv(s, s.threads[acts[0].t]);
      }
      NoBlocks(Do(s, acts[0]), acts[1..]);
    }
  }

  lemma {:induction false} Conserved(s: State, acts: seq<Action>)
    requires Inv(s) && Possible(s, acts)
    ensures Inv(After(s, acts))
    ensures After(s, acts).references + Released(s, acts) == s.references + Acquired(s, acts)
    decreases |acts|
  {
    if acts != [] {
      DoKeepsInv(s, acts[0]);
      ConservedStep(s, acts[0]);
      Conserved(Do(s, acts[0]), acts[1..]);
    }
  }

  lemma ConservedStep(s: State, a: Action)
    requires Inv(s) && Enabled(s, a)
    ensures Do(s, a).references
         == s.references + (if Acquires(s, a) then 1 else 0) - (if Releases(s, a) then 1 else 0)
  {
    if a.TryRelease? {
      ReleaserCounts(s, a.t);
    }
  }

  /** From CompleteProtection until the next ReInitializeProtection the word stays completed and no
      AcquireProtection is granted, whatever value it saw before the completion. */
  lemma {:induction false} CompletedRefuses(s: State, acts: seq<Action>)
    requires Inv(s) && Possible(s, acts) && s.word == EX_RUNDOWN_ACTIVE
    requires ReInitialize !in acts
    ensures After(s, acts).word == EX_RUNDOWN_ACTIVE && After(s, acts).references == 0
    ensures Acquired(s, acts) == 0
    decreases |acts|
  {
    if acts != [] {
      DoKeepsInv(s, acts[0]);
      NobodyReleasing(s);
      CompletedRefuses(Do(s, acts[0]), acts[1..]);
    }
  }

  /** From CompleteProtection on, whatever happens, nothing is acquired and the word stays completed until it
      is reinitialised; then it counts again from zero. */
  lemma CompletionLasts(s: State, acts: seq<Action>)
    requires Inv(s) && Possible(s, [Complete] + acts) && ReInitialize !in acts
    ensures Acquired(s, [Complete] + acts) == 0
    ensures var s' := After(s, [Complete] + acts);
            && Inv(s') && s'.word == 1 && Enabled(s', ReInitialize)
            && Inv(Do(s', ReInitialize)) && Do(s', ReInitialize).word == 0
            && Do(s', ReInitialize).references == 0
  {
    DoKeepsInv(s, Complete);
    assert ([Complete] + acts)[1..] == acts;
    Conserved(s, [Complete] + acts);
    CompletedRefuses(Do(s, Complete), acts);
    DoKeepsInv(After(s, [Complete] + acts), ReInitialize);
  }

  /** Once a wait block stands in the word, and until a completion, no acquisition is granted and the block
      counts down by exactly the releases finished: none is missed, whatever value it saw first. The event
      is unset while references remain; when none remains and nobody is about to set it, it was set once. */
  lemma {:induction false} WaitBlockCounts(s: State, b: nat, acts: seq<Action>)
    requires Inv(s) && Possible(s, acts) && s.word == b + 1 && b in s.blocks
    requires Complete !in acts && Tagged(s.word)
    ensures var s' := After(s, acts);
            && s'.word == s.word && b in s'.blocks && Acquired(s, acts) == 0
            && s'.blocks[b].count + Released(s, acts) == s.blocks[b].count
            && s'.blocks[b].count == s'.references
            && s'.blocks[b].wakes <= 1
            && (s'.references > 0 ==> s'.blocks[b].wakes == 0)
            && (s'.references == 0 && Wakers(s'.threads, b) == 0 ==> s'.blocks[b].wakes == 1)
    decreases |acts|
  {
    if acts != [] {
      DoKeepsInv(s, acts[0]);
      WaitBlockStep(s, b, acts[0]);
      WaitBlockCounts(Do(s, acts[0]), b, acts[1..]);
    }
  }

  /** From the installation of a wait block on, the references outstanding then are either still held or
      released since, and the event is set once, when all are released. */
  lemma InstalledBlockWaits(s: State, b: nat, acts: seq<Action>)
    requires Inv(s) && Possible(s, [Install(b)] + acts) && Complete !in acts
    ensures var s' := After(s, [Install(b)] + acts);
            && b in s'.blocks && s'.references + Released(s, [Install(b)] + acts) == s.references
            && s'.blocks[b].wakes <= 1
            && (s'.blocks[b].wakes == 1 ==> Released(s, [Install(b)] + acts) == s.references)
            && (Released(s, [Install(b)] + acts) == s.references && Wakers(s'.threads, b) == 0 ==>
                  s'.blocks[b].wakes == 1)
  {
    DoKeepsInv(s, Install(b));
    assert ([Install(b)] + acts)[1..] == acts;
    WaitBlockCounts(Do(s, Install(b)), b, acts);
  }

  lemma WaitBlockStep(s: State, b: nat, a: Action)
    requires Inv(s) && Enabled(s, a) && s.word == b + 1 && b in s.blocks && a != Complete && Tagged(s.word)
    ensures var s' := Do(s, a);
            && s'.word == s.word && b in s'.blocks && !Acquires(s, a)
            && s'.blocks[b].count + (if Releases(s, a) then 1 else 0) == s.blocks[b].count
  {
    if a.TryRelease? {
      ReleaserCounts(s, a.t);
      assert ThreadInv(s, s.threads[a.t]);
    }
  }

  /** The releaser that sets the event is the one that gave up the last reference, and it sets it then for
      the first time. */
  lemma LastReleaserWakes(s: State, t: nat)
    requires Inv(s) && Enabled(s, TryRelease(t)) && Tagged(s.threads[t].current)
    ensures var s' := Do(s, TryRelease(t));
            && (s'.threads[t].Waking? <==> s'.references == 0)
            && (s'.threads[t].Waking? ==>
                  s'.threads[t].block == s.word - 1 && s'.blocks[s.word - 1].wakes == 0
                  && Wakers(s'.threads, s.word - 1) == 1)
  {
    ReleaserCounts(s, t);
    assert ThreadInv(s, s.threads[t]);
    var s' := Do(s, TryRelease(t));
    Moved(s, s', t);
    CountDownKeepsInv(s, t);
  }

  // ---------------------------------------------------------------- how calls end

  /** The threads in AcquireProtection's loop. */
  function Acquirers(ts: seq<Place>): nat {
    if ts == [] then 0 else (if ts[0].Acquiring? then 1 else 0) + Acquirers(ts[1..])
  }

  lemma {:induction false} AcquirersUpdated(ts: seq<Place>, i: nat, place: Place)
    requires i < |ts|
    ensures Acquirers(ts[i := place]) == Acquirers(ts) - (if ts[i].Acquiring? then 1 else 0)
                                         + (if place.Acquiring? then 1 else 0)
  {
    if i == 0 {
      assert ts[0 := place][1..] == ts[1..];
    } else {
      assert ts[i := place][1..] == ts[1..][i - 1 := place];
      AcquirersUpdated(ts[1..], i - 1, place);
    }
  }

  lemma {:induction false} AcquirersAppended(ts: seq<Place>)
    ensures Acquirers(ts + [Outside]) == Acquirers(ts)
  {
    if ts == [] {
      assert ts + [Outside] == [Outside];
    } else {
      assert (ts + [Outside])[1..] == ts[1..] + [Outside];
      AcquirersAppended(ts[1..]);
    }
  }

  /** This action is an AcquireProtection that returns FALSE. */
  predicate Refuses(s: State, a: Action) {
    a.TryAcquire? && Enabled(s, a) && Tagged(s.threads[a.t].current)
  }

  ghost function Refused(s: State, acts: seq<Action>): nat
    requires Inv(s) && Possible(s, acts)
    decreases |acts|
  {
    if acts == [] then 0
    else
      DoKeepsInv(s, acts[0]);
      (if Refuses(s, acts[0]) then 1 else 0) + Refused(Do(s, acts[0]), acts[1..])
  }

  /** The calls of AcquireProtection, or of ReleaseProtection, that begin. */
  function Begun(acts: seq<Action>, release: bool): nat {
    if acts == [] then 0
    else
      (if if release then acts[0].ReadForRelease? else acts[0].ReadForAcquire? then 1 else 0)
      + Begun(acts[1..], release)
  }

  /** A turn of either loop is the last one exactly if it saw a tag, or the word as it is; otherwise the loop goes
      on with the value it has just been given. */
  lemma LoopGoesOn(s: State, a: Action)
    requires Inv(s) && Enabled(s, a) && (a.TryAcquire? || a.TryRelease?)
    ensures a.t < |Do(s, a).threads|
    ensures var current, place := s.threads[a.t].current, Do(s, a).threads[a.t];
            if Tagged(current) || current == s.word then !place.Acquiring? && !place.Releasing?
            else place == if a.TryAcquire? then Acquiring(s.word) else Releasing(s.word)
  {
    if a.TryRelease? {
      ReleaserCounts(s, a.t);
    }
    assert ThreadInv(s, s.threads[a.t]);
  }

  /** No call gives up: every ReleaseProtection begun has released or is still in its loop, and every
      AcquireProtection begun has acquired, has been refused on a tag, or is still in its loop. */
  lemma {:induction false} CallsAccounted(s: State, acts: seq<Action>)
    requires Inv(s) && Possible(s, acts)
    ensures Begun(acts, true) + Releasers(s.threads) == Released(s, acts) + Releasers(After(s, acts).threads)
    ensures Begun(acts, false) + Acquirers(s.threads)
         == Acquired(s, acts) + Refused(s, acts) + Acquirers(After(s, acts).threads)
    decreases |acts|
  {
    if acts != [] {
      DoKeepsInv(s, acts[0]);
      CallsStep(s, acts[0]);
      hide Do, Inv, Enabled, Acquires, Releases, Refuses;
      CallsAccounted(Do(s, acts[0]), acts[1..]);
    }
  }

  lemma CallsStep(s: State, a: Action)
    requires Inv(s) && Enabled(s, a)
    ensures (if a.ReadForRelease? then 1 else 0) + Releasers(s.threads)
         == (if Releases(s, a) then 1 else 0) + Releasers(Do(s, a).threads)
    ensures (if a.ReadForAcquire? then 1 else 0) + Acquirers(s.threads)
         == (if Acquires(s, a) then 1 else 0) + (if Refuses(s, a) then 1 else 0) + Acquirers(Do(s, a).threads)
  {
    if a.Enter? {
      Appended(s.threads, 0);
      AcquirersAppended(s.threads);
    } else if !(a.Install? || a.Complete? || a.ReInitialize?) {
      MovesOne(s, a);
      if a.TryAcquire? || a.TryRelease? {
        LoopGoesOn(s, a);
      }
      var place := Do(s, a).threads[a.t];
      hide Do, Inv;
      Updated(s.threads, a.t, place, 0);
      AcquirersUpdated(s.threads, a.t, place);
    }
  }

  /** An action of a thread changes no other thread's place. */
  lemma MovesOne(s: State, a: Action)
    requires Inv(s) && Enabled(s, a) && !(a.Enter? || a.Install? || a.Complete? || a.ReInitialize?)
    ensures a.t < |s.threads| == |Do(s, a).threads|
    ensures Do(s, a).threads == s.threads[a.t := Do(s, a).threads[a.t]]
    ensures a.ReadForAcquire? ==> s.threads[a.t].Outside? && Do(s, a).threads[a.t] == Acquiring(s.word)
    ensures a.ReadForRelease? ==> s.threads[a.t].Outside? && Do(s, a).threads[a.t] == Releasing(s.word)
    ensures a.Wake? ==> s.threads[a.t].Waking? && Do(s, a).threads[a.t].Outside?
  {
    if a.TryRelease? {
      ReleaserCounts(s, a.t);
    }
  }

  /** A thread that was in ReleaseProtection's loop and no longer is has released in between; if a wait block stood
      in the word all the time, it counted that block down. */
  lemma {:induction false} LeftMeansReleased(s: State, t: nat, acts: seq<Action>) returns (k: nat)
    requires Inv(s) && Possible(s, acts) && t < |s.threads| && s.threads[t].Releasing?
    requires t < |After(s, acts).threads| && !After(s, acts).threads[t].Releasing?
    ensures k < |acts| && acts[k] == TryRelease(t) && Possible(s, acts[..k])
    ensures Inv(After(s, acts[..k])) && Releases(After(s, acts[..k]), acts[k])
    ensures s.word % 2 == 1 && s.word != EX_RUNDOWN_ACTIVE && Complete !in acts ==>
              var b, before := s.word - 1, After(s, acts[..k]);
              && b in before.blocks && b in Do(before, acts[k]).blocks
              && Do(before, acts[k]).blocks[b].count == before.blocks[b].count - 1
    decreases |acts|
  {
    hide Do, Inv, Enabled, Releases;
    var a, rest := acts[0], acts[1..];
    DoKeepsInv(s, a);
    assert acts[..0] == [];
    if Tagged(s.word) && s.word != EX_RUNDOWN_ACTIVE && Complete !in acts {
      BlockStands(s, a);
    }
    if a == TryRelease(t) && Releases(s, a) {
      k := 0;
    } else {
      StaysReleasing(s, t, a);
      k := LeftMeansReleased(Do(s, a), t, rest);
      k := k + 1;
      assert acts[..k][0] == a && acts[..k][1..] == rest[..k - 1];
    }
  }

  lemma BlockStands(s: State, a: Action)
    requires Inv(s) && Enabled(s, a) && Tagged(s.word) && s.word != EX_RUNDOWN_ACTIVE && a != Complete
    ensures var b, s' := s.word - 1, Do(s, a);
            && s'.word == s.word && b in s.blocks && b in s'.blocks
            && (Releases(s, a) ==> s'.blocks[b].count == s.blocks[b].count - 1)
  {
    WaitBlockStep(s, s.word - 1, a);
  }

  lemma StaysReleasing(s: State, t: nat, a: Action)
    requires Inv(s) && Enabled(s, a) && t < |s.threads| && s.threads[t].Releasing?
    requires !(a == TryRelease(t) && Releases(s, a))
    ensures t < |Do(s, a).threads| && Do(s, a).threads[t].Releasing?
  {
    if a.TryAcquire? || a.TryRelease? {
      LoopGoesOn(s, a);
    }
    if !(a.Enter? || a.Install? || a.Complete? || a.ReInitialize?) {
      MovesOne(s, a);
    }
  }

  /** A run begins with its first action. */
  lemma Prepended(s: State, a: Action, acts: seq<Action>)
    requires Inv(s) && Enabled(s, a) && Do(s, a).references < MAX_REFERENCES
    requires Inv(Do(s, a)) && Possible(Do(s, a), acts)
    ensures Possible(s, [a] + acts) && After(s, [a] + acts) == After(Do(s, a), acts)
  {
    assert ([a] + acts)[1..] == acts;
  }

  /** A release that first read the plain word meets the wait block, counts it down to nothing and goes on to wake
      the waiter. */
  lemma LateReleaseWakes(order: Order)
    ensures var acts := [Enter, ReadForAcquire(0), TryAcquire(0), ReadForRelease(0), Install(2), TryRelease(0)];
            && Possible(Initial(order), acts)
            && var s := After(Initial(order), acts);
               s.threads == [Releasing(3)] && s.references == 1 && s.blocks == map[2 := WaitBlock(1, 0)]
               && Enabled(s, TryRelease(0)) && Inv(s) && Do(s, TryRelease(0)).threads == [Waking(2)]
               && Do(s, TryRelease(0)).references == 0
  {
    var s1, s2, s3 := OneReference(order);
    LateRelease(s3);
    var acts := [ReadForRelease(0), Install(2), TryRelease(0)];
    hide Do, Inv, Counted;
    Prepended(s2, TryAcquire(0), acts);
    Prepended(s1, ReadForAcquire(0), [TryAcquire(0)] + acts);
    Prepended(Initial(order), Enter, [ReadForAcquire(0)] + ([TryAcquire(0)] + acts));
    assert [Enter] + ([ReadForAcquire(0)] + ([TryAcquire(0)] + acts))
        == [Enter, ReadForAcquire(0), TryAcquire(0), ReadForRelease(0), Install(2), TryRelease(0)];
  }

  lemma OneReference(order: Order) returns (s1: State, s2: State, s3: State)
    ensures s1 == Do(Initial(order), Enter) && Inv(s1) && s1.references == 0
    ensures Enabled(s1, ReadForAcquire(0)) && s2 == Do(s1, ReadForAcquire(0)) && Inv(s2) && s2.references == 0
    ensures Enabled(s2, TryAcquire(0)) && s3 == Do(s2, TryAcquire(0)) && Inv(s3)
    ensures s3 == State(order, Counted(s3), 1, [Outside], map[])
  {
    DoKeepsInv(Initial(order), Enter);
    s1 := Do(Initial(order), Enter);
    DoKeepsInv(s1, ReadForAcquire(0));
    s2 := Do(s1, ReadForAcquire(0));
    DoKeepsInv(s2, TryAcquire(0));
    s3 := Do(s2, TryAcquire(0));
  }

  lemma LateRelease(s: State)
    requires Inv(s) && s.references == 1 && s.threads == [Outside] && s.blocks == map[] && s.word == Counted(s)
    ensures var acts := [ReadForRelease(0), Install(2), TryRelease(0)];
            && Possible(s, acts)
            && var s' := After(s, acts);
               s'.threads == [Releasing(3)] && s'.references == 1 && s'.blocks == map[2 := WaitBlock(1, 0)]
               && Enabled(s', TryRelease(0)) && Inv(s') && Do(s', TryRelease(0)).threads == [Waking(2)]
               && Do(s', TryRelease(0)).references == 0
  {
    var s1, s2, s3 := InstalledBetween(s);
    hide Do, Inv, Counted;
    Prepended(s2, TryRelease(0), []);
    Prepended(s1, Install(2), [TryRelease(0)] + []);
    Prepended(s, ReadForRelease(0), [Install(2)] + ([TryRelease(0)] + []));
    assert [ReadForRelease(0)] + ([Install(2)] + ([TryRelease(0)] + []))
        == [ReadForRelease(0), Install(2), TryRelease(0)];
  }

  lemma InstalledBetween(s: State) returns (s1: State, s2: State, s3: State)
    requires Inv(s) && s.references == 1 && s.threads == [Outside] && s.blocks == map[] && s.word == Counted(s)
    ensures Enabled(s, ReadForRelease(0)) && s1 == Do(s, ReadForRelease(0)) && Inv(s1) && s1.references == 1
    ensures Enabled(s1, Install(2)) && s2 == Do(s1, Install(2)) && Inv(s2) && s2.references == 1
    ensures Enabled(s2, TryRelease(0)) && s3 == Do(s2, TryRelease(0)) && Inv(s3)
    ensures s3.threads == [Releasing(3)] && s3.references == 1 && s3.blocks == map[2 := WaitBlock(1, 0)]
    ensures Enabled(s3, TryRelease(0))
    ensures Do(s3, TryRelease(0)).threads == [Waking(2)] && Do(s3, TryRelease(0)).references == 0
  {
    DoKeepsInv(s, ReadForRelease(0));
    s1 := Do(s, ReadForRelease(0));
    DoKeepsInv(s1, Install(2));
    s2 := Do(s1, Install(2));
    DoKeepsInv(s2, TryRelease(0));
    s3 := Do(s2, TryRelease(0));
  }

  // ---------------------------------------------------------------- lost exchanges

  /** This action is an operation that takes effect on the word. */
  predicate Commits(s: State, a: Action) {
    || (s.order.Exchanged? && Acquires(s, a))
    || (s.order.Exchanged? && Releases(s, a) && !Tagged(s.threads[a.t].current))
    || a.Install? || a.Complete? || a.ReInitialize?
  }

  lemma OnlyCommitsChange(s: State, a: Action)
    requires Inv(s) && Enabled(s, a) && Do(s, a).word != s.word
    ensures Commits(s, a)
  {
    if a.TryRelease? {
      ReleaserCounts(s, a.t);
      assert ThreadInv(s, s.threads[a.t]);
    } else if a.TryAcquire? {
      assert ThreadInv(s, s.threads[a.t]);
    }
  }

  predicate InLoop(s: State, t: nat) {
    t < |s.threads| && (s.threads[t].Acquiring? || s.threads[t].Releasing?)
  }

  /** This turn of a loop ends in another turn: its exchange was lost. */
  predicate Loses(s: State, a: Action)
    requires Inv(s) && Enabled(s, a)
  {
    (a.TryAcquire? || a.TryRelease?) && InLoop(Do(s, a), a.t)
  }

  predicate ActsFor(a: Action, t: nat) {
    match a
    case ReadForAcquire(u) => u == t
    case TryAcquire(u) => u == t
    case ReadForRelease(u) => u == t
    case TryRelease(u) => u == t
    case Wake(u) => u == t
    case _ => false
  }

  lemma UntouchedStep(s: State, t: nat, a: Action)
    requires Inv(s) && Enabled(s, a) && t < |s.threads| && !ActsFor(a, t)
    ensures t < |Do(s, a).threads| && Do(s, a).threads[t] == s.threads[t]
  {
    if a.TryRelease? {
      ReleaserCounts(s, a.t);
    }
  }

  /** A thread that has just seen the word and loses its next exchange was overtaken: between the two, an
      operation of somebody else took effect. */
  lemma {:induction false} LostMeansOvertaken(s: State, t: nat, acts: seq<Action>, a: Action) returns (k: nat)
    requires Inv(s) && Possible(s, acts) && InLoop(s, t) && s.threads[t].current == s.word
    requires forall o :: o in acts ==> !ActsFor(o, t)
    requires a == TryAcquire(t) || a == TryRelease(t)
    requires Inv(After(s, acts)) && Enabled(After(s, acts), a) && Loses(After(s, acts), a)
    ensures k < |acts| && Possible(s, acts[..k]) && Inv(After(s, acts[..k])) && Commits(After(s, acts[..k]), acts[k])
    decreases |acts|
  {
    if acts == [] {
      NotLostAtOnce(s, a);
      assert false;
    } else {
      hide Do, Inv, Commits, Loses;
      var o, rest := acts[0], acts[1..];
      DoKeepsInv(s, o);
      assert !ActsFor(o, t);
      UntouchedStep(s, t, o);
      assert acts[..0] == [];
      if Commits(s, o) {
        k := 0;
      } else {
        if Do(s, o).word != s.word {
          OnlyCommitsChange(s, o);
        }
        k := LostMeansOvertaken(Do(s, o), t, rest, a);
        k := k + 1;
        assert acts[..k][0] == o && acts[..k][1..] == rest[..k - 1];
      }
    }
  }

  lemma NotLostAtOnce(s: State, a: Action)
    requires Inv(s) && (a.TryAcquire? || a.TryRelease?) && Enabled(s, a) && s.threads[a.t].current == s.word
    ensures !Loses(s, a)
  {
    if a.TryRelease? {
      ReleaserCounts(s, a.t);
    }
  }

  /** The exchanges the thread `t` loses over a run. */
  ghost function Lost(s: State, t: nat, acts: seq<Action>): nat
    requires Inv(s) && Possible(s, acts)
    decreases |acts|
  {
    if acts == [] then 0
    else
      DoKeepsInv(s, acts[0]);
      (if ActsFor(acts[0], t) && Loses(s, acts[0]) then 1 else 0) + Lost(Do(s, acts[0]), t, acts[1..])
  }

  /** The operations of all others that take effect over a run. */
  ghost function Overtaking(s: State, t: nat, acts: seq<Action>): nat
    requires Inv(s) && Possible(s, acts)
    decreases |acts|
  {
    if acts == [] then 0
    else
      DoKeepsInv(s, acts[0]);
      (if !ActsFor(acts[0], t) && Commits(s, acts[0]) then 1 else 0) + Overtaking(Do(s, acts[0]), t, acts[1..])
  }

  /** The next exchange of `t` is bound to be lost. */
  predicate Stale(s: State, t: nat) {
    InLoop(s, t) && !Tagged(s.threads[t].current) && s.threads[t].current != s.word
  }

  /** Progress without locks: over any run a thread loses at most as many exchanges as operations of others
      take effect. */
  lemma {:induction false} LossesAreOvertakings(s: State, t: nat, acts: seq<Action>)
    requires Inv(s) && Possible(s, acts)
    ensures Lost(s, t, acts) + (if Stale(After(s, acts), t) then 1 else 0)
         <= Overtaking(s, t, acts) + (if Stale(s, t) then 1 else 0)
    decreases |acts|
  {
    if acts != [] {
      hide Do, Inv, Stale, Loses, Commits;
      DoKeepsInv(s, acts[0]);
      LossesStep(s, t, acts[0]);
      LossesAreOvertakings(Do(s, acts[0]), t, acts[1..]);
    }
  }

  lemma LossesStep(s: State, t: nat, a: Action)
    requires Inv(s) && Enabled(s, a)
    ensures (if ActsFor(a, t) && Loses(s, a) then 1 else 0) + (if Stale(Do(s, a), t) then 1 else 0)
         <= (if !ActsFor(a, t) && Commits(s, a) then 1 else 0) + (if Stale(s, t) then 1 else 0)
  {
    if a.TryRelease? {
      ReleaserCounts(s, a.t);
    }
  }
}
