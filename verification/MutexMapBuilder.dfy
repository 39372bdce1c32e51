/**
 * The builder that takes the lock for every element: the threads allocate the indices of a batch
 * in one critical section and push each element onto its chain in another.
 *
 * One step is one critical section (or one thread-local action), threads interleave at will.
 */
module MutexMapBuilder {
  import opened Group
  import opened ChainLog
  import opened Batches
  import opened Handoff

  /** `ledger.homes` and `ledger.log` are history: no step reads them to decide what to do. */
  datatype State = State(table: map<Hash, nat>, overflow: seq<nat>, ledger: Ledger, handoff: Handover)

  function Zeros(n: nat): (z: seq<nat>)
    ensures |z| == n && forall i :: 0 <= i < n ==> z[i] == 0
  {
    seq(n, i => 0)
  }

  function Initial(inputs: Inputs): State {
    State(map[], [0], Batches.Start(inputs), Begin(|inputs|))
  }

  predicate TableAt(s: State, h: Hash) {
    Latest(s.ledger.log, |s.ledger.log|, h) == (if h in s.table then s.table[h] else 0) &&
    (h in s.table ==> s.table[h] != 0)
  }

  predicate Settled(inputs: Inputs, s: State, t: nat)
    requires t < |inputs| == |s.ledger.progress| == |s.handoff.stages|
  {
    !s.handoff.stages[t].Building? ==> s.ledger.progress[t] == Between(|inputs[t]|)
  }

  /** What every interleaving keeps. */
  ghost predicate Inv(inputs: Inputs, s: State) {
    LedgerInv(inputs, s.ledger) && HandoffInv(s.handoff) && |s.handoff.stages| == |inputs| &&
    |s.overflow| == |s.ledger.homes| + 1 &&
    Linked(s.ledger.log, s.overflow) &&
    (forall j :: 0 <= j < |s.overflow| && !Logged(s.ledger.log, j) ==> s.overflow[j] == 0) &&
    (forall h :: TableAt(s, h)) &&
    (forall t :: 0 <= t < |inputs| ==> Settled(inputs, s, t)) &&
    (|s.handoff.sent| > 0 ==> s.handoff.sent[0] == Lookup(s.table, s.overflow))
  }

  // ---------- The critical sections ----------

  /** Extend the overflow vector by one zero per item of the batch; its old length is the offset. */
  function AllocateBatch(inputs: Inputs, s: State, t: nat): State
    requires CanAllocate(inputs, s.ledger, t)
  {
    var n := |inputs[t][s.ledger.progress[t].done]|;
    s.(overflow := s.overflow + Zeros(n), ledger := Allocate(inputs, s.ledger, t, |s.overflow|))
  }

  /** Make the element the head of its chain; an existing head becomes its link. */
  function Insert(inputs: Inputs, s: State, t: nat): State
    requires CanPush(inputs, s.ledger, t) && NextPush(inputs, s.ledger, t).at < |s.overflow|
  {
    var p := NextPush(inputs, s.ledger, t);
    var overflow := if p.hash in s.table then s.overflow[p.at := s.table[p.hash]] else s.overflow;
    s.(table := s.table[p.hash := p.at], overflow := overflow, ledger := PushNext(inputs, s.ledger, t))
  }

  /** One step of thread t; a thread that has to wait, or has returned, does nothing. */
  ghost function Step(inputs: Inputs, s: State, t: nat): State
    requires Inv(inputs, s) && t < |inputs|
  {
    if !Enabled(s.handoff, t) then s
    else if s.handoff.stages[t].Waiting? then s.(handoff := Receive(s.handoff, t))
    else if CanAllocate(inputs, s.ledger, t) then AllocateBatch(inputs, s, t)
    else if CanPush(inputs, s.ledger, t) then
      NextIsFresh(inputs, s.ledger, t);
      Insert(inputs, s, t)
    else if CanFinish(inputs, s.ledger, t) then s.(ledger := Finish(inputs, s.ledger, t))
    else
      ReleaseKeeps(s.handoff, t, Lookup(s.table, s.overflow));
      s.(handoff := Release(s.handoff, t, Lookup(s.table, s.overflow)))
  }

  // ---------- Every step keeps the invariant ----------

  lemma InitialHolds(inputs: Inputs)
    ensures Inv(inputs, Initial(inputs))
  {
    StartHolds(inputs);
    BeginHolds(|inputs|);
  }

  lemma AllocateBatchKeeps(inputs: Inputs, s: State, t: nat)
    requires Inv(inputs, s) && CanAllocate(inputs, s.ledger, t) && s.handoff.stages[t].Building?
    ensures Inv(inputs, AllocateBatch(inputs, s, t))
  {
    var s' := AllocateBatch(inputs, s, t);
    AllocateKeeps(inputs, s.ledger, t);
    LinksExtend(s.ledger.log, s.overflow, s'.overflow);
    StillUnsent(s.handoff, t);
    forall h ensures TableAt(s', h) {
      assert TableAt(s, h);
    }
    forall u | 0 <= u < |inputs| ensures Settled(inputs, s', u) {
      assert Settled(inputs, s, u);
    }
  }

  /** Nothing is published while a thread is still building. */
  lemma StillUnsent(h: Handover, t: nat)
    requires HandoffInv(h) && t < |h.stages| && h.stages[t].Building?
    ensures h.sent == []
  {
    SomeoneBuilds(h.stages, |h.stages|);
  }

  lemma InsertKeeps(inputs: Inputs, s: State, t: nat)
    requires Inv(inputs, s) && CanPush(inputs, s.ledger, t) && s.handoff.stages[t].Building?
    ensures NextPush(inputs, s.ledger, t).at < |s.overflow| && Inv(inputs, Insert(inputs, s, t))
  {
    var p := NextPush(inputs, s.ledger, t);
    NextIsFresh(inputs, s.ledger, t);
    var s' := Insert(inputs, s, t);
    PushNextKeeps(inputs, s.ledger, t);
    PushKeeps(s.ledger.log, s.overflow, p);
    StillUnsent(s.handoff, t);
    assert TableAt(s, p.hash);
    assert s'.overflow == s.overflow[p.at := Latest(s.ledger.log, |s.ledger.log|, p.hash)];
    forall j | 0 <= j < |s'.overflow| && !Logged(s'.ledger.log, j) ensures s'.overflow[j] == 0 {
      LoggedStays(s.ledger.log, p, j);
    }
    forall h ensures TableAt(s', h) {
      assert TableAt(s, h);
    }
    forall u | 0 <= u < |inputs| ensures Settled(inputs, s', u) {
      assert Settled(inputs, s, u);
    }
  }

  lemma LoggedStays(log: seq<Push>, p: Push, j: nat)
    ensures Logged(log + [p], j) <==> Logged(log, j) || j == p.at
  {
    if k :| 0 <= k < |log| && log[k].at == j {
      assert (log + [p])[k].at == j;
    }
    assert (log + [p])[|log|] == p;
  }

  lemma FinishBatchKeeps(inputs: Inputs, s: State, t: nat)
    requires Inv(inputs, s) && CanFinish(inputs, s.ledger, t) && s.handoff.stages[t].Building?
    ensures Inv(inputs, s.(ledger := Finish(inputs, s.ledger, t)))
  {
    var s' := s.(ledger := Finish(inputs, s.ledger, t));
    FinishKeeps(inputs, s.ledger, t);
    forall h ensures TableAt(s', h) {
      assert TableAt(s, h);
    }
    forall u | 0 <= u < |inputs| ensures Settled(inputs, s', u) {
      assert Settled(inputs, s, u);
    }
  }

  lemma HandoffKeeps(inputs: Inputs, s: State, h': Handover)
    requires Inv(inputs, s) && HandoffInv(h') && |h'.stages| == |inputs|
    requires forall t :: 0 <= t < |inputs| ==> Settled(inputs, s.(handoff := h'), t)
    requires h'.sent == s.handoff.sent || h'.sent == [Lookup(s.table, s.overflow)]
    ensures Inv(inputs, s.(handoff := h'))
  {
    forall h ensures TableAt(s.(handoff := h'), h) {
      assert TableAt(s, h);
    }
  }

  lemma StepKeeps(inputs: Inputs, s: State, t: nat)
    requires Inv(inputs, s) && t < |inputs|
    ensures Inv(inputs, Step(inputs, s, t))
  {
    assert InBounds(inputs, s.ledger, t) && Settled(inputs, s, t);
    if !Enabled(s.handoff, t) {
    } else if s.handoff.stages[t].Waiting? {
      ReceiveKeeps(s.handoff, t);
      forall u | 0 <= u < |inputs| ensures Settled(inputs, s.(handoff := Receive(s.handoff, t)), u) {
        assert Settled(inputs, s, u);
      }
      HandoffKeeps(inputs, s, Receive(s.handoff, t));
    } else if CanAllocate(inputs, s.ledger, t) {
      AllocateBatchKeeps(inputs, s, t);
    } else if CanPush(inputs, s.ledger, t) {
      InsertKeeps(inputs, s, t);
    } else if CanFinish(inputs, s.ledger, t) {
      FinishBatchKeeps(inputs, s, t);
    } else {
      var lookup := Lookup(s.table, s.overflow);
      ReleaseKeeps(s.handoff, t, lookup);
      forall u | 0 <= u < |inputs| ensures Settled(inputs, s.(handoff := Release(s.handoff, t, lookup)), u) {
        assert Settled(inputs, s, u);
      }
      HandoffKeeps(inputs, s, Release(s.handoff, t, lookup));
    }
  }

  // ---------- Whole runs ----------

  /** A schedule names the thread that takes each step. */
  ghost predicate IsSchedule(inputs: Inputs, schedule: seq<nat>) {
    forall i :: 0 <= i < |schedule| ==> schedule[i] < |inputs|
  }

  /** The state reached by an arbitrary interleaving. */
  ghost function After(inputs: Inputs, schedule: seq<nat>): (s: State)
    requires IsSchedule(inputs, schedule)
    ensures Inv(inputs, s)
  {
    if |schedule| == 0 then
      InitialHolds(inputs);
      Initial(inputs)
    else
      var before := After(inputs, schedule[..|schedule| - 1]);
      StepKeeps(inputs, before, schedule[|schedule| - 1]);
      Step(inputs, before, schedule[|schedule| - 1])
  }

  /**
   * At every moment of every run, following the links from the head of h visits exactly the
   * indices already pushed for h, each once and the newest first, and then ends.
   */
  lemma ChainsAtEveryMoment(inputs: Inputs, schedule: seq<nat>, h: Hash)
    requires IsSchedule(inputs, schedule)
    ensures var s := After(inputs, schedule);
      var chain := Listing(s.ledger.log, |s.ledger.log|, h);
      IsChain(s.overflow, if h in s.table then s.table[h] else 0, chain) &&
      (forall j: nat :: j < |s.ledger.homes| ==>
        (j + 1 in chain <==> Pushed(s.ledger.progress, s.ledger.homes[j]) && HashOf(inputs, s.ledger.homes[j]) == h)) &&
      forall i, j :: 0 <= i < j < |chain| ==> chain[i] != chain[j]
  {
    var s := After(inputs, schedule);
    var chain := Listing(s.ledger.log, |s.ledger.log|, h);
    ChainIsListing(s.ledger.log, s.overflow, |s.ledger.log|, h);
    assert TableAt(s, h);
    forall j: nat | j < |s.ledger.homes|
      ensures j + 1 in chain <==> Pushed(s.ledger.progress, s.ledger.homes[j]) && HashOf(inputs, s.ledger.homes[j]) == h
    {
      ListedIsPushed(inputs, s.ledger, h, j);
    }
    forall i, j | 0 <= i < j < |chain| ensures chain[i] != chain[j] {
      ListedOnce(s.ledger.log, |s.ledger.log|, h, i, j);
    }
  }

  lemma Publishable(inputs: Inputs, s: State)
    requires Inv(inputs, s)
    ensures Published(s.ledger.log, Lookup(s.table, s.overflow))
  {
    forall h ensures Lookup(s.table, s.overflow).Head(h) == Latest(s.ledger.log, |s.ledger.log|, h) {
      assert TableAt(s, h);
    }
    forall h | h in s.table ensures s.table[h] != 0 {
      assert TableAt(s, h);
    }
  }

  /**
   * Whatever the interleaving, every thread that returns holds a lookup that answers each hash with
   * the positions of all input elements of that hash, each once; positions number the whole input.
   */
  lemma EveryLookupIsRight(inputs: Inputs, schedule: seq<nat>, t: nat, h: Hash, output: seq<nat>)
    requires IsSchedule(inputs, schedule) && t < |inputs|
    requires After(inputs, schedule).handoff.stages[t].Returned?
    ensures var s := After(inputs, schedule);
      var lookup := s.handoff.stages[t].lookup;
      lookup == s.handoff.sent[0] && lookup.Walkable(h) && Numbering(inputs, s.ledger.homes) &&
      (IsChain(lookup.overflow, lookup.Head(h), Indices(output)) ==> AnswersFor(inputs, s.ledger.homes, h, output))
  {
    var s := After(inputs, schedule);
    var lookup := s.handoff.stages[t].lookup;
    SomeoneBuilds(s.handoff.stages, |inputs|);
    forall u | 0 <= u < |inputs| ensures s.ledger.progress[u] == Between(|inputs[u]|) {
      assert Settled(inputs, s, u);
    }
    Publishable(inputs, s);
    PublishedAnswers(s.ledger.log, lookup, h, output);
    DoneNumbers(inputs, s.ledger);
    if IsChain(lookup.overflow, lookup.Head(h), Indices(output)) {
      DoneAnswers(inputs, s.ledger, h, output);
    }
  }

  // ---------- Every run ends ----------

  ghost function WorkLeft(inputs: Inputs, s: State): nat
    requires Inv(inputs, s)
  {
    Work(inputs, s.ledger, s.handoff, |inputs|)
  }

  /** A step of a thread that is not blocked brings the build closer to its end. */
  lemma StepWorks(inputs: Inputs, s: State, t: nat)
    requires Inv(inputs, s) && t < |inputs| && Enabled(s.handoff, t)
    ensures Inv(inputs, Step(inputs, s, t)) && WorkLeft(inputs, Step(inputs, s, t)) < WorkLeft(inputs, s)
  {
    StepKeeps(inputs, s, t);
    var s' := Step(inputs, s, t);
    assert InBounds(inputs, s.ledger, t) && InBounds(inputs, s'.ledger, t) && Settled(inputs, s, t);
    WorkFalls(inputs, s.ledger, s.handoff, s'.ledger, s'.handoff, t, |inputs|);
  }

  /** No thread of the schedule is picked while it is blocked. */
  ghost predicate NeverIdle(inputs: Inputs, schedule: seq<nat>)
    requires IsSchedule(inputs, schedule)
  {
    |schedule| == 0 ||
    (NeverIdle(inputs, schedule[..|schedule| - 1]) &&
     Enabled(After(inputs, schedule[..|schedule| - 1]).handoff, schedule[|schedule| - 1]))
  }

  lemma {:induction false} RunsShrink(inputs: Inputs, schedule: seq<nat>)
    requires IsSchedule(inputs, schedule) && NeverIdle(inputs, schedule)
    ensures |schedule| + WorkLeft(inputs, After(inputs, schedule)) <= WorkLeft(inputs, After(inputs, []))
  {
    if |schedule| == 0 {
      assert schedule == [];
    } else {
      var before := schedule[..|schedule| - 1];
      RunsShrink(inputs, before);
      StepWorks(inputs, After(inputs, before), schedule[|schedule| - 1]);
    }
  }

  /** No deadlock and no endless run: a run stops only when all threads returned, and every run stops. */
  lemma RunsEnd(inputs: Inputs, schedule: seq<nat>)
    requires IsSchedule(inputs, schedule) && NeverIdle(inputs, schedule)
    ensures |schedule| <= WorkLeft(inputs, After(inputs, []))
    ensures (forall t :: 0 <= t < |inputs| ==> !Enabled(After(inputs, schedule).handoff, t)) <==>
      forall t :: 0 <= t < |inputs| ==> After(inputs, schedule).handoff.stages[t].Returned?
  {
    RunsShrink(inputs, schedule);
    NoDeadlock(After(inputs, schedule).handoff);
  }

  // ---------- The shared state, updated in place ----------

  class MutexMapBuilder {
    const inputs: Inputs
    var table: map<Hash, nat>
    var overflow: seq<nat>
    var progress: seq<Progress>
    var stages: seq<Stage>
    var owners: nat
    var sent: seq<Lookup>
    ghost var homes: seq<Element>
    ghost var log: seq<Push>

    ghost function Now(): State
      reads this
    {
      State(table, overflow, Ledger(progress, homes, log), Handover(stages, owners, sent))
    }

    constructor (inputs: Inputs)
      ensures this.inputs == inputs && Now() == After(inputs, [])
    {
      this.inputs := inputs;
      table := map[];
      overflow := [0];
      progress := seq(|inputs|, t => Between(0));
      stages := seq(|inputs|, t => Building);
      owners := |inputs|;
      sent := [];
      homes := [];
      log := [];
    }

    /** First critical section: reserve the indices of the next batch. */
    method AllocateNext(t: nat)
      requires CanAllocate(inputs, Now().ledger, t)
      modifies this
      ensures Now() == AllocateBatch(inputs, old(Now()), t)
    {
      var b := progress[t].done;
      var offset := |overflow|;
      overflow := overflow + Zeros(|inputs[t][b]|);
      progress := progress[t := Within(b, offset, 0)];
      homes := homes + Items(t, b, |inputs[t][b]|);
    }

    /** Second critical section: push the next element of the batch. */
    method InsertNext(t: nat)
      requires CanPush(inputs, Now().ledger, t) && NextPush(inputs, Now().ledger, t).at < |overflow|
      modifies this
      ensures Now() == Insert(inputs, old(Now()), t)
    {
      var p := progress[t];
      var hash, at := inputs[t][p.done][p.index], p.offset + p.index;
      if hash in table {
        overflow := overflow[at := table[hash]];
      }
      table := table[hash := at];
      progress := progress[t := p.(index := p.index + 1)];
      log := log + [Push(at, hash)];
    }

    /** Thread t takes its next step. */
    method Advance(t: nat)
      requires Inv(inputs, Now()) && t < |inputs|
      modifies this
      ensures Inv(inputs, old(Now())) && Now() == Step(inputs, old(Now()), t)
    {
      ghost var was := Now();
      assert InBounds(inputs, was.ledger, t) && Settled(inputs, was, t);
      if stages[t].Returned? || (stages[t].Waiting? && |sent| == 0) {
        return;
      }
      var p := progress[t];
      if stages[t].Waiting? {
        stages := stages[t := Returned(sent[0])];
      } else if p.Between? && p.done < |inputs[t]| {
        AllocateNext(t);
      } else if p.Within? && p.index < |inputs[t][p.done]| {
        NextIsFresh(inputs, was.ledger, t);
        InsertNext(t);
      } else if p.Within? {
        progress := progress[t := Between(p.done + 1)];
      } else {
        ReleaseKeeps(was.handoff, t, Lookup(table, overflow));
        stages, owners, sent := ReleaseReference(stages, owners, sent, t, Lookup(table, overflow));
      }
    }

    /** The threads run under the given interleaving. */
    method Run(schedule: seq<nat>)
      requires IsSchedule(inputs, schedule) && Now() == After(inputs, [])
      modifies this
      ensures Now() == After(inputs, schedule)
    {
      for i := 0 to |schedule|
        invariant Now() == After(inputs, schedule[..i])
      {
        assert schedule[..i + 1][..i] == schedule[..i];
        Advance(schedule[i]);
      }
      assert schedule[..|schedule|] == schedule;
    }
  }
}
