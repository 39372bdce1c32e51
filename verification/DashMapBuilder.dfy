/**
 * The builder over a concurrent map: a thread pushes elements by atomic map insertions alone and
 * keeps the links of its running batch in a private buffer, which it copies to the shared overflow
 * vector when the batch is done.
 *
 * Laying the private buffers over the shared vector gives, step for step, the state of the builder
 * that locks for every element; so both publish the same lookup under the same interleaving.
 */
module DashMapBuilder {
  import opened Group
  import opened ChainLog
  import opened Batches
  import opened Handoff
  import Locked = MutexMapBuilder

  /** `locals[t]` is the private buffer of thread t; it is empty between two batches. */
  datatype State = State(
    table: map<Hash, nat>, overflow: seq<nat>, locals: seq<seq<nat>>, ledger: Ledger, handoff: Handover)

  function Initial(inputs: Inputs): State {
    State(map[], [0], seq(|inputs|, t => []), Batches.Start(inputs), Begin(|inputs|))
  }

  // ---------- The overlay ----------

  /** Element e belongs to a batch whose links are still private. */
  predicate Private(s: State, e: Element) {
    e.thread < |s.ledger.progress| && e.thread < |s.locals| && s.ledger.progress[e.thread].Within? &&
    s.ledger.progress[e.thread].done == e.batch && e.item < |s.locals[e.thread]|
  }

  /** The link of index j: in the buffer of the batch that owns j while it runs, in the shared vector otherwise. */
  function Link(s: State, j: nat): nat
    requires j < |s.overflow| == |s.ledger.homes| + 1
  {
    if j > 0 && Private(s, s.ledger.homes[j - 1]) then
      s.locals[s.ledger.homes[j - 1].thread][s.ledger.homes[j - 1].item]
    else s.overflow[j]
  }

  function Overlay(s: State): (links: seq<nat>)
    requires |s.overflow| == |s.ledger.homes| + 1
    ensures |links| == |s.overflow| && forall j :: 0 <= j < |links| ==> links[j] == Link(s, j)
  {
    seq(|s.overflow|, j requires 0 <= j < |s.overflow| => Link(s, j))
  }

  function Abstract(s: State): Locked.State
    requires |s.overflow| == |s.ledger.homes| + 1
  {
    Locked.State(s.table, Overlay(s), s.ledger, s.handoff)
  }

  predicate Buffered(inputs: Inputs, s: State, t: nat)
    requires t < |inputs| == |s.ledger.progress| == |s.locals|
  {
    var p := s.ledger.progress[t];
    p.Within? ==> p.done < |inputs[t]| && |s.locals[t]| == |inputs[t][p.done]|
  }

  ghost predicate Inv(inputs: Inputs, s: State) {
    |s.overflow| == |s.ledger.homes| + 1 && Locked.Inv(inputs, Abstract(s)) && |s.locals| == |inputs| &&
    forall t :: 0 <= t < |inputs| ==> Buffered(inputs, s, t)
  }

  // ---------- The steps ----------

  /** A zeroed private buffer, and as many zeros at the end of the shared vector. */
  function AllocateBatch(inputs: Inputs, s: State, t: nat): State
    requires CanAllocate(inputs, s.ledger, t) && |s.locals| == |inputs|
  {
    var local := Locked.Zeros(|inputs[t][s.ledger.progress[t].done]|);
    s.(overflow := s.overflow + local, locals := s.locals[t := local],
       ledger := Allocate(inputs, s.ledger, t, |s.overflow|))
  }

  /** One atomic map insertion; the replaced head, if any, goes to the private buffer. */
  function Insert(inputs: Inputs, s: State, t: nat): State
    requires CanPush(inputs, s.ledger, t) && |s.locals| == |inputs| && s.ledger.progress[t].index < |s.locals[t]|
  {
    var p := NextPush(inputs, s.ledger, t);
    var local := if p.hash in s.table then s.locals[t][s.ledger.progress[t].index := s.table[p.hash]] else s.locals[t];
    s.(table := s.table[p.hash := p.at], locals := s.locals[t := local], ledger := PushNext(inputs, s.ledger, t))
  }

  function Overwrite(target: seq<nat>, at: nat, source: seq<nat>): seq<nat>
    requires at + |source| <= |target|
  {
    target[..at] + source + target[at + |source|..]
  }

  /** The private buffer replaces the range that the batch owns. */
  function CopyBack(inputs: Inputs, s: State, t: nat): State
    requires CanFinish(inputs, s.ledger, t) && |s.locals| == |inputs|
    requires s.ledger.progress[t].offset + |s.locals[t]| <= |s.overflow|
  {
    s.(overflow := Overwrite(s.overflow, s.ledger.progress[t].offset, s.locals[t]), locals := s.locals[t := []],
       ledger := Finish(inputs, s.ledger, t))
  }

  ghost function Step(inputs: Inputs, s: State, t: nat): State
    requires Inv(inputs, s) && t < |inputs|
  {
    assert InBounds(inputs, s.ledger, t) && Buffered(inputs, s, t);
    if !Enabled(s.handoff, t) then s
    else if s.handoff.stages[t].Waiting? then s.(handoff := Receive(s.handoff, t))
    else if CanAllocate(inputs, s.ledger, t) then AllocateBatch(inputs, s, t)
    else if CanPush(inputs, s.ledger, t) then Insert(inputs, s, t)
    else if CanFinish(inputs, s.ledger, t) then CopyBack(inputs, s, t)
    else
      ReleaseKeeps(s.handoff, t, Lookup(s.table, s.overflow));
      s.(handoff := Release(s.handoff, t, Lookup(s.table, s.overflow)))
  }

  // ---------- Step for step the same as the locking builder ----------

  lemma InitialRefines(inputs: Inputs)
    ensures Inv(inputs, Initial(inputs)) && Abstract(Initial(inputs)) == Locked.Initial(inputs)
  {
    Locked.InitialHolds(inputs);
    assert Overlay(Initial(inputs)) == [0];
  }

  lemma AllocateRefines(inputs: Inputs, s: State, t: nat)
    requires Inv(inputs, s) && CanAllocate(inputs, s.ledger, t)
    ensures Abstract(AllocateBatch(inputs, s, t)) == Locked.AllocateBatch(inputs, Abstract(s), t)
  {
    var s' := AllocateBatch(inputs, s, t);
    var n := |inputs[t][s.ledger.progress[t].done]|;
    forall j | 0 <= j < |s'.overflow| ensures Link(s', j) == (Overlay(s) + Locked.Zeros(n))[j] {
      if 0 < j < |s.overflow| {
        assert Allocated(s.ledger.progress, s.ledger.homes[j - 1]);
      }
    }
    assert Overlay(s') == Overlay(s) + Locked.Zeros(n);
  }

  lemma InsertRefines(inputs: Inputs, s: State, t: nat)
    requires Inv(inputs, s) && CanPush(inputs, s.ledger, t)
    ensures s.ledger.progress[t].index < |s.locals[t]| && NextPush(inputs, s.ledger, t).at < |s.overflow|
    ensures Abstract(Insert(inputs, s, t)) == Locked.Insert(inputs, Abstract(s), t)
  {
    assert Buffered(inputs, s, t);
    var p := NextPush(inputs, s.ledger, t);
    NextIsFresh(inputs, s.ledger, t);
    var s', l' := Insert(inputs, s, t), Locked.Insert(inputs, Abstract(s), t);
    forall j | 0 <= j < |s'.overflow| ensures Link(s', j) == l'.overflow[j] {
      assert j > 0 && j != p.at ==> s.ledger.homes[j - 1] != s.ledger.homes[p.at - 1];
    }
    assert Overlay(s') == l'.overflow;
  }

  lemma CopyBackRefines(inputs: Inputs, s: State, t: nat)
    requires Inv(inputs, s) && CanFinish(inputs, s.ledger, t)
    ensures s.ledger.progress[t].offset + |s.locals[t]| <= |s.overflow|
    ensures Abstract(CopyBack(inputs, s, t)) == Abstract(s).(ledger := Finish(inputs, s.ledger, t))
  {
    assert Buffered(inputs, s, t) && InBounds(inputs, s.ledger, t) && OwnsRange(inputs, s.ledger, t);
    var s' := CopyBack(inputs, s, t);
    forall j | 0 <= j < |s'.overflow| ensures Link(s', j) == Link(s, j) {
      CopyBackLink(inputs, s, t, j);
    }
    assert Overlay(s') == Overlay(s);
  }

  lemma CopyBackLink(inputs: Inputs, s: State, t: nat, j: nat)
    requires Inv(inputs, s) && CanFinish(inputs, s.ledger, t) && j < |s.overflow|
    requires s.ledger.progress[t].offset + |s.locals[t]| <= |s.overflow|
    ensures Link(CopyBack(inputs, s, t), j) == Link(s, j)
  {
    assert Buffered(inputs, s, t) && InBounds(inputs, s.ledger, t) && OwnsRange(inputs, s.ledger, t);
    var p := s.ledger.progress[t];
    if j > 0 {
      var e := s.ledger.homes[j - 1];
      if Private(s, e) && e.thread == t {
        PrivateIndex(inputs, s, t, j);
      }
      if p.offset <= j < p.offset + |s.locals[t]| {
        assert HomeIs(s.ledger.homes, p.offset - 1 + (j - p.offset), Element(t, p.done, j - p.offset));
      }
    }
  }

  /** An element whose link is private has the index that its batch gave it. */
  lemma PrivateIndex(inputs: Inputs, s: State, t: nat, j: nat)
    requires Inv(inputs, s) && t < |inputs| && 0 < j < |s.overflow|
    requires Private(s, s.ledger.homes[j - 1]) && s.ledger.homes[j - 1].thread == t
    ensures j == s.ledger.progress[t].offset + s.ledger.homes[j - 1].item
  {
    var p, e := s.ledger.progress[t], s.ledger.homes[j - 1];
    assert Buffered(inputs, s, t) && InBounds(inputs, s.ledger, t) && OwnsRange(inputs, s.ledger, t);
    assert HomeIs(s.ledger.homes, p.offset - 1 + e.item, Element(t, p.done, e.item));
  }

  /** Once no batch is running the shared vector alone holds every link. */
  lemma NothingPrivate(inputs: Inputs, s: State)
    requires Inv(inputs, s) && forall t :: 0 <= t < |inputs| ==> s.ledger.progress[t].Between?
    ensures Overlay(s) == s.overflow
  {
  }

  lemma ReleaseRefines(inputs: Inputs, s: State, t: nat)
    requires Inv(inputs, s) && t < |inputs| && s.handoff.stages[t].Building? && s.ledger.progress[t].Between?
    ensures s.handoff.owners > 0
    ensures Release(s.handoff, t, Lookup(s.table, s.overflow)) == Release(s.handoff, t, Lookup(s.table, Overlay(s)))
  {
    ReleaseKeeps(s.handoff, t, Lookup(s.table, s.overflow));
    if s.handoff.owners == 1 {
      forall u | 0 <= u < |inputs| ensures s.ledger.progress[u].Between? {
        assert Locked.Settled(inputs, Abstract(s), u);
      }
      NothingPrivate(inputs, s);
    }
  }

  /** Each step of this builder is the corresponding step of the locking builder under the overlay. */
  lemma StepRefines(inputs: Inputs, s: State, t: nat)
    requires Inv(inputs, s) && t < |inputs|
    ensures Inv(inputs, Step(inputs, s, t))
    ensures Abstract(Step(inputs, s, t)) == Locked.Step(inputs, Abstract(s), t)
  {
    assert InBounds(inputs, s.ledger, t) && Buffered(inputs, s, t);
    Locked.StepKeeps(inputs, Abstract(s), t);
    if !Enabled(s.handoff, t) {
    } else if s.handoff.stages[t].Waiting? {
      assert Overlay(s.(handoff := Receive(s.handoff, t))) == Overlay(s);
    } else if CanAllocate(inputs, s.ledger, t) {
      AllocateRefines(inputs, s, t);
    } else if CanPush(inputs, s.ledger, t) {
      InsertRefines(inputs, s, t);
    } else if CanFinish(inputs, s.ledger, t) {
      CopyBackRefines(inputs, s, t);
    } else {
      ReleaseRefines(inputs, s, t);
      assert Overlay(Step(inputs, s, t)) == Overlay(s);
    }
    forall u | 0 <= u < |inputs| ensures Buffered(inputs, Step(inputs, s, t), u) {
      assert Buffered(inputs, s, u);
    }
  }

  // ---------- Whole runs ----------

  /** The state reached by an arbitrary interleaving. */
  ghost function After(inputs: Inputs, schedule: seq<nat>): (s: State)
    requires Locked.IsSchedule(inputs, schedule)
    ensures Inv(inputs, s)
  {
    if |schedule| == 0 then
      InitialRefines(inputs);
      Initial(inputs)
    else
      var before := After(inputs, schedule[..|schedule| - 1]);
      StepRefines(inputs, before, schedule[|schedule| - 1]);
      Step(inputs, before, schedule[|schedule| - 1])
  }

  /** Under every interleaving the two builders stay in step, so they publish the same lookups. */
  lemma {:induction false} RunRefines(inputs: Inputs, schedule: seq<nat>)
    requires Locked.IsSchedule(inputs, schedule)
    ensures Abstract(After(inputs, schedule)) == Locked.After(inputs, schedule)
    ensures After(inputs, schedule).handoff == Locked.After(inputs, schedule).handoff
  {
    if |schedule| == 0 {
      InitialRefines(inputs);
    } else {
      var before := schedule[..|schedule| - 1];
      RunRefines(inputs, before);
      StepRefines(inputs, After(inputs, before), schedule[|schedule| - 1]);
    }
  }

  /**
   * At every moment the private buffers laid over the shared vector form valid chains: from the
   * head of h they visit exactly the indices pushed for h, newest first.
   */
  lemma OverlaidChains(inputs: Inputs, schedule: seq<nat>, h: Hash)
    requires Locked.IsSchedule(inputs, schedule)
    ensures var s := After(inputs, schedule);
      var chain := Listing(s.ledger.log, |s.ledger.log|, h);
      IsChain(Overlay(s), if h in s.table then s.table[h] else 0, chain) &&
      forall j: nat :: j < |s.ledger.homes| ==>
        (j + 1 in chain <==> Pushed(s.ledger.progress, s.ledger.homes[j]) && HashOf(inputs, s.ledger.homes[j]) == h)
  {
    RunRefines(inputs, schedule);
    Locked.ChainsAtEveryMoment(inputs, schedule, h);
  }

  /**
   * Once every batch was copied back the shared vector alone answers: every returned lookup reports
   * for each hash the positions of all input elements of that hash, each once.
   */
  lemma EveryLookupIsRight(inputs: Inputs, schedule: seq<nat>, t: nat, h: Hash, output: seq<nat>)
    requires Locked.IsSchedule(inputs, schedule) && t < |inputs|
    requires After(inputs, schedule).handoff.stages[t].Returned?
    ensures var s := After(inputs, schedule);
      var lookup := s.handoff.stages[t].lookup;
      lookup == Lookup(s.table, s.overflow) && lookup.Walkable(h) && Numbering(inputs, s.ledger.homes) &&
      (IsChain(lookup.overflow, lookup.Head(h), Indices(output)) ==> AnswersFor(inputs, s.ledger.homes, h, output))
  {
    var s := After(inputs, schedule);
    RunRefines(inputs, schedule);
    Locked.EveryLookupIsRight(inputs, schedule, t, h, output);
    SomeoneBuilds(s.handoff.stages, |inputs|);
    forall u | 0 <= u < |inputs| ensures s.ledger.progress[u].Between? {
      assert Locked.Settled(inputs, Abstract(s), u);
    }
    NothingPrivate(inputs, s);
  }

  // ---------- The shared state, updated in place ----------

  class DashMapBuilder {
    const inputs: Inputs
    var table: map<Hash, nat>
    var overflow: seq<nat>
    var locals: seq<seq<nat>>
    var progress: seq<Progress>
    var stages: seq<Stage>
    var owners: nat
    var sent: seq<Lookup>
    ghost var homes: seq<Element>
    ghost var log: seq<Push>

    ghost function Now(): State
      reads this
    {
      State(table, overflow, locals, Ledger(progress, homes, log), Handover(stages, owners, sent))
    }

    constructor (inputs: Inputs)
      ensures this.inputs == inputs && Now() == After(inputs, [])
    {
      this.inputs := inputs;
      table := map[];
      overflow := [0];
      locals := seq(|inputs|, t => []);
      progress := seq(|inputs|, t => Between(0));
      stages := seq(|inputs|, t => Building);
      owners := |inputs|;
      sent := [];
      homes := [];
      log := [];
    }

    /** Under the lock: reserve the indices of the next batch. */
    method AllocateNext(t: nat)
      requires CanAllocate(inputs, Now().ledger, t) && |locals| == |inputs|
      modifies this
      ensures Now() == AllocateBatch(inputs, old(Now()), t)
    {
      var b := progress[t].done;
      var local := Locked.Zeros(|inputs[t][b]|);
      var offset := |overflow|;
      overflow := overflow + local;
      locals := locals[t := local];
      progress := progress[t := Within(b, offset, 0)];
      homes := homes + Items(t, b, |inputs[t][b]|);
    }

    /** Without the lock: insert into the map, keep the replaced head in the private buffer. */
    method InsertNext(t: nat)
      requires CanPush(inputs, Now().ledger, t) && |locals| == |inputs| && progress[t].index < |locals[t]|
      modifies this
      ensures Now() == Insert(inputs, old(Now()), t)
    {
      var p := progress[t];
      var hash, at := inputs[t][p.done][p.index], p.offset + p.index;
      if hash in table {
        locals := locals[t := locals[t][p.index := table[hash]]];
      }
      table := table[hash := at];
      progress := progress[t := p.(index := p.index + 1)];
      log := log + [Push(at, hash)];
      assert locals == old(locals)[t := locals[t]];
    }

    /** Under the lock: copy the private buffer to its range. */
    method CopyLocal(t: nat)
      requires CanFinish(inputs, Now().ledger, t) && |locals| == |inputs|
      requires progress[t].offset + |locals[t]| <= |overflow|
      modifies this
      ensures Now() == CopyBack(inputs, old(Now()), t)
    {
      overflow := Overwrite(overflow, progress[t].offset, locals[t]);
      locals := locals[t := []];
      progress := progress[t := Between(progress[t].done + 1)];
    }

    /** Thread t takes its next step. */
    method Advance(t: nat)
      requires Inv(inputs, Now()) && t < |inputs|
      modifies this
      ensures Inv(inputs, old(Now())) && Now() == Step(inputs, old(Now()), t)
    {
      ghost var was := Now();
      assert InBounds(inputs, was.ledger, t) && Buffered(inputs, was, t) && Locked.Settled(inputs, Abstract(was), t);
      if stages[t].Returned? || (stages[t].Waiting? && |sent| == 0) {
        return;
      }
      var p := progress[t];
      if stages[t].Waiting? {
        stages := stages[t := Returned(sent[0])];
      } else if p.Between? && p.done < |inputs[t]| {
        AllocateNext(t);
      } else if p.Within? && p.index < |inputs[t][p.done]| {
        InsertNext(t);
      } else if p.Within? {
        CopyLocal(t);
      } else {
        ReleaseKeeps(was.handoff, t, Lookup(table, overflow));
        stages, owners, sent := ReleaseReference(stages, owners, sent, t, Lookup(table, overflow));
      }
    }

    /** The threads run under the given interleaving. */
    method Run(schedule: seq<nat>)
      requires Locked.IsSchedule(inputs, schedule) && Now() == After(inputs, [])
      modifies this
      ensures Now() == After(inputs, schedule)
    {
      for i := 0 to |schedule|
        invariant Now() == After(inputs, schedule[..i])
      {
        assert schedule[..i + 1][..i] == schedule[..i];
        Advance(schedule[i]);
      }
      assert schedule[..|schedule|] == schedule;
    }
  }
}
