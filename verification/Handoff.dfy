/**
 * How the threads of a concurrent build end: each drops its reference to the shared state, the one
 * that drops the last reference freezes the state and broadcasts it, the others wait for it.
 * Also the progress measure of a whole build.
 */
module Handoff {
  import opened Group
  import opened ChainLog
  import opened Batches

  datatype Stage = Building | Waiting | Returned(lookup: Lookup)

  /** `owners` is the reference count of the shared state, `sent` every message broadcast so far. */
  datatype Handover = Handover(stages: seq<Stage>, owners: nat, sent: seq<Lookup>)

  function CountBuilding(stages: seq<Stage>, k: nat): nat
    requires k <= |stages|
  {
    if k == 0 then 0 else CountBuilding(stages, k - 1) + if stages[k - 1].Building? then 1 else 0
  }

  ghost predicate HandoffInv(h: Handover) {
    h.owners == CountBuilding(h.stages, |h.stages|) &&
    |h.sent| == (if h.owners == 0 && |h.stages| > 0 then 1 else 0) &&
    forall t :: 0 <= t < |h.stages| && h.stages[t].Returned? ==> |h.sent| == 1 && h.stages[t].lookup == h.sent[0]
  }

  function Begin(threads: nat): Handover {
    Handover(seq(threads, t => Building), threads, [])
  }

  /** Drop the reference of thread t; the thread that drops the last one publishes. */
  function Release(h: Handover, t: nat, lookup: Lookup): Handover
    requires t < |h.stages| && h.owners > 0
  {
    if h.owners == 1 then Handover(h.stages[t := Returned(lookup)], 0, h.sent + [lookup])
    else Handover(h.stages[t := Waiting], h.owners - 1, h.sent)
  }

  /** The same on the fields of a builder. */
  method ReleaseReference(stages: seq<Stage>, owners: nat, sent: seq<Lookup>, t: nat, lookup: Lookup)
    returns (stages': seq<Stage>, owners': nat, sent': seq<Lookup>)
    requires t < |stages| && owners > 0
    ensures Handover(stages', owners', sent') == Release(Handover(stages, owners, sent), t, lookup)
  {
    owners' := owners - 1;
    if owners' == 0 {
      sent' := sent + [lookup];
      stages' := stages[t := Returned(lookup)];
    } else {
      sent' := sent;
      stages' := stages[t := Waiting];
    }
  }

  function Receive(h: Handover, t: nat): Handover
    requires t < |h.stages| && |h.sent| > 0
  {
    h.(stages := h.stages[t := Returned(h.sent[0])])
  }

  // ---------- The last thread, and only the last, publishes ----------

  lemma {:induction false} CountUpdate(stages: seq<Stage>, t: nat, s: Stage, k: nat)
    requires t < |stages| && k <= |stages| && !s.Building?
    ensures CountBuilding(stages[t := s], k) ==
      CountBuilding(stages, k) - if t < k && stages[t].Building? then 1 else 0
  {
    if k > 0 {
      CountUpdate(stages, t, s, k - 1);
    }
  }

  lemma {:induction false} SomeoneBuilds(stages: seq<Stage>, k: nat)
    requires k <= |stages|
    ensures CountBuilding(stages, k) > 0 <==> exists t :: 0 <= t < k && stages[t].Building?
  {
    if k > 0 {
      SomeoneBuilds(stages, k - 1);
    }
  }

  lemma {:induction false} EveryoneBuilds(stages: seq<Stage>, k: nat)
    requires k <= |stages| && forall t :: 0 <= t < |stages| ==> stages[t].Building?
    ensures CountBuilding(stages, k) == k
  {
    if k > 0 {
      EveryoneBuilds(stages, k - 1);
    }
  }

  lemma BeginHolds(threads: nat)
    ensures HandoffInv(Begin(threads))
  {
    EveryoneBuilds(Begin(threads).stages, threads);
  }

  /** A release never finds the broadcast already used, and publishes iff nobody else is still building. */
  lemma ReleaseKeeps(h: Handover, t: nat, lookup: Lookup)
    requires HandoffInv(h) && t < |h.stages| && h.stages[t].Building?
    ensures h.owners > 0 && h.sent == [] && HandoffInv(Release(h, t, lookup))
    ensures Release(h, t, lookup).sent == [lookup] <==>
      forall u :: 0 <= u < |h.stages| && u != t ==> !h.stages[u].Building?
  {
    var n := |h.stages|;
    SomeoneBuilds(h.stages, n);
    CountUpdate(h.stages, t, Waiting, n);
    CountUpdate(h.stages, t, Returned(lookup), n);
    var others := h.stages[t := Waiting];
    SomeoneBuilds(others, n);
    if u :| 0 <= u < n && u != t && h.stages[u].Building? {
      assert others[u].Building?;
    }
  }

  lemma ReceiveKeeps(h: Handover, t: nat)
    requires HandoffInv(h) && t < |h.stages| && h.stages[t].Waiting? && |h.sent| > 0
    ensures HandoffInv(Receive(h, t))
  {
    CountUpdate(h.stages, t, Returned(h.sent[0]), |h.stages|);
  }

  // ---------- Deadlock freedom and termination ----------

  predicate Enabled(h: Handover, t: nat)
    requires t < |h.stages|
  {
    h.stages[t].Building? || (h.stages[t].Waiting? && |h.sent| > 0)
  }

  /** As long as one thread has not returned, some thread can take a step. */
  lemma NoDeadlock(h: Handover)
    requires HandoffInv(h)
    ensures (forall t :: 0 <= t < |h.stages| ==> h.stages[t].Returned?) <==>
      forall t :: 0 <= t < |h.stages| ==> !Enabled(h, t)
  {
    SomeoneBuilds(h.stages, |h.stages|);
    if t :| 0 <= t < |h.stages| && !h.stages[t].Returned? {
      if h.owners > 0 {
        var u :| 0 <= u < |h.stages| && h.stages[u].Building?;
        assert Enabled(h, u);
      } else {
        assert Enabled(h, t);
      }
    }
  }

  /** Steps needed for the batches from b on: one allocation, one push per item, one end for each. */
  function BatchWork(batches: seq<seq<Hash>>, b: nat): nat
    decreases |batches| - b
  {
    if b >= |batches| then 0 else |batches[b]| + 2 + BatchWork(batches, b + 1)
  }

  function Todo(batches: seq<seq<Hash>>, p: Progress, stage: Stage): nat
    requires p.Within? ==> p.done < |batches| && p.index <= |batches[p.done]|
  {
    match stage
    case Returned(_) => 0
    case Waiting => 1
    case Building =>
      2 + if p.Between? then BatchWork(batches, p.done)
          else |batches[p.done]| - p.index + 1 + BatchWork(batches, p.done + 1)
  }

  ghost predicate Sane(inputs: Inputs, l: Ledger, h: Handover) {
    |inputs| == |l.progress| == |h.stages| && forall t :: 0 <= t < |inputs| ==> InBounds(inputs, l, t)
  }

  ghost function Work(inputs: Inputs, l: Ledger, h: Handover, k: nat): nat
    requires Sane(inputs, l, h) && k <= |inputs|
  {
    if k == 0 then 0
    else
      assert InBounds(inputs, l, k - 1);
      Work(inputs, l, h, k - 1) + Todo(inputs[k - 1], l.progress[k - 1], h.stages[k - 1])
  }

  /** A step of one thread that lessens its own work lessens the work of the whole build. */
  lemma {:induction false} WorkFalls(inputs: Inputs, l: Ledger, h: Handover, l': Ledger, h': Handover, t: nat, k: nat)
    requires Sane(inputs, l, h) && Sane(inputs, l', h') && t < |inputs| && k <= |inputs|
    requires forall u :: 0 <= u < |inputs| && u != t ==> l'.progress[u] == l.progress[u] && h'.stages[u] == h.stages[u]
    requires InBounds(inputs, l, t) && InBounds(inputs, l', t)
    requires Todo(inputs[t], l'.progress[t], h'.stages[t]) < Todo(inputs[t], l.progress[t], h.stages[t])
    ensures t < k ==> Work(inputs, l', h', k) < Work(inputs, l, h, k)
    ensures k <= t ==> Work(inputs, l', h', k) == Work(inputs, l, h, k)
  {
    if k > 0 {
      WorkFalls(inputs, l, h, l', h', t, k - 1);
    }
  }

  /** No thread has anything left to do exactly when all have returned. */
  lemma {:induction false} NoWorkLeft(inputs: Inputs, l: Ledger, h: Handover, k: nat)
    requires Sane(inputs, l, h) && k <= |inputs|
    ensures Work(inputs, l, h, k) == 0 <==> forall t :: 0 <= t < k ==> h.stages[t].Returned?
  {
    if k > 0 {
      NoWorkLeft(inputs, l, h, k - 1);
      var t := k - 1;
      assert InBounds(inputs, l, t);
      assert Todo(inputs[t], l.progress[t], h.stages[t]) == 0 <==> h.stages[t].Returned?;
    }
  }
}
