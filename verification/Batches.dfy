/**
 * What the threads of a concurrent build share whatever the builder: which element of the input
 * owns which index, which elements have been pushed, and the push log that records their order.
 *
 * Indices start at one; index `p + 1` belongs to the element `homes[p]`.
 */
module Batches {
  import opened Group
  import opened ChainLog

  type Inputs = seq<seq<seq<Hash>>>

  datatype Element = Element(thread: nat, batch: nat, item: nat)

  /** A thread is between two batches, or within one whose indices start at `offset`. */
  datatype Progress = Between(done: nat) | Within(done: nat, offset: nat, index: nat)

  datatype Ledger = Ledger(progress: seq<Progress>, homes: seq<Element>, log: seq<Push>)

  predicate InInput(inputs: Inputs, e: Element) {
    e.thread < |inputs| && e.batch < |inputs[e.thread]| && e.item < |inputs[e.thread][e.batch]|
  }

  function HashOf(inputs: Inputs, e: Element): Hash
    requires InInput(inputs, e)
  {
    inputs[e.thread][e.batch][e.item]
  }

  predicate Allocated(progress: seq<Progress>, e: Element)
    requires e.thread < |progress|
  {
    e.batch < progress[e.thread].done || (e.batch == progress[e.thread].done && progress[e.thread].Within?)
  }

  predicate Pushed(progress: seq<Progress>, e: Element)
    requires e.thread < |progress|
  {
    var p := progress[e.thread];
    e.batch < p.done || (e.batch == p.done && p.Within? && e.item < p.index)
  }

  // ---------- The invariant ----------

  predicate InBounds(inputs: Inputs, l: Ledger, t: nat)
    requires t < |inputs| == |l.progress|
  {
    var p := l.progress[t];
    p.done <= |inputs[t]| &&
    (p.Within? ==>
       p.done < |inputs[t]| && p.index <= |inputs[t][p.done]| &&
       1 <= p.offset && p.offset - 1 + |inputs[t][p.done]| <= |l.homes|)
  }

  /** The indices of a running batch belong to its items, in order. */
  predicate OwnsRange(inputs: Inputs, l: Ledger, t: nat)
    requires t < |inputs| == |l.progress| && InBounds(inputs, l, t)
  {
    var p := l.progress[t];
    p.Within? ==> forall x :: 0 <= x < |inputs[t][p.done]| ==> HomeIs(l.homes, p.offset - 1 + x, Element(t, p.done, x))
  }

  predicate HomeIs(homes: seq<Element>, at: nat, e: Element) {
    at < |homes| && homes[at] == e
  }

  /** Every index handed out has one owner, and every element of an allocated batch one index. */
  ghost predicate Homed(inputs: Inputs, l: Ledger)
    requires |inputs| == |l.progress|
  {
    (forall j :: 0 <= j < |l.homes| ==> InInput(inputs, l.homes[j]) && Allocated(l.progress, l.homes[j])) &&
    (forall e :: InInput(inputs, e) && Allocated(l.progress, e) ==> e in l.homes) &&
    (forall j, k :: 0 <= j < k < |l.homes| ==> l.homes[j] != l.homes[k])
  }

  predicate LogEntry(inputs: Inputs, l: Ledger, k: nat)
    requires |inputs| == |l.progress| && k < |l.log|
  {
    var p := l.log[k];
    1 <= p.at <= |l.homes| && InInput(inputs, l.homes[p.at - 1]) &&
    p.hash == HashOf(inputs, l.homes[p.at - 1]) && Pushed(l.progress, l.homes[p.at - 1])
  }

  /** The log holds exactly the pushed elements, each with its own index and hash. */
  ghost predicate LogExact(inputs: Inputs, l: Ledger)
    requires |inputs| == |l.progress|
  {
    (forall k :: 0 <= k < |l.log| ==> LogEntry(inputs, l, k)) &&
    (forall j :: 0 <= j < |l.homes| ==> AccountedFor(l, j))
  }

  predicate AccountedFor(l: Ledger, j: nat)
    requires j < |l.homes|
  {
    l.homes[j].thread < |l.progress| && (Pushed(l.progress, l.homes[j]) ==> Logged(l.log, j + 1))
  }

  ghost predicate LedgerInv(inputs: Inputs, l: Ledger) {
    |inputs| == |l.progress| &&
    (forall t :: 0 <= t < |inputs| ==> InBounds(inputs, l, t) && OwnsRange(inputs, l, t)) &&
    Homed(inputs, l) && LogExact(inputs, l) && Distinct(l.log)
  }

  // ---------- The steps ----------

  function Start(inputs: Inputs): Ledger {
    Ledger(seq(|inputs|, t => Between(0)), [], [])
  }

  function Items(t: nat, b: nat, n: nat): (items: seq<Element>)
    ensures |items| == n && forall x :: 0 <= x < n ==> items[x] == Element(t, b, x)
  {
    seq(n, x requires 0 <= x < n => Element(t, b, x))
  }

  predicate CanAllocate(inputs: Inputs, l: Ledger, t: nat) {
    t < |inputs| == |l.progress| && l.progress[t].Between? && l.progress[t].done < |inputs[t]|
  }

  /** The next batch of t receives the indices from `offset` on. */
  function Allocate(inputs: Inputs, l: Ledger, t: nat, offset: nat): Ledger
    requires CanAllocate(inputs, l, t)
  {
    var b := l.progress[t].done;
    l.(progress := l.progress[t := Within(b, offset, 0)], homes := l.homes + Items(t, b, |inputs[t][b]|))
  }

  predicate CanPush(inputs: Inputs, l: Ledger, t: nat) {
    t < |inputs| == |l.progress| && l.progress[t].Within? && l.progress[t].done < |inputs[t]| &&
    l.progress[t].index < |inputs[t][l.progress[t].done]|
  }

  /** The next push of thread t. */
  function NextPush(inputs: Inputs, l: Ledger, t: nat): Push
    requires CanPush(inputs, l, t)
  {
    var p := l.progress[t];
    Push(p.offset + p.index, inputs[t][p.done][p.index])
  }

  function PushNext(inputs: Inputs, l: Ledger, t: nat): Ledger
    requires CanPush(inputs, l, t)
  {
    var p := l.progress[t];
    l.(progress := l.progress[t := p.(index := p.index + 1)], log := l.log + [NextPush(inputs, l, t)])
  }

  predicate CanFinish(inputs: Inputs, l: Ledger, t: nat) {
    t < |inputs| == |l.progress| && l.progress[t].Within? && l.progress[t].done < |inputs[t]| &&
    l.progress[t].index == |inputs[t][l.progress[t].done]|
  }

  function Finish(inputs: Inputs, l: Ledger, t: nat): Ledger
    requires CanFinish(inputs, l, t)
  {
    l.(progress := l.progress[t := Between(l.progress[t].done + 1)])
  }

  // ---------- Every step keeps the invariant ----------

  lemma StartHolds(inputs: Inputs)
    ensures LedgerInv(inputs, Start(inputs))
  {
  }

  lemma AllocateKeeps(inputs: Inputs, l: Ledger, t: nat)
    requires LedgerInv(inputs, l) && CanAllocate(inputs, l, t)
    ensures LedgerInv(inputs, Allocate(inputs, l, t, |l.homes| + 1))
  {
    var l' := Allocate(inputs, l, t, |l.homes| + 1);
    forall u | 0 <= u < |inputs| ensures InBounds(inputs, l', u) && OwnsRange(inputs, l', u) {
      AllocateRange(inputs, l, t, u);
    }
    AllocateHomes(inputs, l, t);
    forall k | 0 <= k < |l'.log| ensures LogEntry(inputs, l', k) {
      assert LogEntry(inputs, l, k);
    }
    forall j | 0 <= j < |l'.homes| ensures AccountedFor(l', j) {
      assert j < |l.homes| ==> AccountedFor(l, j);
    }
  }

  lemma AllocateRange(inputs: Inputs, l: Ledger, t: nat, u: nat)
    requires LedgerInv(inputs, l) && CanAllocate(inputs, l, t) && u < |inputs|
    ensures InBounds(inputs, Allocate(inputs, l, t, |l.homes| + 1), u)
    ensures OwnsRange(inputs, Allocate(inputs, l, t, |l.homes| + 1), u)
  {
    assert InBounds(inputs, l, u) && OwnsRange(inputs, l, u);
    if u != t {
      RangeStays(inputs, l, Allocate(inputs, l, t, |l.homes| + 1), u);
    }
  }

  /** More homes at the end leave the range of a thread that did not move in place. */
  lemma RangeStays(inputs: Inputs, l: Ledger, l': Ledger, u: nat)
    requires u < |inputs| == |l.progress| == |l'.progress| && l'.progress[u] == l.progress[u]
    requires InBounds(inputs, l, u) && OwnsRange(inputs, l, u) && l.homes <= l'.homes
    ensures InBounds(inputs, l', u) && OwnsRange(inputs, l', u)
  {
    var p := l.progress[u];
    if p.Within? {
      forall x | 0 <= x < |inputs[u][p.done]| ensures HomeIs(l'.homes, p.offset - 1 + x, Element(u, p.done, x)) {
        assert HomeIs(l.homes, p.offset - 1 + x, Element(u, p.done, x));
      }
    }
  }

  lemma AllocateHomes(inputs: Inputs, l: Ledger, t: nat)
    requires LedgerInv(inputs, l) && CanAllocate(inputs, l, t)
    ensures Homed(inputs, Allocate(inputs, l, t, |l.homes| + 1))
  {
    var l' := Allocate(inputs, l, t, |l.homes| + 1);
    var b := l.progress[t].done;
    forall e | InInput(inputs, e) && Allocated(l'.progress, e) ensures e in l'.homes {
      if e.thread == t && e.batch == b {
        assert l'.homes[|l.homes| + e.item] == e;
      }
    }
  }

  /** The index of the next push was handed to that very element, and nobody pushed it before. */
  lemma NextIsFresh(inputs: Inputs, l: Ledger, t: nat)
    requires LedgerInv(inputs, l) && CanPush(inputs, l, t)
    ensures 1 <= NextPush(inputs, l, t).at <= |l.homes|
    ensures l.homes[NextPush(inputs, l, t).at - 1] == Element(t, l.progress[t].done, l.progress[t].index)
    ensures !Logged(l.log, NextPush(inputs, l, t).at)
  {
    var p := l.progress[t];
    assert InBounds(inputs, l, t) && OwnsRange(inputs, l, t);
    assert HomeIs(l.homes, p.offset - 1 + p.index, Element(t, p.done, p.index));
    forall k | 0 <= k < |l.log| ensures l.log[k].at != p.offset + p.index {
      assert LogEntry(inputs, l, k);
    }
  }

  lemma PushNextKeeps(inputs: Inputs, l: Ledger, t: nat)
    requires LedgerInv(inputs, l) && CanPush(inputs, l, t)
    ensures LedgerInv(inputs, PushNext(inputs, l, t))
  {
    var l' := PushNext(inputs, l, t);
    PushRanges(inputs, l, t);
    forall k | 0 <= k < |l'.log| ensures LogEntry(inputs, l', k) {
      PushLogs(inputs, l, t, k);
    }
    forall j | 0 <= j < |l'.homes| ensures AccountedFor(l', j) {
      PushAccounts(inputs, l, t, j);
    }
    PushDistinct(inputs, l, t);
  }

  lemma PushRanges(inputs: Inputs, l: Ledger, t: nat)
    requires LedgerInv(inputs, l) && CanPush(inputs, l, t)
    ensures forall u :: 0 <= u < |inputs| ==>
      InBounds(inputs, PushNext(inputs, l, t), u) && OwnsRange(inputs, PushNext(inputs, l, t), u)
    ensures Homed(inputs, PushNext(inputs, l, t))
  {
    forall u | 0 <= u < |inputs|
      ensures InBounds(inputs, PushNext(inputs, l, t), u) && OwnsRange(inputs, PushNext(inputs, l, t), u)
    {
      assert InBounds(inputs, l, u) && OwnsRange(inputs, l, u);
    }
  }

  lemma PushDistinct(inputs: Inputs, l: Ledger, t: nat)
    requires LedgerInv(inputs, l) && CanPush(inputs, l, t)
    ensures Distinct(PushNext(inputs, l, t).log)
  {
    NextIsFresh(inputs, l, t);
  }

  lemma PushLogs(inputs: Inputs, l: Ledger, t: nat, k: nat)
    requires LedgerInv(inputs, l) && CanPush(inputs, l, t) && k <= |l.log|
    ensures LogEntry(inputs, PushNext(inputs, l, t), k)
  {
    NextIsFresh(inputs, l, t);
    assert k < |l.log| ==> LogEntry(inputs, l, k);
  }

  lemma PushAccounts(inputs: Inputs, l: Ledger, t: nat, j: nat)
    requires LedgerInv(inputs, l) && CanPush(inputs, l, t) && j < |l.homes|
    ensures AccountedFor(PushNext(inputs, l, t), j)
  {
    var l' := PushNext(inputs, l, t);
    var p, next := l.progress[t], NextPush(inputs, l, t);
    NextIsFresh(inputs, l, t);
    assert AccountedFor(l, j);
    if l.homes[j] == Element(t, p.done, p.index) {
      assert j == next.at - 1;
      assert l'.log[|l.log|].at == j + 1;
    } else if Pushed(l'.progress, l.homes[j]) {
      assert Pushed(l.progress, l.homes[j]);
      var k :| 0 <= k < |l.log| && l.log[k].at == j + 1;
      assert l'.log[k].at == j + 1;
    }
  }

  lemma FinishKeeps(inputs: Inputs, l: Ledger, t: nat)
    requires LedgerInv(inputs, l) && CanFinish(inputs, l, t)
    ensures LedgerInv(inputs, Finish(inputs, l, t))
  {
    var l' := Finish(inputs, l, t);
    forall u | 0 <= u < |inputs| ensures InBounds(inputs, l', u) && OwnsRange(inputs, l', u) {
      assert InBounds(inputs, l, u) && OwnsRange(inputs, l, u);
    }
    forall k | 0 <= k < |l'.log| ensures LogEntry(inputs, l', k) {
      assert LogEntry(inputs, l, k);
    }
    forall j | 0 <= j < |l'.homes| ensures AccountedFor(l', j) {
      assert AccountedFor(l, j);
    }
  }

  // ---------- Disjoint ranges ----------

  /** Two threads that are within a batch never hold a common index. */
  lemma RangesDisjoint(inputs: Inputs, l: Ledger, t: nat, u: nat, x: nat, y: nat)
    requires LedgerInv(inputs, l) && t < |inputs| && u < |inputs| && t != u
    requires l.progress[t].Within? && l.progress[u].Within?
    requires InBounds(inputs, l, t) && x < |inputs[t][l.progress[t].done]|
    requires InBounds(inputs, l, u) && y < |inputs[u][l.progress[u].done]|
    ensures l.progress[t].offset + x != l.progress[u].offset + y
  {
    var p, q := l.progress[t], l.progress[u];
    assert OwnsRange(inputs, l, t) && OwnsRange(inputs, l, u);
    assert HomeIs(l.homes, p.offset - 1 + x, Element(t, p.done, x));
    assert HomeIs(l.homes, q.offset - 1 + y, Element(u, q.done, y));
  }

  // ---------- Once every thread has pushed everything ----------

  ghost predicate AllDone(inputs: Inputs, l: Ledger)
    requires |inputs| == |l.progress|
  {
    forall t :: 0 <= t < |inputs| ==> l.progress[t] == Between(|inputs[t]|)
  }

  /** `homes` numbers the whole input: every element has one position and every position one element. */
  ghost predicate Numbering(inputs: Inputs, homes: seq<Element>) {
    (forall p :: 0 <= p < |homes| ==> InInput(inputs, homes[p])) &&
    (forall e :: InInput(inputs, e) ==> e in homes) &&
    (forall p, q :: 0 <= p < q < |homes| ==> homes[p] != homes[q])
  }

  /** The positions reported for h are those of the elements with hash h, without repetition. */
  ghost predicate AnswersFor(inputs: Inputs, homes: seq<Element>, h: Hash, output: seq<nat>)
    requires forall p :: 0 <= p < |homes| ==> InInput(inputs, homes[p])
  {
    (forall p: nat :: p in output <==> p < |homes| && HashOf(inputs, homes[p]) == h) &&
    (forall i, j :: 0 <= i < j < |output| ==> output[i] != output[j])
  }

  lemma DoneNumbers(inputs: Inputs, l: Ledger)
    requires LedgerInv(inputs, l) && AllDone(inputs, l)
    ensures Numbering(inputs, l.homes)
  {
    forall e | InInput(inputs, e) ensures e in l.homes {
      assert Allocated(l.progress, e);
    }
  }

  /** At any time the chain of h holds the pushed elements of hash h and nothing else. */
  lemma ListedIsPushed(inputs: Inputs, l: Ledger, h: Hash, p: nat)
    requires LedgerInv(inputs, l) && p < |l.homes|
    ensures InInput(inputs, l.homes[p])
    ensures p + 1 in Listing(l.log, |l.log|, h) <==> Pushed(l.progress, l.homes[p]) && HashOf(inputs, l.homes[p]) == h
  {
    ListedExactly(l.log, |l.log|, h, p + 1);
    if k :| 0 <= k < |l.log| && l.log[k] == Push(p + 1, h) {
      assert LogEntry(inputs, l, k);
    }
    if Pushed(l.progress, l.homes[p]) && HashOf(inputs, l.homes[p]) == h {
      assert AccountedFor(l, p);
      var k :| 0 <= k < |l.log| && l.log[k].at == p + 1;
      assert LogEntry(inputs, l, k);
    }
  }

  lemma ListedIsNumbered(inputs: Inputs, l: Ledger, h: Hash, p: nat)
    requires LedgerInv(inputs, l) && AllDone(inputs, l)
    ensures p + 1 in Listing(l.log, |l.log|, h) <==> p < |l.homes| && HashOf(inputs, l.homes[p]) == h
  {
    if p < |l.homes| {
      ListedIsPushed(inputs, l, h, p);
    } else {
      ListedExactly(l.log, |l.log|, h, p + 1);
      forall k | 0 <= k < |l.log| ensures l.log[k].at <= |l.homes| {
        assert LogEntry(inputs, l, k);
      }
    }
  }

  lemma InIndices(output: seq<nat>, p: nat)
    ensures p in output <==> p + 1 in Indices(output)
  {
    if i :| 0 <= i < |output| && output[i] == p {
      assert Indices(output)[i] == p + 1;
    }
  }

  /** A complete log lists, for each hash, exactly the elements with that hash. */
  lemma DoneAnswers(inputs: Inputs, l: Ledger, h: Hash, output: seq<nat>)
    requires LedgerInv(inputs, l) && AllDone(inputs, l)
    requires Indices(output) == Listing(l.log, |l.log|, h)
    ensures Numbering(inputs, l.homes) && AnswersFor(inputs, l.homes, h, output)
  {
    forall p: nat ensures p in output <==> p < |l.homes| && HashOf(inputs, l.homes[p]) == h {
      InIndices(output, p);
      ListedIsNumbered(inputs, l, h, p);
    }
    forall i, j | 0 <= i < j < |output| ensures output[i] != output[j] {
      ListedOnce(l.log, |l.log|, h, i, j);
    }
  }
}
