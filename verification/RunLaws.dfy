/** What the answers of a run say about each other, whatever the map at the start. */
module RunLaws {
  import opened MapRun
  import opened Wrappers

  /** The operation may change the entry of k. */
  ghost predicate Touches<K, V>(op: Op<K, V>, k: K) {
    || op.Retain? || op.Clear?
    || ((op.Insert? || op.Remove? || op.EntryOrInsert? || op.ReplaceEntry?) && op.k == k)
  }

  /** None of the operations i to j - 1 may change the entry of k. */
  ghost predicate Quiet<K, V>(ops: seq<Op<K, V>>, i: nat, j: nat, k: K) {
    forall h :: i <= h < j && h < |ops| ==> !Touches(ops[h], k)
  }

  /** The map before operation i of a run. */
  ghost function MapAt<K, V>(m: map<K, V>, ops: seq<Op<K, V>>, i: nat): map<K, V>
    requires i <= |ops|
  {
    SpecRun(m, ops[..i]).0
  }

  /** The first replies of a run are those of a shorter run. */
  lemma {:induction false} RunPrefix<K, V>(m: map<K, V>, ops: seq<Op<K, V>>, i: nat)
    requires i <= |ops|
    ensures |SpecRun(m, ops).1| == |ops| && SpecRun(m, ops).1[..i] == SpecRun(m, ops[..i]).1
    decreases |ops|
  {
    if ops != [] {
      var before := ops[..|ops| - 1];
      RunPrefix(m, before, if i < |ops| then i else i - 1);
      if i < |ops| {
        assert ops[..i] == before[..i];
        assert SpecRun(m, ops).1[..i] == SpecRun(m, before).1[..i];
      } else {
        assert ops[..i] == ops;
      }
    }
  }

  /** Operation j is performed on the map before it. */
  lemma RunStep<K, V>(m: map<K, V>, ops: seq<Op<K, V>>, j: nat)
    requires j < |ops|
    ensures |SpecRun(m, ops).1| == |ops|
    ensures (MapAt(m, ops, j + 1), SpecRun(m, ops).1[j]) == Spec(MapAt(m, ops, j), ops[j])
  {
    RunPrefix(m, ops, j + 1);
    var upTo := ops[..j + 1];
    RunPrefix(m, upTo, j);
    assert upTo[..j] == ops[..j];
    assert SpecRun(m, ops).1[j] == SpecRun(m, ops).1[..j + 1][j];
  }

  /** An entry changes only by an operation on its key, or on all of them. */
  lemma {:induction false} QuietKeeps<K, V>(m: map<K, V>, ops: seq<Op<K, V>>, i: nat, j: nat, k: K)
    requires i <= j <= |ops| && Quiet(ops, i, j, k)
    ensures k in MapAt(m, ops, j) <==> k in MapAt(m, ops, i)
    ensures k in MapAt(m, ops, j) ==> MapAt(m, ops, j)[k] == MapAt(m, ops, i)[k]
    decreases j
  {
    if i < j {
      QuietKeeps(m, ops, i, j - 1, k);
      RunStep(m, ops, j - 1);
      assert !Touches(ops[j - 1], k);
    }
  }

  /** The answer to Get(k), Insert(k, _), Remove(k) and EntryOrInsert(k, _) is the entry before it. */
  lemma AnswerIs<K, V>(m: map<K, V>, ops: seq<Op<K, V>>, j: nat)
    requires j < |ops| && (ops[j].Get? || ops[j].Insert? || ops[j].Remove? || ops[j].EntryOrInsert?)
    ensures var now, k := MapAt(m, ops, j), ops[j].k;
      |SpecRun(m, ops).1| == |ops| && SpecRun(m, ops).1[j] == Value(if k in now then Some(now[k]) else None)
  {
    RunStep(m, ops, j);
  }

  /**
   * Between a write to k and a question about it, nothing else touches k: the answer is what the write
   * has left. That is the value inserted; nothing after Remove or Clear; the value found or else the
   * one given after EntryOrInsert; what is left of the entry after ReplaceEntry; and after Retain the
   * new value if the entry was kept.
   */
  lemma LatestWrite<K, V>(m: map<K, V>, ops: seq<Op<K, V>>, i: nat, j: nat, k: K)
    requires i < j < |ops| && Quiet(ops, i + 1, j, k)
    requires (ops[j].Get? || ops[j].Insert? || ops[j].Remove? || ops[j].EntryOrInsert?) && ops[j].k == k
    ensures |SpecRun(m, ops).1| == |ops|
    ensures ops[i].Insert? && ops[i].k == k ==> SpecRun(m, ops).1[j] == Value(Some(ops[i].v))
    ensures (ops[i].Remove? && ops[i].k == k) || ops[i].Clear? ==> SpecRun(m, ops).1[j] == Value(None)
    ensures ops[i].EntryOrInsert? && ops[i].k == k ==>
      SpecRun(m, ops).1[j] ==
      if SpecRun(m, ops).1[i] == Value(None) then Value(Some(ops[i].v)) else SpecRun(m, ops).1[i]
    ensures ops[i].ReplaceEntry? && ops[i].k == k ==> SpecRun(m, ops).1[j] == SpecRun(m, ops).1[i]
    ensures ops[i].Retain? ==>
      var before := SpecRun(m, ops[..i]).0;
      SpecRun(m, ops).1[j] ==
      Value(if k in before && ops[i].judge(k, before[k]).0 then Some(ops[i].judge(k, before[k]).1) else None)
  {
    RunStep(m, ops, i);
    QuietKeeps(m, ops, i + 1, j, k);
    AnswerIs(m, ops, j);
  }

  /** Before the first write to k the answers come from the map at the start. */
  lemma NeverWritten<K, V>(m: map<K, V>, ops: seq<Op<K, V>>, j: nat, k: K)
    requires j < |ops| && Quiet(ops, 0, j, k)
    requires (ops[j].Get? || ops[j].Insert? || ops[j].Remove? || ops[j].EntryOrInsert?) && ops[j].k == k
    ensures |SpecRun(m, ops).1| == |ops| && SpecRun(m, ops).1[j] == Value(if k in m then Some(m[k]) else None)
  {
    QuietKeeps(m, ops, 0, j, k);
    AnswerIs(m, ops, j);
  }

  /** The map at the end holds what one more question would be answered with, and asking changes nothing. */
  lemma AskAtEnd<K, V>(m: map<K, V>, ops: seq<Op<K, V>>, k: K)
    ensures var (now, replies) := SpecRun(m, ops);
      SpecRun(m, ops + [Get(k)]) == (now, replies + [Value(if k in now then Some(now[k]) else None)])
  {
    assert (ops + [Get(k)])[..|ops|] == ops;
  }

  /** Len answers with the number of keys for which Get would find something. */
  lemma LenCounts<K, V>(m: map<K, V>, ops: seq<Op<K, V>>, j: nat)
    requires j < |ops| && ops[j].Len?
    ensures |SpecRun(m, ops).1| == |ops| && SpecRun(m, ops).1[j] == Size(|SpecRun(m, ops[..j]).0.Keys|)
  {
    RunStep(m, ops, j);
  }

  /** Nothing is left under k after Remove(k), and the other entries stay. */
  lemma RemovedAtEnd<K, V>(m: map<K, V>, ops: seq<Op<K, V>>, k: K)
    ensures k !in SpecRun(m, ops + [Remove(k)]).0
    ensures SpecRun(m, ops + [Remove(k)]).0.Keys == SpecRun(m, ops).0.Keys - {k}
    ensures forall j :: j in SpecRun(m, ops + [Remove(k)]).0 ==>
      SpecRun(m, ops + [Remove(k)]).0[j] == SpecRun(m, ops).0[j]
  {
    assert (ops + [Remove(k)])[..|ops|] == ops;
  }

  /** Operation i inserts a key the map does not hold. */
  ghost predicate Inserts<K, V>(m: map<K, V>, ops: seq<Op<K, V>>, i: nat) {
    i < |ops| && (ops[i].Insert? || ops[i].EntryOrInsert?) && ops[i].k !in SpecRun(m, ops[..i]).0
  }

  /** New keys are counted once for each position that inserts one. */
  lemma {:induction false} NewKeysCounted<K, V>(m: map<K, V>, ops: seq<Op<K, V>>)
    ensures NewKeys(m, ops) == |set i: nat | i < |ops| && Inserts(m, ops, i)|
    decreases |ops|
  {
    var all := set i: nat | i < |ops| && Inserts(m, ops, i);
    if ops == [] {
      assert all == {};
    } else {
      var last := |ops| - 1;
      var before := ops[..last];
      NewKeysCounted(m, before);
      var others := set i: nat | i < last && Inserts(m, before, i);
      forall i: nat
        ensures i in all <==> i in others || (i == last && AddsKey(SpecRun(m, before).0, ops[last]))
      {
        InsertsBefore(m, ops, i);
      }
      assert last !in others;
      if last in all {
        assert all == others + {last};
      } else {
        assert all == others;
      }
    }
  }

  lemma InsertsBefore<K, V>(m: map<K, V>, ops: seq<Op<K, V>>, i: nat)
    requires ops != []
    ensures i < |ops| - 1 ==> (Inserts(m, ops, i) <==> Inserts(m, ops[..|ops| - 1], i))
    ensures i == |ops| - 1 ==> (Inserts(m, ops, i) <==> AddsKey(SpecRun(m, ops[..|ops| - 1]).0, ops[|ops| - 1]))
  {
    if i < |ops| {
      assert ops[..|ops| - 1][..i] == ops[..i];
    }
  }
}
