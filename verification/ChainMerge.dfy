/**
 * Merging the local tables of all threads into one: where two threads have a chain for the same
 * hash, the end of the later thread's chain is linked to the head of what has been merged so far.
 */
module ChainMerge {
  import opened ChainLog
  import opened Group

  /** The head and the last index of the chain of one hash. */
  datatype LocalEntry = LocalEntry(hash: Hash, head: nat, end: nat)

  // ---------- Joining two chains

  ghost predicate Once(c: seq<nat>) {
    forall i, j :: 0 <= i < j < |c| ==> c[i] != c[j]
  }

  ghost predicate Apart(c: seq<nat>, d: seq<nat>) {
    forall i, j :: 0 <= i < |c| && 0 <= j < |d| ==> c[i] != d[j]
  }

  /** Linking the end of one chain to the head of another appends the second to the first. */
  lemma JoinChains(links: seq<nat>, c: seq<nat>, start: nat, d: seq<nat>, head: nat)
    requires c != [] && IsChain(links, start, c) && IsChain(links, head, d) && Once(c) && Apart(c, d)
    ensures c[|c| - 1] < |links| && IsChain(links[c[|c| - 1] := head], start, c + d)
  {
    var last := |c| - 1;
    assert LinkFollows(links, c, last);
    var links', cd := links[c[last] := head], c + d;
    forall i | 0 <= i < |cd|
      ensures LinkFollows(links', cd, i)
    {
      if i < |c| {
        assert LinkFollows(links, c, i);
      } else {
        assert LinkFollows(links, d, i - |c|);
        assert c[last] != d[i - |c|];
      }
    }
  }

  /** Chains that do not hold the changed index are as before. */
  lemma OtherChain(links: seq<nat>, c: seq<nat>, start: nat, at: nat, head: nat)
    requires IsChain(links, start, c) && at < |links| && at !in c
    ensures IsChain(links[at := head], start, c)
  {
    var links' := links[at := head];
    forall i | 0 <= i < |c|
      ensures LinkFollows(links', c, i)
    {
      assert LinkFollows(links, c, i);
    }
  }

  // ---------- The chains of all threads

  /** The chain of each hash in each thread's table. */
  type Chains = seq<map<Hash, seq<nat>>>

  function ChainOf(chains: Chains, k: nat, h: Hash): seq<nat>
    requires k < |chains|
  {
    if h in chains[k] then chains[k][h] else []
  }

  /** The chains of h in the first k tables, the latest table first. */
  function Joined(chains: Chains, k: nat, h: Hash): seq<nat>
    requires k <= |chains|
  {
    if k == 0 then [] else ChainOf(chains, k - 1, h) + Joined(chains, k - 1, h)
  }

  /** No index belongs to two chains, or twice to one. */
  ghost predicate Disjoint(chains: Chains) {
    (forall k, h :: Has(chains, k, h) ==> SoundChain(chains, k, h)) &&
    (forall k, h, j, g :: Has(chains, k, h) && Has(chains, j, g) ==> PairApart(chains, k, h, j, g))
  }

  predicate Has(chains: Chains, k: int, h: Hash) {
    0 <= k < |chains| && h in chains[k]
  }

  ghost predicate SoundChain(chains: Chains, k: int, h: Hash)
    requires Has(chains, k, h)
  {
    chains[k][h] != [] && Once(chains[k][h])
  }

  ghost predicate PairApart(chains: Chains, k: int, h: Hash, j: int, g: Hash)
    requires Has(chains, k, h) && Has(chains, j, g)
  {
    k != j || h != g ==> Apart(chains[k][h], chains[j][g])
  }

  /** The table lists each hash of the thread once, with the head and the end of its chain. */
  ghost predicate TableLists(table: seq<LocalEntry>, chains: map<Hash, seq<nat>>) {
    (forall i :: 0 <= i < |table| ==> EntryShows(table[i], chains)) &&
    (forall h :: h in chains ==> exists i :: 0 <= i < |table| && table[i].hash == h) &&
    (forall i, j :: 0 <= i < j < |table| ==> table[i].hash != table[j].hash)
  }

  predicate EntryShows(e: LocalEntry, chains: map<Hash, seq<nat>>) {
    e.hash in chains && chains[e.hash] != [] && e.head == chains[e.hash][0] &&
    e.end == chains[e.hash][|chains[e.hash]| - 1]
  }

  // ---------- One step of the merge

  /** The chain of h when the first k tables and i entries of the next one are merged. */
  function Done(chains: Chains, k: nat, seen: set<Hash>, h: Hash): seq<nat>
    requires k < |chains|
  {
    (if h in seen then ChainOf(chains, k, h) else []) + Joined(chains, k, h)
  }

  /** The merged table has the head of every merged chain. */
  ghost predicate Merged(merged: map<Hash, LocalEntry>, links: seq<nat>, h: Hash, c: seq<nat>) {
    (h in merged <==> c != []) && (h in merged ==> merged[h].hash == h && IsChain(links, merged[h].head, c))
  }

  lemma {:induction false} JoinedFrom(chains: Chains, k: nat, h: Hash, x: nat)
    requires k <= |chains| && x in Joined(chains, k, h)
    ensures exists j :: 0 <= j < k && h in chains[j] && x in chains[j][h]
  {
    if x !in ChainOf(chains, k - 1, h) {
      JoinedFrom(chains, k - 1, h, x);
    }
  }

  /** A chain still to be merged shares no index with what has been merged. */
  lemma StillApart(chains: Chains, k: nat, seen: set<Hash>, g: Hash, h: Hash)
    requires Disjoint(chains) && k < |chains| && h in chains[k] && h !in seen
    ensures Apart(chains[k][h], Done(chains, k, seen, g))
  {
    var c, d := chains[k][h], Done(chains, k, seen, g);
    forall i, j | 0 <= i < |c| && 0 <= j < |d|
      ensures c[i] != d[j]
    {
      if d[j] in Joined(chains, k, g) {
        JoinedFrom(chains, k, g, d[j]);
        var m :| 0 <= m < k && g in chains[m] && d[j] in chains[m][g];
        assert PairApart(chains, k, h, m, g);
      } else {
        assert g in seen && g in chains[k] && d[j] in chains[k][g];
        assert PairApart(chains, k, h, k, g);
      }
    }
  }

  /** The chain of h in table j is not merged yet. */
  predicate Ahead(chains: Chains, k: nat, seen: set<Hash>, j: nat, h: Hash) {
    k <= j < |chains| && h in chains[j] && (j > k || h !in seen)
  }

  /** The chains that are not merged yet are as they were. */
  ghost predicate Untouched(chains: Chains, links: seq<nat>, k: nat, seen: set<Hash>) {
    forall j: nat, h :: Ahead(chains, k, seen, j, h) ==> IsWhole(links, chains[j][h])
  }

  ghost predicate IsWhole(links: seq<nat>, c: seq<nat>) {
    c != [] && IsChain(links, c[0], c)
  }

  /** The merge has taken in the first k tables and those entries of the next one whose hashes are in `seen`. */
  ghost predicate Merging(chains: Chains, k: nat, seen: set<Hash>, merged: map<Hash, LocalEntry>, links: seq<nat>) {
    k < |chains| && Disjoint(chains) && Untouched(chains, links, k, seen) &&
    forall g :: Merged(merged, links, g, Done(chains, k, seen, g))
  }

  /** The merged table and the links after one more entry. */
  function MergeEntry(merged: map<Hash, LocalEntry>, e: LocalEntry): map<Hash, LocalEntry> {
    merged[e.hash := if e.hash in merged then merged[e.hash].(head := e.head) else e]
  }

  function MergeLink(merged: map<Hash, LocalEntry>, links: seq<nat>, e: LocalEntry): seq<nat>
    requires e.end < |links|
  {
    if e.hash in merged then links[e.end := merged[e.hash].head] else links
  }

  lemma MergeOwn(chains: Chains, k: nat, seen: set<Hash>, merged: map<Hash, LocalEntry>, links: seq<nat>, e: LocalEntry)
    requires Merging(chains, k, seen, merged, links) && EntryShows(e, chains[k]) && e.hash !in seen
    ensures e.end < |links|
    ensures Merged(MergeEntry(merged, e), MergeLink(merged, links, e), e.hash, Done(chains, k, seen + {e.hash}, e.hash))
  {
    var c, d := chains[k][e.hash], Done(chains, k, seen, e.hash);
    assert Ahead(chains, k, seen, k, e.hash);
    assert LinkFollows(links, c, |c| - 1);
    assert Merged(merged, links, e.hash, d);
    StillApart(chains, k, seen, e.hash, e.hash);
    assert SoundChain(chains, k, e.hash);
    assert d == Joined(chains, k, e.hash) && Done(chains, k, seen + {e.hash}, e.hash) == c + d;
    if e.hash in merged {
      JoinChains(links, c, e.head, d, merged[e.hash].head);
    } else {
      assert c + d == c;
    }
  }

  lemma MergeOther(
    chains: Chains, k: nat, seen: set<Hash>, merged: map<Hash, LocalEntry>, links: seq<nat>, e: LocalEntry, g: Hash)
    requires Merging(chains, k, seen, merged, links) && EntryShows(e, chains[k]) && e.hash !in seen
    requires g != e.hash && e.end < |links|
    ensures Merged(MergeEntry(merged, e), MergeLink(merged, links, e), g, Done(chains, k, seen + {e.hash}, g))
  {
    var c, d := chains[k][e.hash], Done(chains, k, seen, g);
    assert Merged(merged, links, g, d);
    StillApart(chains, k, seen, g, e.hash);
    assert c[|c| - 1] == e.end;
    if g in merged && e.hash in merged {
      OtherChain(links, d, merged[g].head, e.end, merged[e.hash].head);
    }
  }

  lemma MergeAhead(
    chains: Chains, k: nat, seen: set<Hash>, merged: map<Hash, LocalEntry>, links: seq<nat>, e: LocalEntry)
    requires Merging(chains, k, seen, merged, links) && EntryShows(e, chains[k]) && e.end < |links|
    ensures Untouched(chains, MergeLink(merged, links, e), k, seen + {e.hash})
  {
    var c := chains[k][e.hash];
    assert c[|c| - 1] == e.end;
    forall j: nat, h | Ahead(chains, k, seen + {e.hash}, j, h)
      ensures IsWhole(MergeLink(merged, links, e), chains[j][h])
    {
      assert Ahead(chains, k, seen, j, h);
      assert PairApart(chains, k, e.hash, j, h);
      if e.hash in merged {
        OtherChain(links, chains[j][h], chains[j][h][0], e.end, merged[e.hash].head);
      }
    }
  }

  /** One more entry: the thread's chain now comes first, followed by what was merged before. */
  lemma MergeStep(
    chains: Chains, k: nat, seen: set<Hash>, merged: map<Hash, LocalEntry>, links: seq<nat>, e: LocalEntry)
    requires Merging(chains, k, seen, merged, links) && EntryShows(e, chains[k]) && e.hash !in seen
    ensures e.end < |links|
    ensures Merging(chains, k, seen + {e.hash}, MergeEntry(merged, e), MergeLink(merged, links, e))
  {
    MergeOwn(chains, k, seen, merged, links, e);
    MergeAhead(chains, k, seen, merged, links, e);
    forall g
      ensures Merged(MergeEntry(merged, e), MergeLink(merged, links, e), g, Done(chains, k, seen + {e.hash}, g))
    {
      if g != e.hash {
        MergeOther(chains, k, seen, merged, links, e, g);
      }
    }
  }

  // ---------- What is left alone

  ghost predicate InChains(chains: Chains, at: nat) {
    exists k, h :: Has(chains, k, h) && at in chains[k][h]
  }

  /** Only links of these chains have changed. */
  ghost predicate LinksKept(before: seq<nat>, after: seq<nat>, chains: Chains) {
    |after| == |before| && forall at: nat :: at < |before| && !InChains(chains, at) ==> LinkKept(before, after, at)
  }

  predicate LinkKept(before: seq<nat>, after: seq<nat>, at: nat)
    requires at < |before| == |after|
  {
    after[at] == before[at]
  }

  lemma KeptTwice(before: seq<nat>, between: seq<nat>, after: seq<nat>, chains: Chains)
    requires LinksKept(before, between, chains) && LinksKept(between, after, chains)
    ensures LinksKept(before, after, chains)
  {
    forall at: nat | at < |before| && !InChains(chains, at)
      ensures LinkKept(before, after, at)
    {
      assert LinkKept(before, between, at) && LinkKept(between, after, at);
    }
  }

  lemma EndInChains(chains: Chains, k: nat, e: LocalEntry)
    requires k < |chains| && EntryShows(e, chains[k])
    ensures InChains(chains, e.end)
  {
    assert Has(chains, k, e.hash) && e.end in chains[k][e.hash];
  }

  lemma ChainStays(before: seq<nat>, after: seq<nat>, start: nat, c: seq<nat>)
    requires IsChain(before, start, c) && |after| == |before|
    requires forall i :: 0 <= i < |c| && c[i] < |before| ==> LinkKept(before, after, c[i])
    ensures IsChain(after, start, c)
  {
    forall i | 0 <= i < |c|
      ensures LinkFollows(after, c, i)
    {
      assert LinkFollows(before, c, i);
    }
  }

  // ---------- Whole tables

  /** Every hash has its chains of the first k tables, the latest first. */
  ghost predicate AllMerged(chains: Chains, k: nat, merged: map<Hash, LocalEntry>, links: seq<nat>)
    requires k <= |chains|
  {
    forall g :: Merged(merged, links, g, Joined(chains, k, g))
  }

  /** The hashes of the first i entries. */
  function Hashes(table: seq<LocalEntry>, i: nat): set<Hash>
    requires i <= |table|
  {
    set j | 0 <= j < i :: table[j].hash
  }

  /** A table merged to its end. */
  lemma TableMerged(
    chains: Chains, k: nat, table: seq<LocalEntry>, merged: map<Hash, LocalEntry>, links: seq<nat>)
    requires Merging(chains, k, Hashes(table, |table|), merged, links) && TableLists(table, chains[k])
    ensures AllMerged(chains, k + 1, merged, links)
  {
    var seen, k' := Hashes(table, |table|), k + 1;
    forall g
      ensures Merged(merged, links, g, Joined(chains, k', g))
    {
      assert Merged(merged, links, g, Done(chains, k, seen, g));
      assert g in chains[k] ==> g in seen;
      assert Done(chains, k, seen, g) == Joined(chains, k', g);
    }
  }

  /** The next table starts with nothing seen. */
  lemma NextTable(chains: Chains, k: nat, seen: set<Hash>, merged: map<Hash, LocalEntry>, links: seq<nat>)
    requires k + 1 < |chains| && Disjoint(chains) && Untouched(chains, links, k, seen)
    requires AllMerged(chains, k + 1, merged, links)
    ensures Merging(chains, k + 1, {}, merged, links)
  {
    var k' := k + 1;
    forall j: nat, h | Ahead(chains, k', {}, j, h)
      ensures IsWhole(links, chains[j][h])
    {
      assert Ahead(chains, k, seen, j, h);
    }
    forall g
      ensures Merged(merged, links, g, Done(chains, k', {}, g))
    {
      assert Done(chains, k', {}, g) == Joined(chains, k', g);
      assert Merged(merged, links, g, Joined(chains, k', g));
    }
  }

  /**
   * Merges the tables of all threads for one partition; the links are rewritten in place.  Cloning
   * the first table is merging it into nothing.
   */
  method MergePartition(tables: seq<seq<LocalEntry>>, overflow: array<nat>, ghost chains: Chains)
    returns (merged: map<Hash, LocalEntry>)
    requires |tables| == |chains| > 0 && Disjoint(chains)
    requires forall k :: 0 <= k < |tables| ==> TableLists(tables[k], chains[k])
    requires AllWhole(chains, overflow[..])
    modifies overflow
    ensures AllMerged(chains, |chains|, merged, overflow[..])
    ensures LinksKept(old(overflow[..]), overflow[..], chains)
  {
    merged := map[];
    assert Merging(chains, 0, {}, merged, overflow[..]);
    for k := 0 to |tables|
      invariant k < |tables| ==> Merging(chains, k, {}, merged, overflow[..])
      invariant k == |tables| ==> AllMerged(chains, k, merged, overflow[..])
      invariant LinksKept(old(overflow[..]), overflow[..], chains)
    {
      ghost var links := overflow[..];
      merged := MergeTable(tables[k], merged, overflow, chains, k);
      KeptTwice(old(overflow[..]), links, overflow[..], chains);
    }
  }

  method MergeTable(
    table: seq<LocalEntry>, merged: map<Hash, LocalEntry>, overflow: array<nat>, ghost chains: Chains, ghost k: nat)
    returns (merged': map<Hash, LocalEntry>)
    requires Merging(chains, k, {}, merged, overflow[..]) && TableLists(table, chains[k])
    modifies overflow
    ensures AllMerged(chains, k + 1, merged', overflow[..])
    ensures k + 1 < |chains| ==> Merging(chains, k + 1, {}, merged', overflow[..])
    ensures LinksKept(old(overflow[..]), overflow[..], chains)
  {
    merged' := merged;
    assert Hashes(table, 0) == {};
    for i := 0 to |table|
      invariant Merging(chains, k, Hashes(table, i), merged', overflow[..])
      invariant LinksKept(old(overflow[..]), overflow[..], chains)
    {
      var item := table[i];
      ghost var links := overflow[..];
      assert Hashes(table, i + 1) == Hashes(table, i) + {item.hash};
      assert EntryShows(item, chains[k]);
      MergeStep(chains, k, Hashes(table, i), merged', links, item);
      EndInChains(chains, k, item);
      if item.hash in merged' {
        overflow[item.end] := merged'[item.hash].head;
        merged' := merged'[item.hash := merged'[item.hash].(head := item.head)];
      } else {
        merged' := merged'[item.hash := item];
      }
    }
    TableMerged(chains, k, table, merged', overflow[..]);
    if k + 1 < |chains| {
      NextTable(chains, k, Hashes(table, |table|), merged', overflow[..]);
    }
  }

  // ---------- All partitions

  /** Every chain is in place. */
  ghost predicate AllWhole(chains: Chains, links: seq<nat>) {
    forall k, h :: Has(chains, k, h) ==> IsWhole(links, chains[k][h])
  }

  ghost predicate NoneShared(chains: Chains, others: Chains) {
    forall at: nat :: InChains(chains, at) ==> !InChains(others, at)
  }

  /** Merging one partition leaves another one's chains in place, merged or not. */
  lemma WholeStays(before: seq<nat>, after: seq<nat>, chains: Chains, others: Chains)
    requires LinksKept(before, after, chains) && NoneShared(others, chains) && AllWhole(others, before)
    ensures AllWhole(others, after)
  {
    forall k, h | Has(others, k, h)
      ensures IsWhole(after, others[k][h])
    {
      var c := others[k][h];
      assert IsWhole(before, c);
      forall i | 0 <= i < |c| && c[i] < |before|
        ensures LinkKept(before, after, c[i])
      {
        assert InChains(others, c[i]);
      }
      ChainStays(before, after, c[0], c);
    }
  }

  lemma MergedStays(
    before: seq<nat>, after: seq<nat>, chains: Chains, others: Chains, merged: map<Hash, LocalEntry>)
    requires LinksKept(before, after, chains) && NoneShared(others, chains)
    requires AllMerged(others, |others|, merged, before)
    ensures AllMerged(others, |others|, merged, after)
  {
    forall g
      ensures Merged(merged, after, g, Joined(others, |others|, g))
    {
      var c := Joined(others, |others|, g);
      assert Merged(merged, before, g, c);
      forall i | 0 <= i < |c| && c[i] < |before|
        ensures LinkKept(before, after, c[i])
      {
        JoinedFrom(others, |others|, g, c[i]);
        var j :| 0 <= j < |others| && g in others[j] && c[i] in others[j][g];
        assert Has(others, j, g);
      }
      if g in merged {
        ChainStays(before, after, merged[g].head, c);
      }
    }
  }

  /** The tables of partition p list its chains. */
  ghost predicate PartitionLists(tables: seq<seq<LocalEntry>>, chains: Chains) {
    |tables| == |chains| > 0 && Disjoint(chains) && forall k :: 0 <= k < |tables| ==> TableLists(tables[k], chains[k])
  }

  /** Partition p has been merged, or is still as it was. */
  ghost predicate PartitionAt(chains: seq<Chains>, merged: seq<map<Hash, LocalEntry>>, links: seq<nat>, p: nat)
    requires p < |chains|
  {
    if p < |merged| then AllMerged(chains[p], |chains[p]|, merged[p], links) else AllWhole(chains[p], links)
  }

  /** The first partitions are merged, the others as they were. */
  ghost predicate PartitionsAt(chains: seq<Chains>, merged: seq<map<Hash, LocalEntry>>, links: seq<nat>) {
    |merged| <= |chains| && forall p :: 0 <= p < |chains| ==> PartitionAt(chains, merged, links, p)
  }

  /** No index belongs to two partitions. */
  ghost predicate PartitionsApart(chains: seq<Chains>) {
    forall p, q :: 0 <= p < |chains| && 0 <= q < |chains| && p != q ==> NoneShared(chains[p], chains[q])
  }

  lemma PartitionsStay(
    chains: seq<Chains>, merged: seq<map<Hash, LocalEntry>>, before: seq<nat>, after: seq<nat>,
    table: map<Hash, LocalEntry>)
    requires PartitionsApart(chains) && PartitionsAt(chains, merged, before) && |merged| < |chains|
    requires LinksKept(before, after, chains[|merged|])
    requires AllMerged(chains[|merged|], |chains[|merged|]|, table, after)
    ensures PartitionsAt(chains, merged + [table], after)
  {
    var merged', done := merged + [table], |merged|;
    forall p | 0 <= p < |chains|
      ensures PartitionAt(chains, merged', after, p)
    {
      assert PartitionAt(chains, merged, before, p);
      if p < done {
        MergedStays(before, after, chains[done], chains[p], merged[p]);
      } else if p > done {
        WholeStays(before, after, chains[done], chains[p]);
      }
    }
  }

  /** Merging one partition after the other in the shared vector merges them all. */
  method MergeAll(tables: seq<seq<seq<LocalEntry>>>, overflow: array<nat>, ghost chains: seq<Chains>)
    returns (merged: seq<map<Hash, LocalEntry>>)
    requires |tables| == |chains| && forall p :: 0 <= p < |tables| ==> PartitionLists(tables[p], chains[p])
    requires PartitionsApart(chains) && forall p :: 0 <= p < |chains| ==> AllWhole(chains[p], overflow[..])
    modifies overflow
    ensures |merged| == |chains|
    ensures forall p :: 0 <= p < |chains| ==> AllMerged(chains[p], |chains[p]|, merged[p], overflow[..])
  {
    merged := [];
    for done := 0 to |tables|
      invariant |merged| == done && PartitionsAt(chains, merged, overflow[..])
    {
      assert PartitionAt(chains, merged, overflow[..], done) && PartitionLists(tables[done], chains[done]);
      ghost var links := overflow[..];
      var table := MergePartition(tables[done], overflow, chains[done]);
      PartitionsStay(chains, merged, links, overflow[..], table);
      merged := merged + [table];
    }
    forall p | 0 <= p < |chains|
      ensures AllMerged(chains[p], |chains[p]|, merged[p], overflow[..])
    {
      assert PartitionAt(chains, merged, overflow[..], p);
    }
  }

  // ---------- What the merged chains hold

  /** The merged chain of a hash holds the indices of all threads' chains for it, each once. */
  lemma {:induction false} JoinedHoldsAll(chains: Chains, k: nat, h: Hash, x: nat)
    requires k <= |chains| && Disjoint(chains)
    ensures x in Joined(chains, k, h) <==> exists j :: 0 <= j < k && x in ChainOf(chains, j, h)
  {
    if k > 0 {
      JoinedHoldsAll(chains, k - 1, h, x);
      assert x in Joined(chains, k, h) <==> x in ChainOf(chains, k - 1, h) || x in Joined(chains, k - 1, h);
    }
  }

  lemma {:induction false} JoinedOnce(chains: Chains, k: nat, h: Hash)
    requires k <= |chains| && Disjoint(chains)
    ensures Once(Joined(chains, k, h))
  {
    if k > 0 {
      JoinedOnce(chains, k - 1, h);
      var j := k - 1;
      if h in chains[j] {
        StillApart(chains, j, {}, h, h);
        assert Done(chains, j, {}, h) == Joined(chains, j, h);
        assert SoundChain(chains, j, h);
        OnceJoined(chains[j][h], Joined(chains, j, h));
      } else {
        assert Joined(chains, k, h) == Joined(chains, j, h);
      }
    }
  }

  /** Each chain is kept in one piece and in its order; what was merged earlier follows it. */
  lemma {:induction false} JoinedSegment(chains: Chains, n: nat, k: nat, h: Hash) returns (later: seq<nat>)
    requires k < n <= |chains|
    ensures Joined(chains, n, h) == later + ChainOf(chains, k, h) + Joined(chains, k, h)
    decreases n
  {
    if k == n - 1 {
      later := [];
    } else {
      later := JoinedSegment(chains, n - 1, k, h);
      later := ChainOf(chains, n - 1, h) + later;
    }
  }

  lemma OnceJoined(c: seq<nat>, d: seq<nat>)
    requires Once(c) && Once(d) && Apart(c, d)
    ensures Once(c + d)
  {
    forall i, j | 0 <= i < j < |c + d|
      ensures (c + d)[i] != (c + d)[j]
    {
      if i < |c| <= j {
        assert c[i] != d[j - |c|];
      }
    }
  }
}
