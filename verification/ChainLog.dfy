/**
 * The per-hash chains threaded through an `overflow` vector, and the lookup that walks them.
 *
 * A log lists the pushes in the order in which they took effect.  Every push of index `at` makes
 * `at` the head of its hash's chain and stores the previous head in the link of `at`; 0 ends a chain.
 */
module ChainLog {
  import opened Group

  datatype Push = Push(at: nat, hash: Hash)

  /** Head of the chain of h after the first k pushes, 0 when there is none. */
  function Latest(log: seq<Push>, k: nat, h: Hash): nat
    requires k <= |log|
  {
    if k == 0 then 0 else if log[k - 1].hash == h then log[k - 1].at else Latest(log, k - 1, h)
  }

  /** The indices pushed for h among the first k pushes, newest first. */
  function Listing(log: seq<Push>, k: nat, h: Hash): seq<nat>
    requires k <= |log|
  {
    if k == 0 then []
    else if log[k - 1].hash == h then [log[k - 1].at] + Listing(log, k - 1, h)
    else Listing(log, k - 1, h)
  }

  /** The times, latest first, at which h was pushed. */
  function Times(log: seq<Push>, k: nat, h: Hash): seq<nat>
    requires k <= |log|
  {
    if k == 0 then []
    else if log[k - 1].hash == h then [k - 1] + Times(log, k - 1, h)
    else Times(log, k - 1, h)
  }

  predicate Logged(log: seq<Push>, at: nat) {
    exists k :: 0 <= k < |log| && log[k].at == at
  }

  /** No index is pushed twice, and the end marker never. */
  ghost predicate Distinct(log: seq<Push>) {
    (forall k :: 0 <= k < |log| ==> 0 < log[k].at) &&
    (forall j, k :: 0 <= j < k < |log| ==> log[j].at != log[k].at)
  }

  predicate LinkedAt(log: seq<Push>, links: seq<nat>, k: nat)
    requires k < |log|
  {
    log[k].at < |links| && links[log[k].at] == Latest(log, k, log[k].hash)
  }

  /** Every link holds what was the head of the chain just before its push. */
  ghost predicate Linked(log: seq<Push>, links: seq<nat>) {
    Distinct(log) && forall k :: 0 <= k < |log| ==> LinkedAt(log, links, k)
  }

  predicate LinkFollows(links: seq<nat>, c: seq<nat>, i: nat)
    requires i < |c|
  {
    0 < c[i] < |links| && links[c[i]] == if i + 1 < |c| then c[i + 1] else 0
  }

  /** Walking the links from start visits exactly c and then meets the end marker. */
  ghost predicate IsChain(links: seq<nat>, start: nat, c: seq<nat>) {
    start == (if |c| == 0 then 0 else c[0]) && forall i :: 0 <= i < |c| ==> LinkFollows(links, c, i)
  }

  // ---------- What a listing lists ----------

  lemma {:induction false} TimesMatchListing(log: seq<Push>, k: nat, h: Hash)
    requires k <= |log|
    ensures |Times(log, k, h)| == |Listing(log, k, h)|
    ensures forall i :: 0 <= i < |Times(log, k, h)| ==> TimeOf(log, k, h, i)
  {
    if k > 0 {
      TimesMatchListing(log, k - 1, h);
      if log[k - 1].hash == h {
        forall i | 0 <= i < |Times(log, k, h)| ensures TimeOf(log, k, h, i) {
          assert i > 0 ==> TimeOf(log, k - 1, h, i - 1);
        }
      } else {
        assert forall i :: 0 <= i < |Times(log, k, h)| && TimeOf(log, k - 1, h, i) ==> TimeOf(log, k, h, i);
      }
    }
  }

  predicate TimeOf(log: seq<Push>, k: nat, h: Hash, i: nat)
    requires k <= |log| && i < |Times(log, k, h)| == |Listing(log, k, h)|
  {
    var at := Times(log, k, h)[i];
    at < k && log[at] == Push(Listing(log, k, h)[i], h)
  }

  lemma {:induction false} TimesFall(log: seq<Push>, k: nat, h: Hash, i: nat, j: nat)
    requires k <= |log| && i < j < |Times(log, k, h)|
    ensures Times(log, k, h)[j] < Times(log, k, h)[i] < k
  {
    if log[k - 1].hash != h {
      TimesFall(log, k - 1, h, i, j);
    } else if i > 0 {
      TimesFall(log, k - 1, h, i - 1, j - 1);
    } else {
      TimesMatchListing(log, k - 1, h);
      assert TimeOf(log, k - 1, h, j - 1);
    }
  }

  lemma {:induction false} TimesComplete(log: seq<Push>, k: nat, h: Hash, at: nat)
    requires at < k <= |log| && log[at].hash == h
    ensures at in Times(log, k, h)
  {
    if at < k - 1 {
      TimesComplete(log, k - 1, h, at);
    }
  }

  /** A listing holds exactly the indices pushed for its hash. */
  lemma ListedExactly(log: seq<Push>, k: nat, h: Hash, p: nat)
    requires k <= |log|
    ensures p in Listing(log, k, h) <==> exists i :: 0 <= i < k && log[i] == Push(p, h)
  {
    TimesMatchListing(log, k, h);
    if i :| 0 <= i < k && log[i] == Push(p, h) {
      TimesComplete(log, k, h, i);
      var x :| 0 <= x < |Times(log, k, h)| && Times(log, k, h)[x] == i;
      assert TimeOf(log, k, h, x);
      assert Listing(log, k, h)[x] == p;
    }
    if p in Listing(log, k, h) {
      var x :| 0 <= x < |Listing(log, k, h)| && Listing(log, k, h)[x] == p;
      assert TimeOf(log, k, h, x);
      assert log[Times(log, k, h)[x]] == Push(p, h);
    }
  }

  /** A listing has no repetition, and later pushes come first. */
  lemma ListedOnce(log: seq<Push>, k: nat, h: Hash, i: nat, j: nat)
    requires k <= |log| && Distinct(log) && i < j < |Listing(log, k, h)|
    ensures Listing(log, k, h)[i] != Listing(log, k, h)[j]
    ensures exists x, y ::
      0 <= y < x < k && log[x] == Push(Listing(log, k, h)[i], h) && log[y] == Push(Listing(log, k, h)[j], h)
  {
    TimesMatchListing(log, k, h);
    TimesFall(log, k, h, i, j);
    assert TimeOf(log, k, h, i) && TimeOf(log, k, h, j);
    var x, y := Times(log, k, h)[i], Times(log, k, h)[j];
    assert log[x] == Push(Listing(log, k, h)[i], h) && log[y] == Push(Listing(log, k, h)[j], h);
  }

  lemma {:induction false} LatestHeads(log: seq<Push>, k: nat, h: Hash)
    requires k <= |log| && Distinct(log)
    ensures Latest(log, k, h) == if |Listing(log, k, h)| == 0 then 0 else Listing(log, k, h)[0]
    ensures Latest(log, k, h) == 0 <==> Listing(log, k, h) == []
  {
    if k > 0 {
      LatestHeads(log, k - 1, h);
    }
  }

  /** Under the invariant the chain from the head of h is the listing of h: finite, acyclic, newest first. */
  lemma {:induction false} ChainIsListing(log: seq<Push>, links: seq<nat>, k: nat, h: Hash)
    requires k <= |log| && Linked(log, links)
    ensures IsChain(links, Latest(log, k, h), Listing(log, k, h))
  {
    LatestHeads(log, k, h);
    if k > 0 {
      ChainIsListing(log, links, k - 1, h);
      if log[k - 1].hash == h {
        var rest := Listing(log, k - 1, h);
        var c := Listing(log, k, h);
        LatestHeads(log, k - 1, h);
        assert LinkedAt(log, links, k - 1);
        forall i | 0 <= i < |c| ensures LinkFollows(links, c, i) {
          if i > 0 {
            assert LinkFollows(links, rest, i - 1);
          }
        }
      }
    }
  }

  /** At most one list is the chain from a given start. */
  lemma {:induction false} ChainUnique(links: seq<nat>, start: nat, c: seq<nat>, d: seq<nat>)
    requires IsChain(links, start, c) && IsChain(links, start, d)
    ensures c == d
    decreases |c|
  {
    ChainEmpty(links, start, c);
    ChainEmpty(links, start, d);
    if start != 0 {
      ChainTail(links, start, c);
      ChainTail(links, start, d);
      ChainUnique(links, links[start], c[1..], d[1..]);
      assert c == [c[0]] + c[1..] && d == [d[0]] + d[1..];
    }
  }

  lemma ChainEmpty(links: seq<nat>, start: nat, c: seq<nat>)
    requires IsChain(links, start, c)
    ensures start == 0 <==> c == []
  {
    assert |c| > 0 ==> LinkFollows(links, c, 0);
  }

  lemma ChainNotEnded(links: seq<nat>, start: nat, c: seq<nat>)
    requires IsChain(links, start, c)
    ensures forall i :: 0 <= i < |c| ==> 0 < c[i]
  {
    forall i | 0 <= i < |c| ensures 0 < c[i] {
      assert LinkFollows(links, c, i);
    }
  }

  lemma ChainTail(links: seq<nat>, start: nat, c: seq<nat>)
    requires IsChain(links, start, c) && |c| > 0
    ensures start < |links| && IsChain(links, links[start], c[1..])
  {
    assert LinkFollows(links, c, 0);
    forall i | 0 <= i < |c| - 1 ensures LinkFollows(links, c[1..], i) {
      var i' := i + 1;
      assert LinkFollows(links, c, i');
    }
  }

  // ---------- One more push ----------

  lemma {:induction false} LatestPrefix(log: seq<Push>, p: Push, k: nat, h: Hash)
    requires k <= |log|
    ensures Latest(log + [p], k, h) == Latest(log, k, h)
  {
    if k > 0 {
      LatestPrefix(log, p, k - 1, h);
    }
  }

  /** Pushing a fresh index onto its chain keeps every link right and moves only the head of its own hash. */
  lemma PushKeeps(log: seq<Push>, links: seq<nat>, p: Push)
    requires Linked(log, links) && !Logged(log, p.at) && 0 < p.at < |links|
    ensures Linked(log + [p], links[p.at := Latest(log, |log|, p.hash)])
    ensures forall h :: Latest(log + [p], |log| + 1, h) == if h == p.hash then p.at else Latest(log, |log|, h)
  {
    var log', links' := log + [p], links[p.at := Latest(log, |log|, p.hash)];
    forall k | 0 <= k < |log'| ensures LinkedAt(log', links', k) {
      LatestPrefix(log, p, k, log'[k].hash);
      if k < |log| {
        assert LinkedAt(log, links, k);
      }
    }
    forall h ensures Latest(log', |log'|, h) == if h == p.hash then p.at else Latest(log, |log|, h) {
      LatestPrefix(log, p, |log|, h);
    }
  }

  /** The links of indices that were never pushed do not matter. */
  lemma LinksExtend(log: seq<Push>, links: seq<nat>, more: seq<nat>)
    requires Linked(log, links) && |links| <= |more|
    requires forall j :: 0 <= j < |links| && Logged(log, j) ==> more[j] == links[j]
    ensures Linked(log, more)
  {
    forall k | 0 <= k < |log| ensures LinkedAt(log, more, k) {
      assert LinkedAt(log, links, k);
      assert Logged(log, log[k].at);
    }
  }

  // ---------- Lookup ----------

  /** The frozen structure that all threads share once building is over. */
  datatype Lookup = Lookup(table: map<Hash, nat>, overflow: seq<nat>)
  {
    function Head(h: Hash): nat {
      if h in table then table[h] else 0
    }

    /** The chain of h can be walked; no head is the end marker. */
    ghost predicate Walkable(h: Hash) {
      (h in table ==> table[h] != 0) && exists c :: IsChain(overflow, Head(h), c)
    }

    /** Indices start at one, the positions handed out at zero. */
    method Get(h: Hash) returns (output: seq<nat>)
      requires Walkable(h)
      ensures IsChain(overflow, Head(h), Indices(output))
    {
      if h !in table {
        output := [];
      } else {
        ghost var c :| IsChain(overflow, Head(h), c);
        assert LinkFollows(overflow, c, 0);
        output := [table[h] - 1];
        var next := overflow[table[h]];
        while next != 0
          invariant 0 < |output| <= |c|
          invariant forall i :: 0 <= i < |output| ==> output[i] + 1 == c[i]
          invariant next == if |output| < |c| then c[|output|] else 0
          decreases |c| - |output|
        {
          assert LinkFollows(overflow, c, |output|);
          output := output + [next - 1];
          next := overflow[next];
        }
        assert Indices(output) == c by {
          ChainNotEnded(overflow, Head(h), c);
        }
      }
    }
  }

  function Indices(positions: seq<nat>): (c: seq<nat>)
    ensures |c| == |positions| && forall i :: 0 <= i < |c| ==> c[i] == positions[i] + 1
  {
    seq(|positions|, i requires 0 <= i < |positions| => positions[i] + 1)
  }

  /** A lookup structure that answers from a complete log. */
  ghost predicate Published(log: seq<Push>, lookup: Lookup) {
    Linked(log, lookup.overflow) &&
    (forall h :: lookup.Head(h) == Latest(log, |log|, h)) &&
    (forall h :: h in lookup.table ==> lookup.table[h] != 0)
  }

  /** Whatever the lookup returns lists each position pushed for h once and no other, newest first. */
  lemma PublishedAnswers(log: seq<Push>, lookup: Lookup, h: Hash, output: seq<nat>)
    requires Published(log, lookup)
    ensures lookup.Walkable(h)
    ensures IsChain(lookup.overflow, lookup.Head(h), Indices(output)) <==> Indices(output) == Listing(log, |log|, h)
  {
    ChainIsListing(log, lookup.overflow, |log|, h);
    assert lookup.Head(h) == Latest(log, |log|, h);
    if IsChain(lookup.overflow, lookup.Head(h), Indices(output)) {
      ChainUnique(lookup.overflow, lookup.Head(h), Indices(output), Listing(log, |log|, h));
    }
  }
}
