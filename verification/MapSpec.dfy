/** What it means for the elements of a table to be the entries of a map. */
module MapSpec {
  import opened Group
  import opened TableSpec
  import opened Wrappers

  ghost predicate Represents<K(!new), V(!new)>(c: multiset<(K, V)>, m: map<K, V>) {
    forall kv :: c[kv] == if kv.0 in m && m[kv.0] == kv.1 then 1 else 0
  }

  function Lookup<K, V>(m: map<K, V>, k: K): Option<V> {
    if k in m then Some(m[k]) else None
  }

  lemma RepresentsInsert<K(!new), V(!new)>(c: multiset<(K, V)>, m: map<K, V>, k: K, v: V)
    requires Represents(c, m) && k !in m
    ensures Represents(c + multiset{(k, v)}, m[k := v])
  {
  }

  /** One more entry at the end of a list of entries. */
  lemma RepresentsAppend<K(!new), V(!new)>(s: seq<(K, V)>, m: map<K, V>, k: K, v: V)
    requires Represents(multiset(s), m) && k !in m
    ensures Represents(multiset(s + [(k, v)]), m[k := v])
  {
    RepresentsInsert(multiset(s), m, k, v);
    assert multiset(s + [(k, v)]) == multiset(s) + multiset{(k, v)};
  }

  lemma RepresentsRemove<K(!new), V(!new)>(c: multiset<(K, V)>, m: map<K, V>, kv: (K, V), rest: multiset<(K, V)>)
    requires Represents(c, m) && c == rest + multiset{kv}
    ensures kv.0 in m && m[kv.0] == kv.1 && Represents(rest, m - {kv.0})
  {
    assert c[kv] >= 1;
    var m' := m - {kv.0};
    forall x
      ensures rest[x] == if x.0 in m' && m'[x.0] == x.1 then 1 else 0
    {
      assert c[x] == rest[x] + multiset{kv}[x];
    }
  }

  lemma RepresentsReplace<K(!new), V(!new)>(c: multiset<(K, V)>, m: map<K, V>, k: K, v: V, v': V, c': multiset<(K, V)>)
    requires Represents(c, m) && (k, v) in c && c' + multiset{(k, v)} == c + multiset{(k, v')}
    ensures k in m && m[k] == v && Represents(c', m[k := v'])
  {
    assert c[(k, v)] >= 1;
    var m' := m[k := v'];
    forall x
      ensures c'[x] == if x.0 in m' && m'[x.0] == x.1 then 1 else 0
    {
      assert (c' + multiset{(k, v)})[x] == (c + multiset{(k, v')})[x];
    }
  }

  lemma {:induction false} RepresentsSize<K(!new), V(!new)>(c: multiset<(K, V)>, m: map<K, V>)
    requires Represents(c, m)
    ensures |c| == |m|
    decreases |c|
  {
    if c == multiset{} {
      forall k
        ensures k !in m
      {
        assert k in m ==> c[(k, m[k])] == 1;
      }
      assert m.Keys == {};
    } else {
      var kv :| kv in c;
      var rest := c - multiset{kv};
      assert c == rest + multiset{kv};
      RepresentsRemove(c, m, kv, rest);
      RepresentsSize(rest, m - {kv.0});
      assert m.Keys == (m - {kv.0}).Keys + {kv.0};
    }
  }

  lemma RepresentsKey<K(!new), V(!new)>(c: multiset<(K, V)>, m: map<K, V>, k: K)
    requires Represents(c, m) && forall kv :: kv in c ==> kv.0 != k
    ensures k !in m
  {
    assert k in m ==> c[(k, m[k])] == 1;
  }

  // ----- Visiting every entry once, keeping or removing it

  /** What a look-up for an update hands out: the bucket of the entry, or the key to fill a vacant one with. */
  datatype Handle<K> = Occupied(index: nat) | Vacant(key: K)

  /** What becomes of an entry: whether it stays, and its possibly updated value. */
  type Verdict<!K, !V> = (K, V) -> (bool, V)

  function Kept<K, V>(m: map<K, V>, f: Verdict<K, V>): map<K, V> {
    map k | k in m && f(k, m[k]).0 :: f(k, m[k]).1
  }

  function Dropped<K, V>(m: map<K, V>, f: Verdict<K, V>): map<K, V> {
    map k | k in m && !f(k, m[k]).0 :: f(k, m[k]).1
  }

  /** Some bucket at or after `at` still holds the key. */
  ghost predicate Pending<K, V>(r: seq<Tag>, d: seq<(K, V)>, at: nat, k: K)
    requires |r| == |d|
  {
    exists i :: at <= i < |r| && IsFull(r[i]) && d[i].0 == k
  }

  /** Key k has been judged, unless it is pending. */
  ghost predicate Judged<K, V>(r: seq<Tag>, d: seq<(K, V)>, at: nat, m0: map<K, V>, f: Verdict<K, V>,
                               m: map<K, V>, x: map<K, V>, k: K)
    requires |r| == |d|
  {
    if k !in m0 then k !in m && k !in x
    else if Pending(r, d, at, k) then Lookup(m, k) == Some(m0[k]) && k !in x
    else if f(k, m0[k]).0 then Lookup(m, k) == Some(f(k, m0[k]).1) && k !in x
    else Lookup(x, k) == Some(f(k, m0[k]).1) && k !in m
  }

  ghost predicate Visiting<K(!new), V>(r: seq<Tag>, d: seq<(K, V)>, at: nat, m0: map<K, V>, f: Verdict<K, V>,
                                      m: map<K, V>, x: map<K, V>) {
    |r| == |d| && forall k :: Judged(r, d, at, m0, f, m, x, k)
  }

  /** No two buckets hold the same key. */
  lemma KeysDistinct<K(!new), V(!new)>(r: seq<Tag>, d: seq<(K, V)>, m: map<K, V>, i: nat, j: nat)
    requires |r| == |d| && Represents(Elems(r, d, false), m)
    requires i < |r| && j < |r| && i != j && IsFull(r[i]) && IsFull(r[j])
    ensures d[i].0 != d[j].0
  {
    ElemsHas(r, d, false, i);
    ElemsHas(r, d, false, j);
    if d[i] == d[j] {
      ElemsTwice(r, d, false, |r|, if i < j then i else j, if i < j then j else i);
    }
  }

  /** Every key is extracted by its verdict or still there, as it was or with the value of its verdict. */
  ghost predicate Split<K(!new), V>(m0: map<K, V>, f: Verdict<K, V>, m: map<K, V>, x: map<K, V>) {
    m.Keys !! x.Keys && m.Keys + x.Keys == m0.Keys &&
    (forall k :: k in x ==> !f(k, m0[k]).0 && x[k] == f(k, m0[k]).1) &&
    (forall k :: k in m ==> m[k] == m0[k] || (f(k, m0[k]).0 && m[k] == f(k, m0[k]).1))
  }

  lemma VisitSplits<K(!new), V(!new)>(r: seq<Tag>, d: seq<(K, V)>, at: nat, m0: map<K, V>, f: Verdict<K, V>,
                                      m: map<K, V>, x: map<K, V>)
    requires Visiting(r, d, at, m0, f, m, x)
    ensures Split(m0, f, m, x)
  {
    assert forall k :: Judged(r, d, at, m0, f, m, x, k);
    forall k
      ensures (k in m || k in x <==> k in m0) && !(k in m && k in x)
    {
      assert Judged(r, d, at, m0, f, m, x, k);
    }
    forall k | k in x
      ensures !f(k, m0[k]).0 && x[k] == f(k, m0[k]).1
    {
      assert Judged(r, d, at, m0, f, m, x, k);
    }
    forall k | k in m
      ensures m[k] == m0[k] || (f(k, m0[k]).0 && m[k] == f(k, m0[k]).1)
    {
      assert Judged(r, d, at, m0, f, m, x, k);
    }
  }

  lemma VisitStart<K(!new), V(!new)>(r: seq<Tag>, d: seq<(K, V)>, m: map<K, V>, f: Verdict<K, V>)
    requires |r| == |d| && Represents(Elems(r, d, false), m)
    ensures Visiting(r, d, 0, m, f, m, map[])
  {
    forall k
      ensures Judged(r, d, 0, m, f, m, map[], k)
    {
      if k in m {
        assert Elems(r, d, false)[(k, m[k])] == 1;
        var i := ElemsFrom(r, d, false, (k, m[k]));
      }
    }
  }

  lemma NothingPending<K, V>(r: seq<Tag>, d: seq<(K, V)>, at: nat, k: K)
    requires |r| == |d| && NoneFull(r, at, |r|)
    ensures !Pending(r, d, at, k)
  {
    forall i: nat | at <= i < |r|
      ensures !IsFull(r[i])
    {
      assert NotFull(r, i);
    }
  }

  lemma VisitEnd<K(!new), V(!new)>(r: seq<Tag>, d: seq<(K, V)>, at: nat, m0: map<K, V>, f: Verdict<K, V>,
                                   m: map<K, V>, x: map<K, V>)
    requires Visiting(r, d, at, m0, f, m, x) && NoneFull(r, at, |r|)
    ensures m == Kept(m0, f) && x == Dropped(m0, f)
  {
    forall k
      ensures Lookup(m, k) == Lookup(Kept(m0, f), k) && Lookup(x, k) == Lookup(Dropped(m0, f), k)
    {
      assert Judged(r, d, at, m0, f, m, x, k);
      NothingPending(r, d, at, k);
    }
    LookupExtensional(m, Kept(m0, f));
    LookupExtensional(x, Dropped(m0, f));
  }

  lemma LookupExtensional<K(!new), V>(m: map<K, V>, m': map<K, V>)
    requires forall k :: Lookup(m, k) == Lookup(m', k)
    ensures m == m'
  {
    forall k
      ensures k in m <==> k in m'
      ensures k in m ==> m[k] == m'[k]
    {
      assert Lookup(m, k) == Lookup(m', k);
    }
  }

  /** Judging the entry of the next full bucket. */
  lemma VisitStep<K(!new), V(!new)>(r: seq<Tag>, d: seq<(K, V)>, at: nat, m: map<K, V>, x: map<K, V>, i: nat,
                                    r': seq<Tag>, d': seq<(K, V)>, m': map<K, V>, x': map<K, V>,
                                    m0: map<K, V>, f: Verdict<K, V>)
    requires Visiting(r, d, at, m0, f, m, x) && Represents(Elems(r, d, false), m)
    requires at <= i < |r| && IsFull(r[i]) && NoneFull(r, at, i)
    requires |r'| == |d'| == |r| && forall j :: 0 <= j < |r| && j != i ==> r'[j] == r[j] && d'[j] == d[j]
    requires var (keep, v) := f(d[i].0, d[i].1);
             && IsFull(r'[i]) == keep
             && (keep ==> m' == m[d[i].0 := v] && x' == x)
             && (!keep ==> m' == m - {d[i].0} && x' == x[d[i].0 := v])
    ensures Visiting(r', d', i + 1, m0, f, m', x')
  {
    ElemsHas(r, d, false, i);
    assert Elems(r, d, false)[d[i]] >= 1;
    assert Pending(r, d, at, d[i].0);
    assert Judged(r, d, at, m0, f, m, x, d[i].0);
    var at' := i + 1;
    forall k
      ensures Judged(r', d', at', m0, f, m', x', k)
    {
      assert Judged(r, d, at, m0, f, m, x, k);
      PendingStep(r, d, at, i, r', d', m, k);
    }
  }

  /** A key about to be judged has not been dropped yet. */
  lemma VisitedKey<K(!new), V(!new)>(r: seq<Tag>, d: seq<(K, V)>, at: nat, m0: map<K, V>, f: Verdict<K, V>,
                                     m: map<K, V>, x: map<K, V>, i: nat)
    requires Visiting(r, d, at, m0, f, m, x) && at <= i < |r| && IsFull(r[i])
    ensures d[i].0 !in x
  {
    assert Pending(r, d, at, d[i].0);
    assert Judged(r, d, at, m0, f, m, x, d[i].0);
  }

  lemma PendingStep<K(!new), V(!new)>(r: seq<Tag>, d: seq<(K, V)>, at: nat, i: nat, r': seq<Tag>, d': seq<(K, V)>,
                                      m: map<K, V>, k: K)
    requires |r| == |d| == |r'| == |d'| && Represents(Elems(r, d, false), m)
    requires at <= i < |r| && IsFull(r[i]) && NoneFull(r, at, i)
    requires forall j :: 0 <= j < |r| && j != i ==> r'[j] == r[j] && d'[j] == d[j]
    ensures Pending(r', d', i + 1, k) <==> Pending(r, d, at, k) && k != d[i].0
  {
    if Pending(r', d', i + 1, k) {
      var j :| i + 1 <= j < |r'| && IsFull(r'[j]) && d'[j].0 == k;
      KeysDistinct(r, d, m, i, j);
      assert d[j].0 == k;
    }
    if Pending(r, d, at, k) && k != d[i].0 {
      var j :| at <= j < |r| && IsFull(r[j]) && d[j].0 == k;
      assert j < i ==> NotFull(r, j);
      assert i + 1 <= j && d'[j].0 == k;
    }
  }

  /** The entries of the first `at` buckets are entries of m. */
  ghost predicate EntriesIn<K, V>(r: seq<Tag>, d: seq<(K, V)>, at: nat, m: map<K, V>)
    requires |r| == |d|
  {
    at <= |r| && forall i :: 0 <= i < at && IsFull(r[i]) ==> Lookup(m, d[i].0) == Some(d[i].1)
  }

  lemma EntriesInStep<K, V>(r: seq<Tag>, d: seq<(K, V)>, at: nat, i: nat, m: map<K, V>)
    requires |r| == |d| && EntriesIn(r, d, at, m) && at <= i <= |r| && NoneFull(r, at, i)
    ensures EntriesIn(r, d, i, m)
    ensures i < |r| && Lookup(m, d[i].0) == Some(d[i].1) ==> EntriesIn(r, d, i + 1, m)
  {
    forall j | at <= j < i
      ensures !IsFull(r[j])
    {
      assert NotFull(r, j);
    }
  }

  /** A map of the same size that contains every entry of m is m. */
  lemma SubmapEqual<K(!new), V(!new)>(r: seq<Tag>, d: seq<(K, V)>, m: map<K, V>, m': map<K, V>)
    requires |r| == |d| && Represents(Elems(r, d, false), m) && |m| == |m'|
    requires EntriesIn(r, d, |r|, m')
    ensures m == m'
  {
    forall k | k in m
      ensures k in m' && m'[k] == m[k]
    {
      assert Elems(r, d, false)[(k, m[k])] == 1;
      var i := ElemsFrom(r, d, false, (k, m[k]));
    }
    SubsetSameSize(m.Keys, m'.Keys);
  }

  lemma {:induction false} SubsetSameSize<K>(a: set<K>, b: set<K>)
    requires a <= b && |a| == |b|
    ensures a == b
  {
    if x :| x in b && x !in a {
      assert a <= b - {x};
      SubsetSmaller(a, b - {x});
    }
  }

  lemma {:induction false} SubsetSmaller<K>(a: set<K>, b: set<K>)
    requires a <= b
    ensures |a| <= |b|
  {
    if x :| x in a {
      SubsetSmaller(a - {x}, b - {x});
    }
  }

  /** The map after inserting the entries in order. */
  function Extended<K, V>(m: map<K, V>, entries: seq<(K, V)>): map<K, V> {
    if entries == [] then m
    else Extended(m, entries[..|entries| - 1])[entries[|entries| - 1].0 := entries[|entries| - 1].1]
  }

  lemma ExtendedStep<K, V>(m: map<K, V>, entries: seq<(K, V)>, i: nat)
    requires i < |entries|
    ensures Extended(m, entries[..i + 1]) == Extended(m, entries[..i])[entries[i].0 := entries[i].1]
  {
    assert entries[..i + 1][..i] == entries[..i];
  }

  /** Inserting entries one after the other leaves the value of the last entry for a key, and other keys alone. */
  lemma {:induction false} ExtendedLast<K, V>(m: map<K, V>, entries: seq<(K, V)>, k: K)
    ensures k in Extended(m, entries) <==> k in m || exists i :: 0 <= i < |entries| && entries[i].0 == k
    ensures (forall i :: 0 <= i < |entries| ==> entries[i].0 != k) && k in m ==> Extended(m, entries)[k] == m[k]
    ensures forall i ::
      0 <= i < |entries| && entries[i].0 == k && (forall j :: i < j < |entries| ==> entries[j].0 != k) ==>
        Extended(m, entries)[k] == entries[i].1
    decreases |entries|
  {
    if entries != [] {
      var before, last := entries[..|entries| - 1], |entries| - 1;
      ExtendedLast(m, before, k);
      assert forall i :: 0 <= i < last ==> before[i] == entries[i];
      assert (exists i :: 0 <= i < |entries| && entries[i].0 == k) <==>
        entries[last].0 == k || exists i :: 0 <= i < last && before[i].0 == k;
    }
  }
}
