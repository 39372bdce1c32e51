/** The counters and the contents of a table as numbers of buckets. */
module Counting {
  import opened Group
  import opened HashTable
  import opened TableSpec

  /** A set with at most one element more. */
  lemma OneMore(all: set<nat>, rest: set<nat>, x: nat, more: bool)
    requires x !in rest && forall i :: i in all <==> i in rest || (i == x && more)
    ensures |all| == |rest| + if more then 1 else 0
  {
    assert all == if more then rest + {x} else rest;
  }

  /** CountFrom counts the buckets with this tag. */
  lemma {:induction false} CountsTag(r: seq<Tag>, t: Tag, at: nat)
    requires at <= |r|
    ensures CountFrom(r, t, at) == |set i: nat | at <= i < |r| && r[i] == t|
    decreases |r| - at
  {
    var all := set i: nat | at <= i < |r| && r[i] == t;
    if at == |r| {
      assert all == {};
    } else {
      CountsTag(r, t, at + 1);
      var rest := set i: nat | at + 1 <= i < |r| && r[i] == t;
      OneMore(all, rest, at, r[at] == t);
    }
  }

  /** FullsFrom counts the full buckets. */
  lemma {:induction false} CountsFull(r: seq<Tag>, at: nat)
    requires at <= |r|
    ensures FullsFrom(r, at) == |set i: nat | at <= i < |r| && IsFull(r[i])|
    decreases |r| - at
  {
    var all := set i: nat | at <= i < |r| && IsFull(r[i]);
    if at == |r| {
      assert all == {};
    } else {
      CountsFull(r, at + 1);
      var rest := set i: nat | at + 1 <= i < |r| && IsFull(r[i]);
      OneMore(all, rest, at, IsFull(r[at]));
    }
  }

  /** How many of the numbers below m satisfy p. */
  ghost function CountTo(p: nat -> bool, m: nat): nat {
    if m == 0 then 0 else CountTo(p, m - 1) + if p(m - 1) then 1 else 0
  }

  lemma {:induction false} CountsTo(p: nat -> bool, m: nat)
    ensures CountTo(p, m) == |set i: nat | i < m && p(i)|
  {
    var all := set i: nat | i < m && p(i);
    if m == 0 {
      assert all == {};
    } else {
      CountsTo(p, m - 1);
      OneMore(all, (set i: nat | i < m - 1 && p(i)), m - 1, p(m - 1));
    }
  }

  /** An element is in the contents as often as there are buckets that hold it: full ones or, during a rehash, waiting
      ones. */
  lemma CountsElement<T>(r: seq<Tag>, d: seq<T>, rehash: bool, m: nat, x: T)
    requires m <= |r| == |d|
    ensures ElemsTo(r, d, rehash, m)[x] ==
      |set i: nat | i < m && (IsFull(r[i]) || (rehash && r[i] == DELETED)) && d[i] == x|
  {
    var p := (i: nat) => i < |r| && (IsFull(r[i]) || (rehash && r[i] == DELETED)) && d[i] == x;
    ElementsCount(r, d, rehash, m, x, p);
    CountsTo(p, m);
    assert (set i: nat | i < m && p(i)) ==
           set i: nat | i < m && (IsFull(r[i]) || (rehash && r[i] == DELETED)) && d[i] == x;
  }

  lemma {:induction false} ElementsCount<T>(r: seq<Tag>, d: seq<T>, rehash: bool, m: nat, x: T, p: nat -> bool)
    requires m <= |r| == |d|
    requires forall i: nat | i < m :: p(i) == (Live(r[i], rehash) && d[i] == x)
    ensures ElemsTo(r, d, rehash, m)[x] == CountTo(p, m)
    decreases m
  {
    if m > 0 {
      ElementsCount(r, d, rehash, m - 1, x, p);
    }
  }

  /** After Retain an element occurs as often as f has accepted elements and turned them into it. */
  lemma CountsRetained<T>(r: seq<Tag>, d: seq<T>, f: Judgement<T>, m: nat, y: T)
    requires m <= |r| == |d|
    ensures Retained(r, d, f, m)[y] == |set i: nat | i < m && IsFull(r[i]) && f(d[i]) == (true, y)|
  {
    var p := (i: nat) => i < |r| && IsFull(r[i]) && f(d[i]) == (true, y);
    RetainedCount(r, d, f, m, y, p);
    CountsTo(p, m);
    assert (set i: nat | i < m && p(i)) == set i: nat | i < m && IsFull(r[i]) && f(d[i]) == (true, y);
  }

  lemma {:induction false} RetainedCount<T>(r: seq<Tag>, d: seq<T>, f: Judgement<T>, m: nat, y: T, p: nat -> bool)
    requires m <= |r| == |d|
    requires forall i: nat | i < m :: p(i) == (IsFull(r[i]) && f(d[i]) == (true, y))
    ensures Retained(r, d, f, m)[y] == CountTo(p, m)
    decreases m
  {
    if m > 0 {
      RetainedCount(r, d, f, m - 1, y, p);
    }
  }
}
