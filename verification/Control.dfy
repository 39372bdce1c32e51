/** The control bytes of a table: the real ones, the filler of small tables, and the replicated tail. */
module Control {
  import opened Arith
  import opened Group
  import opened Probe

  /** Control byte j of a table whose buckets carry the tags r. */
  function ByteAt(r: seq<Tag>, w: nat, j: nat): Tag
    requires j < |r| + w
  {
    if j < |r| then r[j]
    else if w <= |r| then r[j - |r|]
    else if j < w then EMPTY
    else r[j - w]
  }

  /** c is the complete control array of a table whose buckets carry the tags r. */
  ghost predicate Mirrors(c: seq<Tag>, r: seq<Tag>, w: nat) {
    |c| == |r| + w && forall j :: 0 <= j < |c| ==> MirrorAt(c, r, w, j)
  }

  predicate MirrorAt(c: seq<Tag>, r: seq<Tag>, w: nat, j: nat)
    requires j < |c| == |r| + w
  {
    c[j] == ByteAt(r, w, j)
  }

  /** A group of control bytes shows the buckets around it. */
  lemma MirrorsGroup(c: seq<Tag>, r: seq<Tag>, w: nat, pos: nat)
    requires Mirrors(c, r, w) && pos < |r|
    ensures Shows(c[pos..pos + w], r, w, pos)
  {
    var g := c[pos..pos + w];
    forall b | 0 <= b < w
      ensures LaneIs(g, r, w, pos, b)
    {
      assert MirrorAt(c, r, w, pos + b);
    }
  }

  /** The buckets determine all control bytes. */
  lemma MirrorsUnique(c: seq<Tag>, c': seq<Tag>, r: seq<Tag>, w: nat)
    requires Mirrors(c, r, w) && Mirrors(c', r, w)
    ensures c == c'
  {
    forall j | 0 <= j < |c|
      ensures c[j] == c'[j]
    {
      assert MirrorAt(c, r, w, j) && MirrorAt(c', r, w, j);
    }
  }

  /** Between the buckets and the copies of a small table there is nothing but EMPTY. */
  ghost predicate FillerEmpty(c: seq<Tag>, n: nat, w: nat) {
    n < w <= |c| ==> forall j :: n <= j < w ==> c[j] == EMPTY
  }

  lemma MirrorsFiller(c: seq<Tag>, r: seq<Tag>, w: nat)
    requires Mirrors(c, r, w)
    ensures FillerEmpty(c, |r|, w)
  {
    if |r| < w {
      forall j | |r| <= j < w
        ensures c[j] == EMPTY
      {
        assert MirrorAt(c, r, w, j);
      }
    }
  }

  /** The copies repeat the head: at once after the buckets, or after the filler of a small table. */
  lemma CopiesMirror(c: seq<Tag>, n: nat, w: nat)
    requires |c| == n + w && FillerEmpty(c, n, w)
    requires if n < w then forall j :: 0 <= j < n ==> c[w + j] == c[j] else forall j :: 0 <= j < w ==> c[n + j] == c[j]
    ensures Mirrors(c, c[..n], w)
  {
    forall j | 0 <= j < |c|
      ensures MirrorAt(c, c[..n], w, j)
    {
      if w <= j && n < w {
        var copied := j - w;
        assert c[w + copied] == c[copied];
      } else if n <= j && w <= n {
        var copied := j - n;
        assert c[n + copied] == c[copied];
      }
    }
  }

  /** Where the copy of control byte `index` lives. */
  function MirrorIndex(n: nat, w: nat, index: nat): (j: nat)
    requires n > 0
    ensures w <= j < n + w
  {
    Mask(index - w, n) + w
  }

  lemma MirrorIndexCases(n: nat, w: nat, i: nat)
    requires Geometry(n, w) && i < n
    ensures MirrorIndex(n, w, i) == if n < w then w + i else if i < w then n + i else i
  {
    if n < w {
      MaskDivides(i, n, w);
      MaskSmall(i, n);
    } else {
      MaskSmall(i - w, n);
    }
  }

  /** Writing a byte and its copy keeps the whole array in step with the buckets. */
  lemma MirrorsUpdate(c: seq<Tag>, r: seq<Tag>, w: nat, i: nat, t: Tag)
    requires Geometry(|r|, w) && i < |r| && Mirrors(c, r, w)
    ensures Mirrors(c[i := t][MirrorIndex(|r|, w, i) := t], r[i := t], w)
  {
    MirrorIndexCases(|r|, w, i);
    var c', r' := c[i := t][MirrorIndex(|r|, w, i) := t], r[i := t];
    forall j | 0 <= j < |c'|
      ensures MirrorAt(c', r', w, j)
    {
      assert MirrorAt(c, r, w, j);
    }
  }

  /** g is the group loaded at position pos. */
  ghost predicate Shows(g: seq<Tag>, r: seq<Tag>, w: nat, pos: nat) {
    pos < |r| && |g| == w && forall b :: 0 <= b < w ==> LaneIs(g, r, w, pos, b)
  }

  predicate LaneIs(g: seq<Tag>, r: seq<Tag>, w: nat, pos: nat, b: nat)
    requires pos < |r| && b < |g| == w
  {
    g[b] == ByteAt(r, w, pos + b)
  }

  /** The bucket a lane of the window at pos stands for. */
  function LaneBucket(n: nat, pos: nat, b: nat): (i: nat)
    requires n > 0
    ensures i < n
  {
    Mask(pos + b, n)
  }

  /** A lane shows the tag of its bucket, or is EMPTY filler in a table smaller than a group. */
  lemma LaneShows(r: seq<Tag>, w: nat, pos: nat, b: nat)
    requires Geometry(|r|, w) && pos < |r| && b < w
    ensures var i := LaneBucket(|r|, pos, b);
            && InWindow(|r|, w, pos, i)
            && (ByteAt(r, w, pos + b) == r[i] || (|r| < w && ByteAt(r, w, pos + b) == EMPTY))
  {
    var n := |r|;
    if w <= n {
      MaskSmall(pos + b, n);
      MaskSmall(LaneBucket(n, pos, b) - pos, n);
    } else if pos + b < n {
      MaskSmall(pos + b, n);
    } else if w <= pos + b {
      MaskDivides(pos + b - w, n, w);
      MaskSmall(pos + b - w, n);
    }
  }

  /** Every bucket inside a window has a lane that shows its tag. */
  lemma LaneOf(r: seq<Tag>, w: nat, pos: nat, i: nat) returns (b: nat)
    requires Geometry(|r|, w) && pos < |r| && i < |r| && InWindow(|r|, w, pos, i)
    ensures b < w && LaneBucket(|r|, pos, b) == i && ByteAt(r, w, pos + b) == r[i]
  {
    b := if i >= pos then i - pos else if |r| < w then w + i - pos else |r| + i - pos;
    MaskSmall(i - pos, |r|);
    MaskSmall(i, |r|);
    if i < pos && |r| < w {
      MaskDivides(i, |r|, w);
    } else if i < pos {
      MaskSmall(|r| + i, |r|);
    }
  }

  predicate EmptyIn(r: seq<Tag>, w: nat, pos: nat, i: nat) {
    i < |r| && InWindow(|r|, w, pos, i) && r[i] == EMPTY
  }

  predicate SpecialIn(r: seq<Tag>, w: nat, pos: nat, i: nat) {
    i < |r| && InWindow(|r|, w, pos, i) && !IsFull(r[i])
  }

  /** A search that stops at EMPTY stops at this window. */
  ghost predicate SeesEmpty(r: seq<Tag>, w: nat, pos: nat) {
    |r| < w || exists i: nat :: EmptyIn(r, w, pos, i)
  }

  /** A search for a free bucket stops at this window. */
  ghost predicate SeesSpecial(r: seq<Tag>, w: nat, pos: nat) {
    |r| < w || exists i: nat :: SpecialIn(r, w, pos, i)
  }

  /** Loading a group really tells whether the window shows EMPTY. */
  lemma GroupSeesEmpty(g: seq<Tag>, r: seq<Tag>, w: nat, pos: nat)
    requires Geometry(|r|, w) && Shows(g, r, w, pos)
    ensures AnyBitSet(MatchEmpty(g)) <==> SeesEmpty(r, w, pos)
  {
    if AnyBitSet(MatchEmpty(g)) {
      var b :| 0 <= b < |g| && MatchEmpty(g)[b];
      LaneShows(r, w, pos, b);
      assert LaneIs(g, r, w, pos, b);
      assert |r| < w || EmptyIn(r, w, pos, LaneBucket(|r|, pos, b));
    }
    if |r| < w {
      assert LaneIs(g, r, w, pos, |r| - pos);
      assert MatchEmpty(g)[|r| - pos];
    } else if SeesEmpty(r, w, pos) {
      var i: nat :| EmptyIn(r, w, pos, i);
      var b := LaneOf(r, w, pos, i);
      assert LaneIs(g, r, w, pos, b);
      assert MatchEmpty(g)[b];
    }
  }

  lemma GroupSeesSpecial(g: seq<Tag>, r: seq<Tag>, w: nat, pos: nat)
    requires Geometry(|r|, w) && Shows(g, r, w, pos)
    ensures AnyBitSet(MatchEmptyOrDeleted(g)) <==> SeesSpecial(r, w, pos)
  {
    if AnyBitSet(MatchEmptyOrDeleted(g)) {
      var b :| 0 <= b < |g| && MatchEmptyOrDeleted(g)[b];
      LaneShows(r, w, pos, b);
      assert LaneIs(g, r, w, pos, b);
      assert |r| < w || SpecialIn(r, w, pos, LaneBucket(|r|, pos, b));
    }
    if |r| < w {
      assert LaneIs(g, r, w, pos, |r| - pos);
      assert MatchEmptyOrDeleted(g)[|r| - pos];
    } else if SeesSpecial(r, w, pos) {
      var i: nat :| SpecialIn(r, w, pos, i);
      var b := LaneOf(r, w, pos, i);
      assert LaneIs(g, r, w, pos, b);
      assert MatchEmptyOrDeleted(g)[b];
    }
  }

  /** The test by which an erased bucket becomes a tombstone: EMPTY-free runs on both sides add up to a group. */
  predicate NeedsTombstone(before: seq<Tag>, after: seq<Tag>) {
    LeadingZeros(MatchEmpty(before)) + TrailingZeros(MatchEmpty(after)) >= |after|
  }

  /** Some search may have passed over this bucket: a window that shows it shows no EMPTY. */
  ghost predicate PassedOver(r: seq<Tag>, w: nat, index: nat)
    requires index < |r|
  {
    exists pos :: 0 <= pos < |r| && InWindow(|r|, w, pos, index) && !SeesEmpty(r, w, pos)
  }

  /** A tombstone is left exactly when some window over the bucket shows no EMPTY. */
  lemma TombstoneExact(before: seq<Tag>, after: seq<Tag>, r: seq<Tag>, w: nat, index: nat)
    requires Geometry(|r|, w) && index < |r| && IsFull(r[index])
    requires Shows(before, r, w, Mask(index - w, |r|)) && Shows(after, r, w, index)
    ensures NeedsTombstone(before, after) <==> PassedOver(r, w, index)
  {
    var n := |r|;
    if n < w {
      SmallNoTombstone(before, after, r, w, index);
    } else {
      if NeedsTombstone(before, after) {
        assert LaneIs(after, r, w, index, 0);
        assert !MatchEmpty(after)[0];
        var pos := Mask(index - (w - TrailingZeros(MatchEmpty(after))), n);
        WindowBack(n, w, index, w - TrailingZeros(MatchEmpty(after)));
        WindowRuns(before, after, r, w, index, pos);
      }
      forall pos | 0 <= pos < n && InWindow(n, w, pos, index) && !SeesEmpty(r, w, pos)
        ensures NeedsTombstone(before, after)
      {
        WindowRuns(before, after, r, w, index, pos);
      }
    }
  }

  lemma WindowBack(n: nat, w: nat, index: nat, a: nat)
    requires 0 < w <= n && index < n && a < w
    ensures Mask(index - Mask(index - a, n), n) == a
  {
    MaskSmall(index - a, n);
    MaskSmall(index - Mask(index - a, n), n);
  }

  lemma SmallNoTombstone(before: seq<Tag>, after: seq<Tag>, r: seq<Tag>, w: nat, index: nat)
    requires Geometry(|r|, w) && index < |r| < w
    requires Shows(before, r, w, Mask(index - w, |r|)) && Shows(after, r, w, index)
    ensures !NeedsTombstone(before, after)
  {
    MaskDivides(index, |r|, w);
    MaskSmall(index, |r|);
    assert LaneIs(before, r, w, Mask(index - w, |r|), |r| - index) && LaneIs(after, r, w, index, |r| - index);
    assert MatchEmpty(before)[|r| - index] && MatchEmpty(after)[|r| - index];
  }

  /** The window w places back and the one at `index` overlap a window over `index` lane by lane. */
  lemma OverlapLanes(n: nat, w: nat, index: nat, pos: nat, d: nat)
    requires 0 < w <= n && index < n && pos < n && d < w && InWindow(n, w, pos, index)
    ensures var a := Mask(index - pos, n);
            LaneBucket(n, pos, d) ==
              if d < a then LaneBucket(n, Mask(index - w, n), d + w - a) else LaneBucket(n, index, d - a)
  {
    var a := Mask(index - pos, n);
    MaskSmall(index - pos, n);
    MaskSmall(pos + d, n);
    MaskSmall(index - w, n);
    if d < a {
      MaskSmall(Mask(index - w, n) + (d + w - a), n);
    } else {
      MaskSmall(index + (d - a), n);
    }
  }

  /** A window over `index` shows no EMPTY exactly when the runs on both sides reach its ends. */
  lemma WindowRuns(before: seq<Tag>, after: seq<Tag>, r: seq<Tag>, w: nat, index: nat, pos: nat)
    requires Geometry(|r|, w) && w <= |r| && index < |r| && pos < |r| && InWindow(|r|, w, pos, index)
    requires Shows(before, r, w, Mask(index - w, |r|)) && Shows(after, r, w, index)
    ensures var a := Mask(index - pos, |r|);
            !SeesEmpty(r, w, pos) <==>
              LeadingZeros(MatchEmpty(before)) >= a && TrailingZeros(MatchEmpty(after)) >= w - a
  {
    var n, a := |r|, Mask(index - pos, |r|);
    var x, y := MatchEmpty(before), MatchEmpty(after);
    if LeadingZeros(x) < a {
      LaneEmpty(before, after, r, w, index, pos, a - 1 - LeadingZeros(x));
    } else if TrailingZeros(y) < w - a {
      LaneEmpty(before, after, r, w, index, pos, a + TrailingZeros(y));
    } else if SeesEmpty(r, w, pos) {
      var i: nat :| EmptyIn(r, w, pos, i);
      var d := LaneOf(r, w, pos, i);
      WindowLane(before, after, r, w, index, pos, d);
    }
  }

  lemma LaneEmpty(before: seq<Tag>, after: seq<Tag>, r: seq<Tag>, w: nat, index: nat, pos: nat, d: nat)
    requires Geometry(|r|, w) && w <= |r| && index < |r| && pos < |r| && InWindow(|r|, w, pos, index) && d < w
    requires Shows(before, r, w, Mask(index - w, |r|)) && Shows(after, r, w, index)
    requires var a := Mask(index - pos, |r|);
             (if d < a then before[d + w - a] else after[d - a]) == EMPTY
    ensures SeesEmpty(r, w, pos)
  {
    WindowLane(before, after, r, w, index, pos, d);
    LaneShows(r, w, pos, d);
    assert EmptyIn(r, w, pos, LaneBucket(|r|, pos, d));
  }

  lemma WindowLane(before: seq<Tag>, after: seq<Tag>, r: seq<Tag>, w: nat, index: nat, pos: nat, d: nat)
    requires Geometry(|r|, w) && w <= |r| && index < |r| && pos < |r| && InWindow(|r|, w, pos, index) && d < w
    requires Shows(before, r, w, Mask(index - w, |r|)) && Shows(after, r, w, index)
    ensures var a := Mask(index - pos, |r|);
            ByteAt(r, w, pos + d) == if d < a then before[d + w - a] else after[d - a]
  {
    OverlapLanes(|r|, w, index, pos, d);
    LargeLane(r, w, pos, d);
    var a := Mask(index - pos, |r|);
    if d < a {
      LargeLane(r, w, Mask(index - w, |r|), d + w - a);
      assert LaneIs(before, r, w, Mask(index - w, |r|), d + w - a);
    } else {
      LargeLane(r, w, index, d - a);
      assert LaneIs(after, r, w, index, d - a);
    }
  }

  /** In a table of at least one group every lane shows its bucket. */
  lemma LargeLane(r: seq<Tag>, w: nat, pos: nat, b: nat)
    requires Geometry(|r|, w) && w <= |r| && pos < |r| && b < w
    ensures ByteAt(r, w, pos + b) == r[LaneBucket(|r|, pos, b)]
  {
    LaneShows(r, w, pos, b);
  }
}
