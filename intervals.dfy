/**
 * Inclusive integer ranges of 2025/day5/2025-day5.ts: merging overlapping
 * ranges in place (mergeRanges), counting the integers they span (part2),
 * and counting the numbers that lie in some range, naively (part1) and
 * with two cursors over sorted inputs (part1fast).
 */
module Intervals {
  import opened Sorting

  /** The inclusive range start .. end. */
  datatype Range = Range(start: int, end: int)

  /** The start value mergeRanges writes to mark a range as absorbed. */
  const Deleted: int := -1

  function StartOf(r: Range): int { r.start }
  function EndOf(r: Range): int { r.end }
  function Value(v: int): int { v }

  /** A range read from the puzzle input: non-negative and non-empty. */
  predicate WellFormed(r: Range)
  {
    0 <= r.start <= r.end
  }

  predicate Alive(r: Range)
  {
    r.start != Deleted
  }

  predicate In(r: Range, v: int)
  {
    r.start <= v <= r.end
  }

  /** m covers all of r. */
  predicate Within(r: Range, m: Range)
  {
    m.start <= r.start && r.end <= m.end
  }

  // ------------------------------------------------------------------
  // The integers a list of ranges covers
  // ------------------------------------------------------------------

  function Span(r: Range): (vs: set<int>)
    ensures forall v :: v in vs <==> In(r, v)
    decreases if r.start <= r.end then r.end - r.start + 1 else 0
  {
    if r.start > r.end then {} else Span(Range(r.start, r.end - 1)) + {r.end}
  }

  /** What a slot of the working array covers: nothing once absorbed. */
  function Part(r: Range): set<int>
  {
    if Alive(r) then Span(r) else {}
  }

  function Cover(s: seq<Range>): set<int>
  {
    if s == [] then {} else Cover(s[..|s| - 1]) + Part(s[|s| - 1])
  }

  lemma {:induction false} CoverAppend(s: seq<Range>, t: seq<Range>)
    ensures Cover(s + t) == Cover(s) + Cover(t)
    decreases |t|
  {
    if t != [] {
      assert (s + t)[..|s + t| - 1] == s + t[..|t| - 1];
      CoverAppend(s, t[..|t| - 1]);
    } else {
      assert s + t == s;
    }
  }

  /** v is covered exactly when some live range holds it. */
  lemma {:induction false} CoverMember(s: seq<Range>, v: int)
    ensures v in Cover(s) <==> exists r :: r in s && Alive(r) && In(r, v)
    decreases |s|
  {
    if s != [] {
      var init := s[..|s| - 1];
      CoverMember(init, v);
      assert s == init + [s[|s| - 1]];
      if v in Cover(init) {
        var r :| r in init && Alive(r) && In(r, v);
        assert r in s;
      }
      if exists r :: r in s && Alive(r) && In(r, v) {
        var r :| r in s && Alive(r) && In(r, v);
        if r != s[|s| - 1] {
          assert r in init;
        }
      }
    }
  }

  /** Reordering the ranges does not change what they cover. */
  lemma CoverPermutation(s: seq<Range>, t: seq<Range>)
    requires multiset(s) == multiset(t)
    ensures Cover(s) == Cover(t)
  {
    forall v
      ensures v in Cover(s) <==> v in Cover(t)
    {
      CoverMember(s, v);
      CoverMember(t, v);
      forall r | r in s
        ensures r in t
      {
        assert r in multiset(s);
      }
      forall r | r in t
        ensures r in s
      {
        assert r in multiset(t);
      }
    }
  }

  /** Replacing the ranges at j and i by ones covering the same integers keeps the cover. */
  lemma CoverReplaceTwo(s: seq<Range>, j: int, i: int, a: Range, b: Range)
    requires 0 <= j < i < |s|
    requires Part(a) + Part(b) == Part(s[j]) + Part(s[i])
    ensures Cover(s[j := a][i := b]) == Cover(s)
  {
    var t := s[j := a][i := b];
    var u, w := s[..i], t[..i];
    assert w == u[j := a] && t[i] == b && t[i + 1..] == s[i + 1..];
    assert w[..j] == u[..j] && w[j + 1..] == u[j + 1..] && w[j] == a && u[j] == s[j];
    var A, B, C := Cover(u[..j]), Cover(u[j + 1..]), Cover(s[i + 1..]);
    assert Cover(t) == A + Part(a) + B + Part(b) + C by {
      CoverSplit(t, i);
      CoverSplit(w, j);
    }
    assert Cover(s) == A + Part(s[j]) + B + Part(s[i]) + C by {
      CoverSplit(s, i);
      CoverSplit(u, j);
    }
  }

  /** The cover of s splits around position k. */
  lemma CoverSplit(s: seq<Range>, k: int)
    requires 0 <= k < |s|
    ensures Cover(s) == Cover(s[..k]) + Part(s[k]) + Cover(s[k + 1..])
  {
    var p, x, q := s[..k], s[k], s[k + 1..];
    assert s[..k + 1] == p + [x];
    assert s == s[..k + 1] + q;
    CoverAppend(p + [x], q);
    assert Cover(p + [x]) == Cover(p) + Part(x) by {
      assert (p + [x])[..|p|] == p;
    }
  }

  /** Absorbing a into b: b's start drops to cover a, whose end lies in b. */
  lemma AbsorbCovers(a: Range, b: Range)
    requires WellFormed(a) && WellFormed(b)
    requires b.start <= a.end <= b.end
    ensures Part(Range(Deleted, a.end)) + Part(Range(if b.start < a.start then b.start else a.start, b.end))
         == Part(a) + Part(b)
  {
    var lower := if b.start < a.start then b.start else a.start;
    forall v
      ensures v in Part(Range(lower, b.end)) <==> v in Part(a) || v in Part(b)
    {
    }
  }

  /** A range with start <= end + 1 holds end - start + 1 integers. */
  lemma {:induction false} SpanSize(r: Range)
    requires r.start <= r.end + 1
    ensures |Span(r)| == r.end - r.start + 1
    decreases r.end - r.start + 1
  {
    if r.start == r.end + 1 {
      assert Span(r) == {};
    } else {
      var shorter := Range(r.start, r.end - 1);
      SpanSize(shorter);
      assert r.end !in Span(shorter);
    }
  }

  // ------------------------------------------------------------------
  // Sorted, disjoint ranges and their total length
  // ------------------------------------------------------------------

  /** Sorted by end with gaps: every range starts after the previous one ends. */
  predicate Separated(s: seq<Range>)
  {
    forall p, q :: 0 <= p < q < |s| ==> s[p].end < s[q].start
  }

  /** The reduce of part2: the sum of end - start + 1. */
  function TotalLength(s: seq<Range>): int
  {
    if s == [] then 0
    else TotalLength(s[..|s| - 1]) + (s[|s| - 1].end - s[|s| - 1].start + 1)
  }

  /** Over separated well-formed ranges the total length counts every covered integer once. */
  lemma {:induction false} SeparatedCount(s: seq<Range>)
    requires forall k :: 0 <= k < |s| ==> WellFormed(s[k])
    requires Separated(s)
    ensures |Cover(s)| == TotalLength(s)
    decreases |s|
  {
    if s != [] {
      var init, last := s[..|s| - 1], s[|s| - 1];
      SeparatedCount(init);
      forall v | v in Cover(init)
        ensures v < last.start
      {
        CoverMember(init, v);
        var r :| r in init && Alive(r) && In(r, v);
        var k :| 0 <= k < |init| && init[k] == r;
        assert s[k] == r;
      }
      assert Cover(init) !! Part(last);
      SpanSize(last);
    }
  }

  // ------------------------------------------------------------------
  // The surviving ranges
  // ------------------------------------------------------------------

  /** The filter at the end of mergeRanges: the ranges not marked absorbed. */
  function Survivors(s: seq<Range>): (r: seq<Range>)
    ensures forall x :: x in r <==> x in s && Alive(x)
  {
    if s == [] then []
    else
      var init := Survivors(s[..|s| - 1]);
      assert s == s[..|s| - 1] + [s[|s| - 1]];
      if Alive(s[|s| - 1]) then init + [s[|s| - 1]] else init
  }

  /** The ends of the ranges, in order. */
  function Ends(s: seq<Range>): (e: seq<int>)
    ensures |e| == |s| && forall k :: 0 <= k < |s| ==> e[k] == s[k].end
  {
    seq(|s|, k requires 0 <= k < |s| => s[k].end)
  }

  /** Taking out the element at j takes one copy of it out of the multiset. */
  lemma MultisetRemove<T>(t: seq<T>, j: int)
    requires 0 <= j < |t|
    ensures multiset(t[..j] + t[j + 1..]) == multiset(t) - multiset{t[j]}
  {
    assert t == t[..j] + [t[j]] + t[j + 1..];
  }

  /** An element of t's multiset sits at some index of t. */
  lemma Find<T>(t: seq<T>, x: T) returns (j: int)
    requires x in multiset(t)
    ensures 0 <= j < |t| && t[j] == x
  {
    assert x in t;
    j :| 0 <= j < |t| && t[j] == x;
  }

  /** Taking out the range at j takes its end out of the ends. */
  lemma EndsRemove(t: seq<Range>, j: int)
    requires 0 <= j < |t|
    ensures multiset(Ends(t)) == multiset(Ends(t[..j] + t[j + 1..])) + multiset{t[j].end}
  {
    var e := Ends(t);
    assert Ends(t[..j] + t[j + 1..]) == e[..j] + e[j + 1..];
    assert e == e[..j] + [e[j]] + e[j + 1..];
  }

  lemma EndsLast(s: seq<Range>)
    requires s != []
    ensures multiset(Ends(s)) == multiset(Ends(s[..|s| - 1])) + multiset{s[|s| - 1].end}
  {
    assert Ends(s) == Ends(s[..|s| - 1]) + [s[|s| - 1].end];
  }

  /** Reordering the ranges reorders their ends. */
  lemma {:induction false} EndsPermutation(s: seq<Range>, t: seq<Range>)
    requires multiset(s) == multiset(t)
    ensures multiset(Ends(s)) == multiset(Ends(t))
    decreases |s|
  {
    if s != [] {
      var j := Find(t, s[|s| - 1]);
      RemoveLast(s, t, j);
      EndsPermutation(s[..|s| - 1], t[..j] + t[j + 1..]);
      EndsLast(s);
      EndsRemove(t, j);
    }
  }

  /** Taking the last element of s and an equal element of t out of equal multisets leaves equal multisets. */
  lemma RemoveLast<T>(s: seq<T>, t: seq<T>, j: int)
    requires s != [] && 0 <= j < |t| && t[j] == s[|s| - 1] && multiset(s) == multiset(t)
    ensures multiset(s[..|s| - 1]) == multiset(t[..j] + t[j + 1..])
  {
    assert s == s[..|s| - 1] + [s[|s| - 1]];
    MultisetRemove(t, j);
  }

  lemma {:induction false} SurvivorsCover(s: seq<Range>)
    ensures Cover(Survivors(s)) == Cover(s)
    decreases |s|
  {
    if s != [] {
      var init := s[..|s| - 1];
      SurvivorsCover(init);
      if Alive(s[|s| - 1]) {
        var r := Survivors(init) + [s[|s| - 1]];
        assert r[..|r| - 1] == Survivors(init);
      }
    }
  }

  /** Live ranges that are pairwise separated stay separated after the filter. */
  lemma {:induction false} SurvivorsSeparated(s: seq<Range>)
    requires forall p, q :: 0 <= p < q < |s| && Alive(s[p]) && Alive(s[q]) ==> s[p].end < s[q].start
    ensures Separated(Survivors(s))
    decreases |s|
  {
    if s != [] {
      var init, last := s[..|s| - 1], s[|s| - 1];
      SurvivorsSeparated(init);
      if Alive(last) {
        var r := Survivors(init);
        forall m | 0 <= m < |r|
          ensures r[m].end < last.start
        {
          assert r[m] in r;
          var k :| 0 <= k < |init| && init[k] == r[m];
          assert s[k] == r[m];
        }
      }
    }
  }

  // ------------------------------------------------------------------
  // mergeRanges and part2
  // ------------------------------------------------------------------

  /**
   * mergeRanges: sort by end, then for each range B, walk back over the
   * earlier ranges, absorbing every live A with B.start <= A.end (B's
   * start drops to the smaller start, A is marked deleted) and stopping
   * at the first live A that ends before B starts.
   */
  method MergeRanges(ranges: array<Range>) returns (merged: seq<Range>)
    requires forall k :: 0 <= k < ranges.Length ==> WellFormed(ranges[k])
    modifies ranges
    ensures SortedBy(ranges[..], EndOf) && multiset(Ends(ranges[..])) == multiset(Ends(old(ranges[..])))
    ensures merged == Survivors(ranges[..])
    ensures Cover(merged) == Cover(old(ranges[..]))
    ensures forall m :: 0 <= m < |merged| ==> WellFormed(merged[m])
    ensures Separated(merged)
    ensures forall k :: 0 <= k < |old(ranges[..])| ==>
      exists m :: 0 <= m < |merged| && Within(old(ranges[..])[k], merged[m])
  {
    ghost var input := ranges[..];
    SortInPlace(ranges, EndOf);
    ghost var sorted := ranges[..];
    EndsPermutation(sorted, input);
    var n := ranges.Length;
    ghost var owner := MergeStart(input, sorted);
    var i := 1;
    while i < n
      invariant n == 0 || 1 <= i <= n
      invariant Merging(ranges[..], sorted, owner, i)
      invariant Cover(ranges[..]) == Cover(sorted) && SameEnds(ranges[..], sorted)
    {
      owner := MergeBackwards(ranges, i, sorted, owner);
      i := i + 1;
    }
    merged := Survivors(ranges[..]);
    ghost var last := ranges[..];
    SameEndsEnds(last, sorted);
    SurvivorsFacts(last, sorted, owner, input);
  }

  /** Right after the sort, every range is live and owns itself. */
  lemma MergeStart(input: seq<Range>, sorted: seq<Range>) returns (owner: seq<int>)
    requires forall k :: 0 <= k < |input| ==> WellFormed(input[k])
    requires multiset(sorted) == multiset(input) && SortedBy(sorted, EndOf)
    ensures Merging(sorted, sorted, owner, 1) && Cover(sorted) == Cover(input)
  {
    CoverPermutation(input, sorted);
    forall k | 0 <= k < |sorted|
      ensures WellFormed(sorted[k])
    {
      assert sorted[k] in multiset(input);
    }
    owner := seq(|sorted|, k => k);
  }

  /**
   * The state of mergeRanges before the pass for index i: ends sorted,
   * live ranges well formed, the live ranges among the first i separated,
   * the ranges from i on not yet touched (so live), and every sorted input
   * range within a live range (its owner).
   */
  predicate Merging(a: seq<Range>, sorted: seq<Range>, owner: seq<int>, i: int)
  {
    SortedBy(a, EndOf) && LiveWellFormed(a) && LiveSeparated(a, i) && Owned(a, sorted, owner) &&
    forall k :: i <= k < |a| && 0 <= k ==> Alive(a[k])
  }

  predicate LiveWellFormed(a: seq<Range>)
  {
    forall k :: 0 <= k < |a| && Alive(a[k]) ==> WellFormed(a[k])
  }

  /** The live ranges among the first i are separated. */
  predicate LiveSeparated(a: seq<Range>, i: int)
  {
    forall p, q :: 0 <= p < q < i && q < |a| && Alive(a[p]) && Alive(a[q]) ==> a[p].end < a[q].start
  }

  /** Every sorted input range lies within the live range owner[k]. */
  predicate Owned(a: seq<Range>, sorted: seq<Range>, owner: seq<int>)
  {
    |owner| == |sorted| == |a| &&
    forall k {:trigger owner[k]} :: 0 <= k < |a| ==>
      0 <= owner[k] < |a| && Alive(a[owner[k]]) && Within(sorted[k], a[owner[k]])
  }

  /** What the filter of mergeRanges returns, once every range has had its pass. */
  lemma SurvivorsFacts(a: seq<Range>, sorted: seq<Range>, owner: seq<int>, input: seq<Range>)
    requires multiset(sorted) == multiset(input)
    requires Merging(a, sorted, owner, |a|)
    ensures Cover(Survivors(a)) == Cover(a)
    ensures forall m :: 0 <= m < |Survivors(a)| ==> WellFormed(Survivors(a)[m])
    ensures Separated(Survivors(a))
    ensures forall k :: 0 <= k < |input| ==>
      exists m :: 0 <= m < |Survivors(a)| && Within(input[k], Survivors(a)[m])
  {
    var merged := Survivors(a);
    SurvivorsCover(a);
    SurvivorsSeparated(a);
    forall m | 0 <= m < |merged|
      ensures WellFormed(merged[m])
    {
      assert merged[m] in merged;
      var k :| 0 <= k < |a| && a[k] == merged[m];
    }
    forall k | 0 <= k < |input|
      ensures exists m :: 0 <= m < |merged| && Within(input[k], merged[m])
    {
      assert input[k] in multiset(sorted);
      var k' :| 0 <= k' < |sorted| && sorted[k'] == input[k];
      assert a[owner[k']] in merged;
    }
  }

  /**
   * Absorbing the live range at j into the live range at i (j < i, so
   * a[j] ends no later) keeps the merge state and what is covered.
   */
  lemma AbsorbKeeps(a: seq<Range>, sorted: seq<Range>, owner: seq<int>, j: int, i: int)
    returns (a': seq<Range>, owner': seq<int>)
    requires 0 <= j < i < |a| && Merging(a, sorted, owner, i)
    requires Alive(a[j]) && a[i].start <= a[j].end
    requires forall p :: j < p < i ==> !Alive(a[p])
    ensures a' == Absorbed(a, j, i)
    ensures forall p :: j <= p < i ==> !Alive(a'[p])
    ensures Merging(a', sorted, owner', i) && Cover(a') == Cover(a)
  {
    var A, B := a[j], a[i];
    assert A.end <= B.end by {
      assert EndOf(a[j]) <= EndOf(a[i]);
    }
    var lower := if B.start < A.start then B.start else A.start;
    var b := Range(lower, B.end);
    a' := a[j := Range(Deleted, A.end)][i := b];
    AbsorbCovers(A, B);
    CoverReplaceTwo(a, j, i, Range(Deleted, A.end), b);
    Reown(a, sorted, owner, j, i, b);
    owner' := seq(|owner|, k requires 0 <= k < |owner| => if owner[k] == j then i else owner[k]);
    SameEndsSorted(a, a');
    DeadSeparated(a, j, i, b);
    DeadWellFormed(a, j, i, b, a');
    assert forall p :: j <= p < i ==> !Alive(a'[p]) by {
      assert forall p :: j < p < i ==> a'[p] == a[p];
    }
  }

  /** Marking j deleted and putting a well-formed live b at i keeps the live ranges well formed, and those from i on live. */
  lemma DeadWellFormed(a: seq<Range>, j: int, i: int, b: Range, a': seq<Range>)
    requires 0 <= j < i < |a| && LiveWellFormed(a) && WellFormed(b)
    requires forall k :: i <= k < |a| ==> Alive(a[k])
    requires a' == a[j := Range(Deleted, a[j].end)][i := b]
    ensures LiveWellFormed(a')
    ensures forall k :: i <= k < |a'| ==> Alive(a'[k])
  {
  }

  /** Changing starts only keeps a list sorted by end. */
  lemma SameEndsSorted(a: seq<Range>, a': seq<Range>)
    requires SortedBy(a, EndOf) && |a'| == |a|
    requires forall k :: 0 <= k < |a| ==> a'[k].end == a[k].end
    ensures SortedBy(a', EndOf)
  {
    forall p, q | 0 <= p < q < |a'|
      ensures EndOf(a'[p]) <= EndOf(a'[q])
    {
      assert EndOf(a[p]) <= EndOf(a[q]);
    }
  }

  /** Marking j deleted and rewriting i keeps the live ranges before i separated. */
  lemma DeadSeparated(a: seq<Range>, j: int, i: int, b: Range)
    requires 0 <= j < i < |a| && LiveSeparated(a, i)
    ensures LiveSeparated(a[j := Range(Deleted, a[j].end)][i := b], i)
  {
    var a' := a[j := Range(Deleted, a[j].end)][i := b];
    forall p, q | 0 <= p < q < i && q < |a'| && Alive(a'[p]) && Alive(a'[q])
      ensures a'[p].end < a'[q].start
    {
      assert a'[p] == a[p] && a'[q] == a[q];
    }
  }

  /** Redirecting the owners of j to i, when i now covers j's old range. */
  lemma Reown(a: seq<Range>, sorted: seq<Range>, owner: seq<int>, j: int, i: int, b: Range)
    requires Owned(a, sorted, owner) && 0 <= j < i < |a|
    requires Alive(b) && Within(a[j], b) && Within(a[i], b)
    ensures Owned(a[j := Range(Deleted, a[j].end)][i := b], sorted,
                  seq(|owner|, k requires 0 <= k < |owner| => if owner[k] == j then i else owner[k]))
  {
  }

  /**
   * One pass of mergeRanges' inner loop for B = ranges[i]: walk back from
   * i - 1, skipping deleted ranges and absorbing overlapping ones, up to
   * the first live range that ends before B starts.
   */
  method MergeBackwards(ranges: array<Range>, i: int, ghost sorted: seq<Range>, ghost owner: seq<int>)
    returns (ghost owner': seq<int>)
    requires 1 <= i < ranges.Length && Merging(ranges[..], sorted, owner, i)
    modifies ranges
    ensures Merging(ranges[..], sorted, owner', i + 1)
    ensures Cover(ranges[..]) == Cover(old(ranges[..])) && SameEnds(ranges[..], old(ranges[..]))
  {
    owner' := owner;
    ghost var orig := ranges[..];
    ghost var cur := orig;
    var j := i - 1;
    while j >= 0
      invariant -1 <= j < i && ranges[..] == cur
      invariant Merging(cur, sorted, owner', i)
      invariant forall p :: j < p < i ==> !Alive(cur[p])
      invariant Cover(cur) == Cover(orig) && SameEnds(cur, orig)
    {
      var A, B := ranges[j], ranges[i];
      assert A == cur[j] && B == cur[i];
      if A.start == Deleted {
        assert !Alive(cur[j]);
        j := j - 1;
        continue;
      }
      if B.start <= A.end {
        AbsorbedSameEnds(cur, j, i, orig);
        cur, owner' := AbsorbKeeps(cur, sorted, owner', j, i);
        Absorb(ranges, j, i);
        j := j - 1;
      } else {
        SeparatedBefore(cur, j, i);
        break;
      }
    }
    PassDone(cur, sorted, owner', i);
  }

  /** The ranges after B = a[i] absorbs A = a[j]. */
  function Absorbed(a: seq<Range>, j: int, i: int): seq<Range>
    requires 0 <= j < i < |a|
  {
    a[j := Range(Deleted, a[j].end)][i := Range(if a[i].start < a[j].start then a[i].start else a[j].start, a[i].end)]
  }

  /** a and b have the same length and the same ends, slot by slot. */
  predicate SameEnds(a: seq<Range>, b: seq<Range>)
  {
    |a| == |b| && forall k :: 0 <= k < |a| ==> a[k].end == b[k].end
  }

  /** An absorption changes starts only. */
  lemma AbsorbedSameEnds(a: seq<Range>, j: int, i: int, orig: seq<Range>)
    requires 0 <= j < i < |a| && SameEnds(a, orig)
    ensures SameEnds(Absorbed(a, j, i), orig)
  {
  }

  lemma SameEndsEnds(a: seq<Range>, b: seq<Range>)
    requires SameEnds(a, b)
    ensures Ends(a) == Ends(b)
  {
  }

  /** B = ranges[i] takes the smaller start of the two; A = ranges[j] is marked deleted. */
  method Absorb(ranges: array<Range>, j: int, i: int)
    requires 0 <= j < i < ranges.Length
    modifies ranges
    ensures ranges[..] == Absorbed(old(ranges[..]), j, i)
  {
    var A, B := ranges[j], ranges[i];
    ranges[i] := Range(if B.start < A.start then B.start else A.start, B.end);
    ranges[j] := Range(Deleted, A.end);
  }

  /** Stopping at a live range that ends before B starts: all live ranges before B end before it. */
  lemma SeparatedBefore(a: seq<Range>, j: int, i: int)
    requires 0 <= j < i < |a| && LiveSeparated(a, i) && LiveWellFormed(a)
    requires Alive(a[j]) && a[j].end < a[i].start
    requires forall p :: j < p < i ==> !Alive(a[p])
    ensures forall p :: 0 <= p < i && Alive(a[p]) ==> a[p].end < a[i].start
  {
    forall p | 0 <= p < i && Alive(a[p])
      ensures a[p].end < a[i].start
    {
      if p < j {
        assert a[p].end < a[j].start;
      }
    }
  }

  /** Once every live range before i ends before a[i] starts, the pass for i is complete. */
  lemma PassDone(a: seq<Range>, sorted: seq<Range>, owner: seq<int>, i: int)
    requires 0 <= i < |a| && Merging(a, sorted, owner, i)
    requires forall p :: 0 <= p < i && Alive(a[p]) ==> a[p].end < a[i].start
    ensures Merging(a, sorted, owner, i + 1)
  {
  }

  /** part2: the number of distinct integers the ranges cover. */
  method Part2(ranges: array<Range>) returns (count: int)
    requires forall k :: 0 <= k < ranges.Length ==> WellFormed(ranges[k])
    modifies ranges
    ensures count == |Cover(old(ranges[..]))|
    ensures SortedBy(ranges[..], EndOf) && multiset(Ends(ranges[..])) == multiset(Ends(old(ranges[..])))
  {
    var merged := MergeRanges(ranges);
    SeparatedCount(merged);
    count := TotalLength(merged);
  }

  // ------------------------------------------------------------------
  // part1 and part1fast
  // ------------------------------------------------------------------

  predicate InAny(ranges: seq<Range>, v: int)
  {
    exists p :: 0 <= p < |ranges| && In(ranges[p], v)
  }

  /** How many entries of nums lie in at least one range. */
  function CountCovered(nums: seq<int>, ranges: seq<Range>): (c: nat)
    ensures c <= |nums|
  {
    if nums == [] then 0
    else CountCovered(nums[..|nums| - 1], ranges) + (if InAny(ranges, nums[|nums| - 1]) then 1 else 0)
  }

  lemma {:induction false} CountAppend(s: seq<int>, t: seq<int>, ranges: seq<Range>)
    ensures CountCovered(s + t, ranges) == CountCovered(s, ranges) + CountCovered(t, ranges)
    decreases |t|
  {
    if t == [] {
      assert s + t == s;
    } else {
      assert (s + t)[..|s + t| - 1] == s + t[..|t| - 1];
      CountAppend(s, t[..|t| - 1], ranges);
    }
  }

  /** The count depends on the numbers, not on their order. */
  lemma {:induction false} CountPermutation(s: seq<int>, t: seq<int>, ranges: seq<Range>)
    requires multiset(s) == multiset(t)
    ensures CountCovered(s, ranges) == CountCovered(t, ranges)
    decreases |s|
  {
    if s != [] {
      var x, init := s[|s| - 1], s[..|s| - 1];
      assert s == init + [x];
      assert x in multiset(t);
      var k :| 0 <= k < |t| && t[k] == x;
      CountRemove(t, k, ranges);
      assert multiset(init) == multiset(s) - multiset{x};
      CountPermutation(init, t[..k] + t[k + 1..], ranges);
    }
  }

  /** Taking the number at k out of t: its multiset loses it, the count loses its share. */
  lemma CountRemove(t: seq<int>, k: int, ranges: seq<Range>)
    requires 0 <= k < |t|
    ensures multiset(t[..k] + t[k + 1..]) == multiset(t) - multiset{t[k]}
    ensures CountCovered(t, ranges) ==
            CountCovered(t[..k] + t[k + 1..], ranges) + (if InAny(ranges, t[k]) then 1 else 0)
  {
    var x, p, q := t[k], t[..k], t[k + 1..];
    assert t == (p + [x]) + q;
    assert multiset(t) == multiset(p) + multiset{x} + multiset(q);
    CountAppend(p + [x], q, ranges);
    CountAppend(p, [x], ranges);
    CountAppend(p, q, ranges);
    assert CountCovered([x], ranges) == (if InAny(ranges, x) then 1 else 0) by {
      assert [x][..0] == [];
    }
  }

  /** Whether a number is covered depends on the ranges, not on their order. */
  lemma InAnyPermutation(r1: seq<Range>, r2: seq<Range>, v: int)
    requires multiset(r1) == multiset(r2)
    ensures InAny(r1, v) <==> InAny(r2, v)
  {
    if InAny(r1, v) {
      var p :| 0 <= p < |r1| && In(r1[p], v);
      assert r1[p] in multiset(r2);
      var q :| 0 <= q < |r2| && r2[q] == r1[p];
    }
    if InAny(r2, v) {
      var p :| 0 <= p < |r2| && In(r2[p], v);
      assert r2[p] in multiset(r1);
      var q :| 0 <= q < |r1| && r1[q] == r2[p];
    }
  }

  lemma {:induction false} CountRangesPermutation(nums: seq<int>, r1: seq<Range>, r2: seq<Range>)
    requires multiset(r1) == multiset(r2)
    ensures CountCovered(nums, r1) == CountCovered(nums, r2)
    decreases |nums|
  {
    if nums != [] {
      CountRangesPermutation(nums[..|nums| - 1], r1, r2);
      InAnyPermutation(r1, r2, nums[|nums| - 1]);
    }
  }

  /** Numbers past the end of every range add nothing to the count. */
  lemma {:induction false} CountUncoveredTail(nums: seq<int>, j: int, ranges: seq<Range>)
    requires 0 <= j <= |nums|
    requires forall t :: j <= t < |nums| ==> !InAny(ranges, nums[t])
    ensures CountCovered(nums, ranges) == CountCovered(nums[..j], ranges)
    decreases |nums|
  {
    if |nums| > j {
      assert nums[..|nums| - 1][..j] == nums[..j];
      CountUncoveredTail(nums[..|nums| - 1], j, ranges);
    } else {
      assert nums[..j] == nums;
    }
  }

  /** part1: for each number, scan the ranges and count it on the first hit. */
  method Part1(ranges: seq<Range>, nums: seq<int>) returns (res: nat)
    ensures res == CountCovered(nums, ranges)
  {
    res := 0;
    for t := 0 to |nums|
      invariant res == CountCovered(nums[..t], ranges)
    {
      assert nums[..t + 1][..t] == nums[..t];
      var num := nums[t];
      var i := 0;
      while i < |ranges|
        invariant 0 <= i <= |ranges|
        invariant forall p :: 0 <= p < i ==> !In(ranges[p], num)
        invariant res == CountCovered(nums[..t], ranges)
      {
        if num >= ranges[i].start && num <= ranges[i].end {
          res := res + 1;
          break;
        }
        i := i + 1;
      }
    }
    assert nums[..|nums|] == nums;
  }

  /** A number below the start of range i, and above the ends of the ranges before it, lies in no range. */
  lemma BelowRange(R: seq<Range>, i: int, v: int)
    requires SortedBy(R, StartOf) && 0 <= i < |R| && v < R[i].start
    requires forall p :: 0 <= p < i ==> v > R[p].end
    ensures !InAny(R, v)
  {
    forall p | 0 <= p < |R|
      ensures !In(R[p], v)
    {
      if p >= i {
        assert StartOf(R[i]) <= StartOf(R[p]);
      }
    }
  }

  /** In sorted nums, the next number is no smaller than the one just passed. */
  lemma NextNumber(N: seq<int>, j: int)
    requires SortedBy(N, Value) && 1 <= j <= |N|
    ensures j < |N| ==> N[j - 1] <= N[j]
  {
    if j < |N| {
      assert Value(N[j - 1]) <= Value(N[j]);
    }
  }

  /** When part1fast stops, the numbers it has not reached lie in no range. */
  lemma RestUncovered(R: seq<Range>, N: seq<int>, i: int, j: int)
    requires SortedBy(N, Value) && 0 <= i <= |R| && 0 <= j <= |N|
    requires i == |R| || j == |N|
    requires forall p :: 0 <= p < i && j < |N| ==> N[j] > R[p].end
    ensures forall t :: j <= t < |N| ==> !InAny(R, N[t])
  {
    forall t | j <= t < |N|
      ensures !InAny(R, N[t])
    {
      assert Value(N[j]) <= Value(N[t]);
    }
  }

  /**
   * part1fast: sort the ranges by start and the numbers ascending, then
   * walk both: a number below the current range is uncovered, a range
   * below the current number is no use to any later number.
   */
  method Part1Fast(ranges: array<Range>, nums: array<int>) returns (res: nat)
    modifies ranges, nums
    ensures res == CountCovered(old(nums[..]), old(ranges[..]))
    ensures SortedBy(ranges[..], StartOf) && multiset(ranges[..]) == multiset(old(ranges[..]))
    ensures SortedBy(nums[..], Value) && multiset(nums[..]) == multiset(old(nums[..]))
  {
    SortInPlace(ranges, StartOf);
    SortInPlace(nums, Value);
    ghost var R, N := ranges[..], nums[..];
    res := 0;
    var i, j := 0, 0;
    while i < ranges.Length && j < nums.Length
      invariant 0 <= i <= |R| && 0 <= j <= |N| && ranges[..] == R && nums[..] == N
      invariant res == CountCovered(N[..j], R)
      invariant forall p :: 0 <= p < i && j < |N| ==> N[j] > R[p].end
      decreases ranges.Length - i + nums.Length - j
    {
      assert N[..j + 1][..j] == N[..j];
      assert nums[j] == N[j] && ranges[i] == R[i];
      if nums[j] < ranges[i].start {
        BelowRange(R, i, N[j]);
        j := j + 1;
        NextNumber(N, j);
      } else if nums[j] > ranges[i].end {
        i := i + 1;
      } else {
        res := res + 1;
        j := j + 1;
        NextNumber(N, j);
      }
    }
    RestUncovered(R, N, i, j);
    CountUncoveredTail(N, j, R);
    CountPermutation(N, old(nums[..]), R);
    CountRangesPermutation(old(nums[..]), R, old(ranges[..]));
  }
}
