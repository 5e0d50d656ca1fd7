/**
 * Invalid product IDs of 2025/day2/2025-day2.ts.  An ID is a natural number
 * read through its decimal string.  Part one calls an ID invalid when the
 * string is some block written twice; part two, when it is some block
 * written two or more times.  Both parts sum the invalid IDs of inclusive
 * ranges.
 */
module RepeatedIds {
  import opened Arith

  // ------------------------------------------------------------------
  // Decimal strings
  // ------------------------------------------------------------------

  predicate IsDigit(c: char)
  {
    '0' <= c <= '9'
  }

  function DigitChar(d: nat): (c: char)
    requires d < 10
    ensures IsDigit(c) && (c as int) - ('0' as int) == d
  {
    (('0' as int) + d) as char
  }

  /** String(x) for a natural number x: its decimal digits, no leading zero. */
  function DecimalString(x: nat): (s: string)
    ensures 1 <= |s| && forall k :: 0 <= k < |s| ==> IsDigit(s[k])
    ensures |s| == 1 <==> x < 10
    ensures s[0] != '0' || x == 0
  {
    if x < 10 then [DigitChar(x)] else DecimalString(x / 10) + [DigitChar(x % 10)]
  }

  function DigitValue(c: char): (d: nat)
    requires IsDigit(c)
    ensures d < 10
  {
    (c as int) - ('0' as int)
  }

  /** The number a string of digits denotes. */
  function DecimalValue(s: string): nat
    requires forall k :: 0 <= k < |s| ==> IsDigit(s[k])
  {
    if s == [] then 0
    else 10 * DecimalValue(s[..|s| - 1]) + DigitValue(s[|s| - 1])
  }

  /** DecimalString writes x in base ten: reading it back gives x. */
  lemma {:induction false} DecimalRoundTrip(x: nat)
    ensures DecimalValue(DecimalString(x)) == x
  {
    if x >= 10 {
      var s := DecimalString(x);
      assert s[..|s| - 1] == DecimalString(x / 10);
      DecimalRoundTrip(x / 10);
    }
  }

  // ------------------------------------------------------------------
  // chunked
  // ------------------------------------------------------------------

  /** s cut into pieces of n characters, the last one possibly shorter. */
  function ChunksOf(s: string, n: nat): seq<string>
    requires n >= 1
    decreases |s|
  {
    if |s| == 0 then []
    else if |s| <= n then [s]
    else [s[..n]] + ChunksOf(s[n..], n)
  }

  function Flatten(cs: seq<string>): string
  {
    if cs == [] then [] else cs[0] + Flatten(cs[1..])
  }

  /**
   * The chunks put back together give s; there are ceil(|s| / n) of them;
   * all have n characters except the last, which has 1 to n.
   */
  lemma ChunksShape(s: string, n: nat)
    requires n >= 1
    ensures Flatten(ChunksOf(s, n)) == s
    ensures |ChunksOf(s, n)| == (|s| + n - 1) / n
    ensures forall c :: 0 <= c < |ChunksOf(s, n)| ==> 1 <= |ChunksOf(s, n)[c]| <= n
    ensures forall c :: 0 <= c < |ChunksOf(s, n)| - 1 ==> |ChunksOf(s, n)[c]| == n
  {
    ChunksFlatten(s, n);
    ChunksCount(s, n);
    ChunksLengths(s, n);
  }

  lemma {:induction false} ChunksFlatten(s: string, n: nat)
    requires n >= 1
    ensures Flatten(ChunksOf(s, n)) == s
    decreases |s|
  {
    if |s| > n {
      var cs := ChunksOf(s, n);
      ChunksFlatten(s[n..], n);
      assert cs[0] == s[..n] && cs[1..] == ChunksOf(s[n..], n);
      assert s == s[..n] + s[n..];
    } else if |s| > 0 {
      assert ChunksOf(s, n) == [s];
      assert [s][1..] == [];
    }
  }

  lemma {:induction false} ChunksCount(s: string, n: nat)
    requires n >= 1
    ensures |ChunksOf(s, n)| == (|s| + n - 1) / n
    decreases |s|
  {
    if |s| == 0 {
      DivModUnique(n - 1, n, 0, n - 1);
    } else if |s| <= n {
      DivModUnique(|s| + n - 1, n, 1, |s| - 1);
    } else {
      ChunksCount(s[n..], n);
      var m := |s| - 1;
      var q, r := m / n, m % n;
      assert m == n * q + r;
      DivModUnique(|s| + n - 1, n, q + 1, r);
    }
  }

  lemma {:induction false} ChunksLengths(s: string, n: nat)
    requires n >= 1
    ensures forall c :: 0 <= c < |ChunksOf(s, n)| ==> 1 <= |ChunksOf(s, n)[c]| <= n
    ensures forall c :: 0 <= c < |ChunksOf(s, n)| - 1 ==> |ChunksOf(s, n)[c]| == n
    decreases |s|
  {
    if |s| > n {
      var cs, rest := ChunksOf(s, n), ChunksOf(s[n..], n);
      ChunksLengths(s[n..], n);
      assert cs == [s[..n]] + rest;
      assert rest != [];
      forall c | 1 <= c < |cs|
        ensures cs[c] == rest[c - 1]
      {
      }
    }
  }

  /** chunked: push s[c*n .. (c+1)*n) (clamped to the end) while c*n < |s|. */
  method Chunked(s: string, n: nat) returns (res: seq<string>)
    requires n >= 1
    ensures res == ChunksOf(s, n)
  {
    res := [];
    var c := 0;
    while c * n < |s|
      invariant 0 <= c
      invariant res + ChunksOf(s[Clamp(c * n, |s|)..], n) == ChunksOf(s, n)
      decreases |s| - c * n
    {
      var lo := c * n;
      NextMultiple(c, n);
      var hi := Clamp((c + 1) * n, |s|);
      ChunksStep(s, n, lo, hi);
      res := res + [s[lo..hi]];
      c := c + 1;
    }
    assert s[Clamp(c * n, |s|)..] == [];
  }

  /** JavaScript's slice end: an index past the end means the end. */
  function Clamp(i: int, len: nat): (r: nat)
    ensures r <= len && (0 <= i <= len ==> r == i)
  {
    if i < 0 then 0 else if i < len then i else len
  }

  lemma NextMultiple(c: nat, n: nat)
    ensures (c + 1) * n == c * n + n && c * n >= 0
  {
  }

  /** The chunk starting at lo is s[lo..hi]; the rest are those of s[hi..]. */
  lemma ChunksStep(s: string, n: nat, lo: nat, hi: nat)
    requires n >= 1 && lo < |s| && hi == Clamp(lo + n, |s|)
    ensures ChunksOf(s[lo..], n) == [s[lo..hi]] + ChunksOf(s[hi..], n)
  {
    var t := s[lo..];
    if |t| <= n {
      assert hi == |s| && t == s[lo..hi];
    } else {
      assert t[..n] == s[lo..hi] && t[n..] == s[hi..];
    }
  }

  // ------------------------------------------------------------------
  // Repeated blocks
  // ------------------------------------------------------------------

  /** The block b written m times. */
  function Repeat(b: string, m: nat): string
  {
    if m == 0 then [] else b + Repeat(b, m - 1)
  }

  lemma {:induction false} RepeatLength(b: string, m: nat)
    ensures |Repeat(b, m)| == |b| * m
  {
    if m > 0 {
      RepeatLength(b, m - 1);
    }
  }

  /** s is some block of n characters, n dividing |s|, written at least twice. */
  predicate RepeatedBlock(s: string)
  {
    exists n :: 1 <= n <= |s| / 2 && |s| % n == 0 && s == Repeat(s[..n], |s| / n)
  }

  /** Every chunk of s equals b exactly when s is b repeated. */
  lemma {:induction false} ChunksAllEqual(s: string, n: nat, b: string)
    requires n >= 1 && |b| == n && |s| % n == 0
    ensures AllChunks(ChunksOf(s, n), b) <==> s == Repeat(b, |s| / n)
    decreases |s|
  {
    if |s| == 0 {
    } else if |s| <= n {
      OneChunk(s, n, b);
    } else {
      var m := |s| / n;
      DivModUnique(|s|, n, m, 0);
      DivModUnique(|s| - n, n, m - 1, 0);
      ChunksAllEqual(s[n..], n, b);
      FirstChunk(s, n, b, m);
    }
  }

  predicate AllChunks(cs: seq<string>, b: string)
  {
    forall k :: 0 <= k < |cs| ==> cs[k] == b
  }

  lemma OneChunk(s: string, n: nat, b: string)
    requires n >= 1 && |b| == n && |s| % n == 0 && 0 < |s| <= n
    ensures AllChunks(ChunksOf(s, n), b) <==> s == Repeat(b, |s| / n)
  {
    DivModUnique(|s|, n, 1, 0);
    assert ChunksOf(s, n) == [s];
    assert AllChunks([s], b) <==> s == b by {
      assert [s][0] == s;
    }
    assert Repeat(b, 0) == [];
    assert Repeat(b, 1) == b + Repeat(b, 0) == b + [] == b;
  }

  /** Peeling the first chunk off both sides of the equivalence. */
  lemma FirstChunk(s: string, n: nat, b: string, m: nat)
    requires n >= 1 && |b| == n && n < |s| && m >= 2 && |s| / n == m && |s[n..]| / n == m - 1
    requires AllChunks(ChunksOf(s[n..], n), b) <==> s[n..] == Repeat(b, m - 1)
    ensures AllChunks(ChunksOf(s, n), b) <==> s == Repeat(b, m)
  {
    assert ChunksOf(s, n) == [s[..n]] + ChunksOf(s[n..], n);
    assert Repeat(b, m) == b + Repeat(b, m - 1);
    SplitAt(s, b, Repeat(b, m - 1));
    AllEqualCons(s[..n], ChunksOf(s[n..], n), b);
  }

  /** s is b followed by t exactly when its first |b| characters are b and the rest t. */
  lemma SplitAt(s: string, b: string, t: string)
    requires |b| <= |s|
    ensures s == b + t <==> s[..|b|] == b && s[|b|..] == t
  {
    if s[..|b|] == b && s[|b|..] == t {
      assert s == s[..|b|] + s[|b|..];
    }
  }

  lemma AllEqualCons(x: string, rest: seq<string>, b: string)
    ensures AllChunks([x] + rest, b) <==> x == b && AllChunks(rest, b)
  {
    var cs := [x] + rest;
    if forall k :: 0 <= k < |cs| ==> cs[k] == b {
      assert cs[0] == x;
      forall k | 0 <= k < |rest|
        ensures rest[k] == b
      {
        assert cs[k + 1] == rest[k];
      }
    }
  }

  /**
   * The adjacent-chunk comparison of the commented loop at lines 71-77
   * (each chunk equals the next) says the same as comparing every chunk
   * with the first.
   */
  lemma AdjacentEqualIffAllFirst(cs: seq<string>)
    ensures (forall j :: 0 <= j < |cs| - 1 ==> cs[j] == cs[j + 1]) <==>
            (forall k :: 0 <= k < |cs| ==> cs[k] == cs[0])
  {
    if forall j :: 0 <= j < |cs| - 1 ==> cs[j] == cs[j + 1] {
      forall k | 0 <= k < |cs|
        ensures cs[k] == cs[0]
      {
        AdjacentChain(cs, k);
      }
    }
  }

  lemma {:induction false} AdjacentChain(cs: seq<string>, k: nat)
    requires k < |cs| && forall j :: 0 <= j < |cs| - 1 ==> cs[j] == cs[j + 1]
    ensures cs[k] == cs[0]
  {
    if k > 0 {
      AdjacentChain(cs, k - 1);
      assert cs[k - 1] == cs[k];
    }
  }

  // ------------------------------------------------------------------
  // The two invalidity tests
  // ------------------------------------------------------------------

  /** Part one: an even number of digits whose two halves are equal. */
  predicate IsDoubled(x: nat)
  {
    var s := DecimalString(x);
    |s| % 2 == 0 && s[..|s| / 2] == s[|s| / 2..]
  }

  /** Part two: the decimal string is a block repeated two or more times. */
  predicate IsRepeated(x: nat)
  {
    RepeatedBlock(DecimalString(x))
  }

  /**
   * p2isInvalid: try every block length n with n <= |s| / 2 that divides
   * |s|, and accept when every chunk equals the first.  (The source
   * compares n with the floating-point |s| / 2; for whole n that is the
   * same as n <= |s| / 2 rounded down.)
   */
  method P2IsInvalid(x: nat) returns (invalid: bool)
    ensures invalid <==> IsRepeated(x)
    ensures x < 10 ==> !invalid
  {
    var s := DecimalString(x);
    var n := 1;
    while n <= |s| / 2
      invariant 1 <= n <= |s| / 2 + 1
      invariant forall m :: 1 <= m < n ==> !(|s| % m == 0 && s == Repeat(s[..m], |s| / m))
    {
      if |s| % n == 0 {
        var chunks := Chunked(s, n);
        var allSame := forall k | 0 <= k < |chunks| :: chunks[k] == chunks[0];
        ChunksAllEqual(s, n, s[..n]);
        assert |s| > n;
        assert chunks[0] == s[..n];
        if allSame {
          return true;
        }
      }
      n := n + 1;
    }
    return false;
  }

  /** An ID invalid in part one is invalid in part two, with the block of half the length. */
  lemma DoubledIsRepeated(x: nat)
    requires IsDoubled(x)
    ensures IsRepeated(x)
  {
    var s := DecimalString(x);
    var n := |s| / 2;
    DivModUnique(|s|, n, 2, 0);
    assert Repeat(s[..n], 0) == [];
    assert Repeat(s[..n], 1) == s[..n] + [];
    assert Repeat(s[..n], 2) == s[..n] + Repeat(s[..n], 1);
    assert s == s[..n] + s[n..];
    assert 1 <= n <= |s| / 2 && |s| % n == 0 && s == Repeat(s[..n], |s| / n);
  }

  // ------------------------------------------------------------------
  // part1 and part2
  // ------------------------------------------------------------------

  /** An inclusive range of IDs, already parsed. */
  datatype IdRange = IdRange(start: nat, end: nat)

  /** The IDs lo, lo + 1, ..., hi satisfying p, in increasing order. */
  function Select(lo: nat, hi: int, p: nat -> bool): (r: seq<nat>)
    ensures forall x :: x in r <==> lo <= x <= hi && p(x)
    ensures forall a, b :: 0 <= a < b < |r| ==> r[a] < r[b]
    decreases hi - lo
  {
    if hi < lo then []
    else
      var init := Select(lo, hi - 1, p);
      assert forall a :: 0 <= a < |init| ==> init[a] in init;
      init + (if p(hi) then [hi] else [])
  }

  /** The IDs of every range satisfying p, range by range. */
  function InvalidIds(ranges: seq<IdRange>, p: nat -> bool): seq<nat>
  {
    if ranges == [] then []
    else InvalidIds(ranges[..|ranges| - 1], p) + Select(ranges[|ranges| - 1].start, ranges[|ranges| - 1].end, p)
  }

  /** The reduce((a, b) => a + b, 0) of both parts. */
  function Sum(xs: seq<nat>): nat
  {
    if xs == [] then 0 else Sum(xs[..|xs| - 1]) + xs[|xs| - 1]
  }

  lemma {:induction false} SumAppend(a: seq<nat>, b: seq<nat>)
    ensures Sum(a + b) == Sum(a) + Sum(b)
    decreases |b|
  {
    if b == [] {
      assert a + b == a;
    } else {
      assert (a + b)[..|a + b| - 1] == a + b[..|b| - 1];
      SumAppend(a, b[..|b| - 1]);
    }
  }

  /** The inner loop of part1: push every ID of start..end whose digits are two equal halves. */
  method PushDoubled(ids: seq<nat>, start: nat, end: nat) returns (ids': seq<nat>)
    ensures ids' == ids + Select(start, end, IsDoubled)
  {
    ids' := ids;
    var i: int := start;
    while i <= end
      invariant start <= i && (i <= end + 1 || i == start)
      invariant ids' == ids + Select(start, i - 1, IsDoubled)
    {
      ghost var before := ids';
      var s := DecimalString(i);
      if |s| % 2 == 0 && s[..|s| / 2] == s[|s| / 2..] {
        ids' := ids' + [i];
      }
      SelectStep(ids, before, ids', start, i, IsDoubled);
      i := i + 1;
    }
  }

  /** part1: the sum of the IDs in the ranges whose digits are two equal halves. */
  method Part1(ranges: seq<IdRange>) returns (total: nat)
    ensures total == Sum(InvalidIds(ranges, IsDoubled))
  {
    var invalidIds: seq<nat> := [];
    for r := 0 to |ranges|
      invariant invalidIds == InvalidIds(ranges[..r], IsDoubled)
    {
      assert ranges[..r + 1][..r] == ranges[..r];
      invalidIds := PushDoubled(invalidIds, ranges[r].start, ranges[r].end);
    }
    assert ranges[..|ranges|] == ranges;
    total := Sum(invalidIds);
  }

  /** The inner loop of part2: push every ID of start..end that p2isInvalid accepts. */
  method PushRepeated(ids: seq<nat>, start: nat, end: nat) returns (ids': seq<nat>)
    ensures ids' == ids + Select(start, end, IsRepeated)
  {
    ids' := ids;
    var i: int := start;
    while i <= end
      invariant start <= i && (i <= end + 1 || i == start)
      invariant ids' == ids + Select(start, i - 1, IsRepeated)
    {
      ghost var before := ids';
      var invalid := P2IsInvalid(i);
      if invalid {
        ids' := ids' + [i];
      }
      SelectStep(ids, before, ids', start, i, IsRepeated);
      i := i + 1;
    }
  }

  /** part2: the sum of the IDs in the ranges that p2isInvalid accepts. */
  method Part2(ranges: seq<IdRange>) returns (total: nat)
    ensures total == Sum(InvalidIds(ranges, IsRepeated))
  {
    var invalidIds: seq<nat> := [];
    for r := 0 to |ranges|
      invariant invalidIds == InvalidIds(ranges[..r], IsRepeated)
    {
      assert ranges[..r + 1][..r] == ranges[..r];
      invalidIds := PushRepeated(invalidIds, ranges[r].start, ranges[r].end);
    }
    assert ranges[..|ranges|] == ranges;
    total := Sum(invalidIds);
  }

  /** One step of the inner loops: pushing i exactly when it passes extends the selection to i. */
  lemma SelectStep(ids: seq<nat>, before: seq<nat>, after: seq<nat>, lo: nat, i: nat, p: nat -> bool)
    requires lo <= i
    requires before == ids + Select(lo, i - 1, p)
    requires after == before + (if p(i) then [i] else [])
    ensures after == ids + Select(lo, i, p)
  {
    assert Select(lo, i, p) == Select(lo, i - 1, p) + (if p(i) then [i] else []);
  }

  lemma SumSnoc(s: seq<nat>, x: nat)
    ensures Sum(s + [x]) == Sum(s) + x
  {
    assert (s + [x])[..|s|] == s;
  }

  /** The sum of the selection up to hi adds hi exactly when hi passes the test. */
  lemma SelectSumStep(lo: nat, hi: int, p: nat -> bool)
    requires lo <= hi
    ensures Sum(Select(lo, hi, p)) == Sum(Select(lo, hi - 1, p)) + (if p(hi) then hi else 0)
  {
    var s := Select(lo, hi - 1, p);
    if p(hi) {
      SumSnoc(s, hi);
    } else {
      assert Select(lo, hi, p) == s + [] == s;
    }
  }

  /** Selecting with a weaker test never lowers the sum. */
  lemma {:induction false} SelectSumMono(lo: nat, hi: int, p: nat -> bool, q: nat -> bool)
    requires forall x :: p(x) ==> q(x)
    ensures Sum(Select(lo, hi, p)) <= Sum(Select(lo, hi, q))
    decreases hi - lo
  {
    if hi >= lo {
      SelectSumMono(lo, hi - 1, p, q);
      SelectSumStep(lo, hi, p);
      SelectSumStep(lo, hi, q);
    }
  }

  lemma {:induction false} InvalidIdsSumMono(ranges: seq<IdRange>, p: nat -> bool, q: nat -> bool)
    requires forall x :: p(x) ==> q(x)
    ensures Sum(InvalidIds(ranges, p)) <= Sum(InvalidIds(ranges, q))
    decreases |ranges|
  {
    if ranges != [] {
      var init, last := ranges[..|ranges| - 1], ranges[|ranges| - 1];
      InvalidIdsSumMono(init, p, q);
      SelectSumMono(last.start, last.end, p, q);
      SumAppend(InvalidIds(init, p), Select(last.start, last.end, p));
      SumAppend(InvalidIds(init, q), Select(last.start, last.end, q));
    }
  }

  /** Every ID part one counts, part two counts too, so part one's answer is at most part two's. */
  lemma Part1AtMostPart2(ranges: seq<IdRange>)
    ensures forall x :: x in InvalidIds(ranges, IsDoubled) ==> x in InvalidIds(ranges, IsRepeated)
    ensures Sum(InvalidIds(ranges, IsDoubled)) <= Sum(InvalidIds(ranges, IsRepeated))
  {
    forall x | IsDoubled(x)
      ensures IsRepeated(x)
    {
      DoubledIsRepeated(x);
    }
    InvalidIdsSumMono(ranges, IsDoubled, IsRepeated);
    InvalidIdsSubset(ranges, IsDoubled, IsRepeated);
  }

  lemma {:induction false} InvalidIdsSubset(ranges: seq<IdRange>, p: nat -> bool, q: nat -> bool)
    requires forall x :: p(x) ==> q(x)
    ensures forall x :: x in InvalidIds(ranges, p) ==> x in InvalidIds(ranges, q)
    decreases |ranges|
  {
    if ranges != [] {
      InvalidIdsSubset(ranges[..|ranges| - 1], p, q);
    }
  }
}
