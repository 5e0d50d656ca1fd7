/**
 * Battery banks of 2025/day3/2025-day3.ts.  A bank is a row of digits 1..9;
 * switching on some of its batteries, left to right, reads a number.  Part
 * one switches on two batteries, part two twelve, and each wants the largest
 * number.  A number made of digits is modelled by its digit sequence and
 * Value, the base-ten number it spells.
 */
module Joltage {
  import opened Arith

  predicate IsBank(b: seq<int>)
  {
    forall k :: 0 <= k < |b| ==> 1 <= b[k] <= 9
  }

  // ------------------------------------------------------------------
  // indexOfMax and Math.max
  // ------------------------------------------------------------------

  /**
   * The reduce of indexOfMax over the first k elements: start at index 0 and
   * move to idx only when s[idx] is strictly greater than the current maximum.
   */
  function MaxIndexOfPrefix(s: seq<int>, k: nat): (m: nat)
    requires 1 <= k <= |s|
    ensures m < k
    ensures forall p :: 0 <= p < k ==> s[p] <= s[m]
    ensures forall p :: 0 <= p < m ==> s[p] < s[m]
  {
    if k == 1 then 0
    else
      var m := MaxIndexOfPrefix(s, k - 1);
      if s[k - 1] > s[m] then k - 1 else m
  }

  /** indexOfMax: -1 on an empty array, else the first index holding the maximum. */
  function IndexOfMax(s: seq<int>): (i: int)
    ensures s == [] <==> i == -1
    ensures s != [] ==> 0 <= i < |s| && (forall p :: 0 <= p < |s| ==> s[p] <= s[i]) &&
                        (forall p :: 0 <= p < i ==> s[p] < s[i])
  {
    if s == [] then -1 else MaxIndexOfPrefix(s, |s|)
  }

  /** Math.max(...s) on a non-empty array. */
  function Max(s: seq<int>): (m: int)
    requires s != []
    ensures m in s && forall p :: 0 <= p < |s| ==> s[p] <= m
  {
    s[IndexOfMax(s)]
  }

  // ------------------------------------------------------------------
  // Numbers read from digits, and subsequences
  // ------------------------------------------------------------------

  function Pow10(k: nat): (p: nat)
    ensures p >= 1
  {
    if k == 0 then 1 else 10 * Pow10(k - 1)
  }

  /** The number the digits spell in base ten, most significant first. */
  function Value(ds: seq<int>): int
  {
    if ds == [] then 0 else ds[0] * Pow10(|ds| - 1) + Value(ds[1..])
  }

  /** A number of k digits lies in [0, 10^k). */
  lemma {:induction false} ValueBounds(ds: seq<int>)
    requires IsBank(ds)
    ensures 0 <= Value(ds) < Pow10(|ds|)
  {
    if ds != [] {
      var d, p, tail := ds[0], Pow10(|ds| - 1), ds[1..];
      assert forall k :: 0 <= k < |tail| ==> tail[k] == ds[k + 1];
      ValueBounds(tail);
      MulMono(d, 9, p);
      MulMono(0, d, p);
      assert Value(ds) == d * p + Value(tail);
      assert Pow10(|ds|) == 10 * p;
    }
  }

  /**
   * Among digit strings of equal length, a smaller leading digit gives a
   * smaller number whatever follows.
   */
  lemma LeadingDigitDecides(a: seq<int>, b: seq<int>)
    requires IsBank(a) && IsBank(b) && |a| == |b| >= 1 && a[0] < b[0]
    ensures Value(a) < Value(b)
  {
    var p := Pow10(|a| - 1);
    ValueBounds(a[1..]);
    ValueBounds(b[1..]);
    MulMono(a[0] + 1, b[0], p);
    assert (a[0] + 1) * p == a[0] * p + p;
    assert Value(a) == a[0] * p + Value(a[1..]);
    assert Value(b) == b[0] * p + Value(b[1..]);
  }

  /** ds can be read from b by switching on some of its batteries, keeping their order. */
  predicate SubseqOf(ds: seq<int>, b: seq<int>)
    decreases |b|
  {
    if ds == [] then true
    else if b == [] then false
    else (ds[0] == b[0] && SubseqOf(ds[1..], b[1..])) || SubseqOf(ds, b[1..])
  }

  lemma {:induction false} SubseqLength(ds: seq<int>, b: seq<int>)
    requires SubseqOf(ds, b)
    ensures |ds| <= |b|
    decreases |b|
  {
    if ds != [] {
      if ds[0] == b[0] && SubseqOf(ds[1..], b[1..]) {
        SubseqLength(ds[1..], b[1..]);
      } else {
        SubseqLength(ds, b[1..]);
      }
    }
  }

  /** A subsequence as long as the whole is the whole. */
  lemma {:induction false} SubseqSameLength(ds: seq<int>, b: seq<int>)
    requires SubseqOf(ds, b) && |ds| == |b|
    ensures ds == b
    decreases |b|
  {
    if ds != [] {
      if ds[0] == b[0] && SubseqOf(ds[1..], b[1..]) {
        SubseqSameLength(ds[1..], b[1..]);
        assert ds == [ds[0]] + ds[1..];
        assert b == [b[0]] + b[1..];
      } else {
        SubseqLength(ds, b[1..]);
      }
    }
  }

  /** The first digit of a subsequence sits at some index j that leaves room for the rest. */
  lemma {:induction false} SubseqHead(ds: seq<int>, b: seq<int>) returns (j: nat)
    requires ds != [] && SubseqOf(ds, b)
    ensures j + |ds| <= |b| && b[j] == ds[0] && SubseqOf(ds[1..], b[j + 1..])
    decreases |b|
  {
    if ds[0] == b[0] && SubseqOf(ds[1..], b[1..]) {
      SubseqLength(ds[1..], b[1..]);
      j := 0;
    } else {
      var j' := SubseqHead(ds, b[1..]);
      j := j' + 1;
      assert b[1..][j' + 1..] == b[j + 1..];
    }
  }

  /** A subsequence of a suffix of b is a subsequence of b. */
  lemma {:induction false} SubseqOfSuffix(ds: seq<int>, b: seq<int>, k: nat)
    requires k <= |b| && SubseqOf(ds, b[k..])
    ensures SubseqOf(ds, b)
    decreases k
  {
    if k > 0 {
      assert b[k - 1..][1..] == b[k..];
      if ds != [] {
        assert SubseqOf(ds, b[k - 1..]);
      }
      SubseqOfSuffix(ds, b, k - 1);
    }
  }

  /** Switching on battery i and then a subsequence of what follows it reads a subsequence. */
  lemma SubseqCons(b: seq<int>, i: nat, rest: seq<int>)
    requires i < |b| && SubseqOf(rest, b[i + 1..])
    ensures SubseqOf([b[i]] + rest, b)
  {
    var ds := [b[i]] + rest;
    assert ds[1..] == rest && b[i..][1..] == b[i + 1..];
    assert SubseqOf(ds, b[i..]);
    SubseqOfSuffix(ds, b, i);
  }

  lemma {:induction false} SubseqOfSelf(b: seq<int>)
    ensures SubseqOf(b, b)
    decreases |b|
  {
    if b != [] {
      SubseqOfSelf(b[1..]);
    }
  }

  lemma SubseqKeepsBank(ds: seq<int>, b: seq<int>)
    requires IsBank(b) && SubseqOf(ds, b)
    ensures IsBank(ds)
    decreases |b|
  {
    if ds != [] {
      if ds[0] == b[0] && SubseqOf(ds[1..], b[1..]) {
        SubseqKeepsBank(ds[1..], b[1..]);
        assert forall k :: 1 <= k < |ds| ==> ds[k] == ds[1..][k - 1];
      } else {
        SubseqKeepsBank(ds, b[1..]);
      }
    }
  }

  // ------------------------------------------------------------------
  // part1: the best pair
  // ------------------------------------------------------------------

  /**
   * part1's value for one bank: the first maximum among all but the last
   * battery, then the maximum of the batteries after it.
   */
  function PairJoltage(bank: seq<int>): (v: int)
    requires |bank| >= 2
  {
    var i := IndexOfMax(bank[..|bank| - 1]);
    10 * bank[i] + Max(bank[i + 1..])
  }

  /**
   * The greedy pair is the best pair: some i < j reads it, and no i < j reads
   * more.
   */
  lemma PairJoltageIsBest(bank: seq<int>)
    requires |bank| >= 2 && IsBank(bank)
    ensures exists i, j :: 0 <= i < j < |bank| && PairJoltage(bank) == 10 * bank[i] + bank[j]
    ensures forall i, j :: 0 <= i < j < |bank| ==> 10 * bank[i] + bank[j] <= PairJoltage(bank)
  {
    var s := bank[..|bank| - 1];
    var i := IndexOfMax(s);
    var rest := bank[i + 1..];
    var j := i + 1 + IndexOfMax(rest);
    assert bank[j] == Max(rest);
    forall p, q | 0 <= p < q < |bank|
      ensures 10 * bank[p] + bank[q] <= PairJoltage(bank)
    {
      assert s[p] == bank[p];
      if bank[p] < bank[i] {
        assert bank[q] <= 9 && 1 <= Max(rest);
      } else {
        assert rest[q - i - 1] == bank[q];
      }
    }
  }

  /** part1 summed over the banks. */
  function SumPairs(banks: seq<seq<int>>): int
    requires forall k :: 0 <= k < |banks| ==> |banks[k]| >= 2
  {
    if banks == [] then 0 else SumPairs(banks[..|banks| - 1]) + PairJoltage(banks[|banks| - 1])
  }

  lemma SumPairsStep(banks: seq<seq<int>>, k: nat)
    requires k < |banks| && forall k :: 0 <= k < |banks| ==> |banks[k]| >= 2
    ensures SumPairs(banks[..k + 1]) == SumPairs(banks[..k]) + PairJoltage(banks[k])
  {
    assert banks[..k + 1][..k] == banks[..k];
  }

  /** part1: add each bank's best pair to sum. */
  method Part1(banks: seq<seq<int>>) returns (sum: int)
    requires forall k :: 0 <= k < |banks| ==> |banks[k]| >= 2
    ensures sum == SumPairs(banks)
  {
    sum := 0;
    for k := 0 to |banks|
      invariant sum == SumPairs(banks[..k])
    {
      SumPairsStep(banks, k);
      var pair := BankPair(banks[k]);
      sum := sum + pair;
    }
    assert banks[..|banks|] == banks;
  }

  /** The body of part1's forEach: the first maximum of all but the last battery, then the largest after it. */
  method BankPair(bank: seq<int>) returns (pair: int)
    requires |bank| >= 2
    ensures pair == PairJoltage(bank)
  {
    var slice := bank[..|bank| - 1];
    var i := IndexOfMax(slice);
    var first := slice[i];
    var second := Max(bank[i + 1..]);
    pair := 10 * first + second;
  }

  // ------------------------------------------------------------------
  // part2: maxJoltage
  // ------------------------------------------------------------------

  /**
   * maxJoltage's digits: the whole bank when it has exactly n batteries; its
   * maximum when n is 1; otherwise the first maximum of the prefix that
   * leaves n - 1 batteries after it, followed by the best n - 1 of the rest.
   */
  function JoltageDigits(bank: seq<int>, n: nat): (ds: seq<int>)
    requires 1 <= n <= |bank|
    ensures |ds| == n && SubseqOf(ds, bank)
    decreases n
  {
    if |bank| == n then
      SubseqOfSelf(bank);
      bank
    else if n == 1 then
      var m := Max(bank);
      var i :| 0 <= i < |bank| && bank[i] == m;
      assert SubseqOf([], bank[i + 1..]);
      SubseqCons(bank, i, []);
      assert [bank[i]] + [] == [m];
      [m]
    else
      var i := IndexOfMax(bank[..|bank| - n + 1]);
      var rest := JoltageDigits(bank[i + 1..], n - 1);
      SubseqCons(bank, i, rest);
      [bank[i]] + rest
  }

  /**
   * maxJoltage(bank, n) as a number: what some n batteries, chosen in order,
   * read; on a bank of digits 1..9 an n-digit number.
   */
  function MaxJoltage(bank: seq<int>, n: nat): (v: int)
    requires 1 <= n <= |bank|
    ensures exists ds :: |ds| == n && SubseqOf(ds, bank) && Value(ds) == v
    ensures IsBank(bank) ==> 0 <= v < Pow10(n)
  {
    var ds := JoltageDigits(bank, n);
    assert IsBank(bank) ==> 0 <= Value(ds) < Pow10(n) by {
      if IsBank(bank) {
        SubseqKeepsBank(ds, bank);
        ValueBounds(ds);
      }
    }
    Value(ds)
  }

  /**
   * maxJoltage is the best n batteries can do: its digits are an
   * order-preserving choice of n batteries, and no such choice reads a
   * larger number.
   */
  lemma {:induction false} MaxJoltageIsBest(bank: seq<int>, n: nat, ds: seq<int>)
    requires IsBank(bank) && 1 <= n <= |bank|
    requires |ds| == n && SubseqOf(ds, bank)
    ensures Value(ds) <= MaxJoltage(bank, n)
    decreases n, 1
  {
    if |bank| == n {
      SubseqSameLength(ds, bank);
    } else if n == 1 {
      MaxJoltageOneIsBest(bank, ds);
    } else {
      MaxJoltageStepIsBest(bank, n, ds);
    }
  }

  /** A single battery reads at most the bank's maximum. */
  lemma MaxJoltageOneIsBest(bank: seq<int>, ds: seq<int>)
    requires IsBank(bank) && 1 < |bank|
    requires |ds| == 1 && SubseqOf(ds, bank)
    ensures Value(ds) <= MaxJoltage(bank, 1)
  {
    var j := SubseqHead(ds, bank);
    assert ds == [bank[j]];
    assert JoltageDigits(bank, 1) == [Max(bank)];
    ValueOne(bank[j]);
    ValueOne(Max(bank));
  }

  /**
   * The recursive case: a choice starting below the greedy leading digit
   * loses at once; one starting with it starts at or after the first
   * maximum, so its tail is a choice from what follows that maximum.
   */
  lemma {:induction false} MaxJoltageStepIsBest(bank: seq<int>, n: nat, ds: seq<int>)
    requires IsBank(bank) && 1 < n < |bank|
    requires |ds| == n && SubseqOf(ds, bank)
    ensures Value(ds) <= MaxJoltage(bank, n)
    decreases n, 0
  {
    var i, g := GreedyDigits(bank, n);
    SubseqKeepsBank(ds, bank);
    SubseqKeepsBank(g, bank);
    var j := SubseqHead(ds, bank);
    if ds[0] < g[0] {
      LeadingDigitDecides(ds, g);
    } else {
      FirstMaximumIsEarliest(bank, n, j);
      SuffixOfRest(bank, i, j, ds[1..]);
      MaxJoltageIsBest(bank[i + 1..], n - 1, ds[1..]);
      SameLeadingDigit(ds, g);
    }
  }

  /** In the recursive case the digits are the window's first maximum and then the best n - 1 after it. */
  lemma GreedyDigits(bank: seq<int>, n: nat) returns (i: nat, g: seq<int>)
    requires 1 < n < |bank|
    ensures i == IndexOfMax(bank[..|bank| - n + 1]) && i < |bank| - n + 1
    ensures g == JoltageDigits(bank, n) && |g| == n && SubseqOf(g, bank)
    ensures g[0] == bank[i] && g[1..] == JoltageDigits(bank[i + 1..], n - 1)
  {
    i := IndexOfMax(bank[..|bank| - n + 1]);
    g := JoltageDigits(bank, n);
    assert g == [bank[i]] + JoltageDigits(bank[i + 1..], n - 1);
  }

  /**
   * A battery j in the window bank[..|bank| - n + 1] at least as large as the
   * window's first maximum is that maximum or comes after it.
   */
  lemma FirstMaximumIsEarliest(bank: seq<int>, n: nat, j: nat)
    requires 1 <= n < |bank| && j + n <= |bank|
    requires bank[j] >= bank[IndexOfMax(bank[..|bank| - n + 1])]
    ensures IndexOfMax(bank[..|bank| - n + 1]) <= j
    ensures bank[j] == bank[IndexOfMax(bank[..|bank| - n + 1])]
  {
    var w := bank[..|bank| - n + 1];
    assert w[j] == bank[j] && w[IndexOfMax(w)] == bank[IndexOfMax(w)];
  }

  /** What follows battery j is a suffix of what follows battery i <= j. */
  lemma SuffixOfRest(bank: seq<int>, i: nat, j: nat, ds: seq<int>)
    requires i <= j < |bank| && IsBank(bank) && SubseqOf(ds, bank[j + 1..])
    ensures SubseqOf(ds, bank[i + 1..]) && IsBank(bank[i + 1..])
  {
    assert bank[j + 1..] == bank[i + 1..][j - i..];
    SubseqOfSuffix(ds, bank[i + 1..], j - i);
    var r := bank[i + 1..];
    assert forall k :: 0 <= k < |r| ==> r[k] == bank[i + 1 + k];
  }

  /** With equal leading digits the rest decides. */
  lemma SameLeadingDigit(a: seq<int>, b: seq<int>)
    requires |a| == |b| >= 1 && a[0] == b[0] && Value(a[1..]) <= Value(b[1..])
    ensures Value(a) <= Value(b)
  {
  }

  /** With exactly n batteries the bank itself is read; with n = 1 its largest digit. */
  lemma MaxJoltageEdgeCases(bank: seq<int>, n: nat)
    requires 1 <= n <= |bank|
    ensures |bank| == n ==> JoltageDigits(bank, n) == bank
    ensures n == 1 ==> MaxJoltage(bank, n) == Max(bank)
  {
    if n == 1 {
      var ds := JoltageDigits(bank, n);
      ValueOne(ds[0]);
      assert ds == [ds[0]];
      if |bank| == 1 {
        assert bank == [bank[0]];
      }
    }
  }

  lemma ValueOne(a: int)
    ensures Value([a]) == a
  {
    assert [a][1..] == [];
  }

  lemma ValueTwo(a: int, b: int)
    ensures Value([a, b]) == 10 * a + b
  {
    assert [a, b][1..] == [b];
    ValueOne(b);
  }

  /** Batteries i < j, switched on, read a subsequence. */
  lemma PairSubseq(bank: seq<int>, i: nat, j: nat)
    requires i < j < |bank|
    ensures SubseqOf([bank[i], bank[j]], bank)
  {
    var r := bank[i + 1..];
    assert SubseqOf([], bank[j + 1..]);
    assert r[j - i - 1 + 1..] == bank[j + 1..] && r[j - i - 1] == bank[j];
    SubseqCons(r, j - i - 1, []);
    assert [r[j - i - 1]] + [] == [bank[j]];
    SubseqCons(bank, i, [bank[j]]);
    assert [bank[i]] + [bank[j]] == [bank[i], bank[j]];
  }

  /** A two-battery subsequence is some pair i < j. */
  lemma SubseqPair(ds: seq<int>, bank: seq<int>) returns (i: nat, j: nat)
    requires |ds| == 2 && SubseqOf(ds, bank)
    ensures i < j < |bank| && ds == [bank[i], bank[j]]
  {
    i := SubseqHead(ds, bank);
    var q := SubseqHead(ds[1..], bank[i + 1..]);
    j := i + 1 + q;
    assert ds == [ds[0], ds[1..][0]];
  }

  /** Two batteries chosen greedily read the same number as part one's best pair. */
  lemma PairIsMaxJoltageTwo(bank: seq<int>)
    requires IsBank(bank) && |bank| >= 2
    ensures MaxJoltage(bank, 2) == PairJoltage(bank)
  {
    PairJoltageIsBest(bank);
    var i, j :| 0 <= i < j < |bank| && PairJoltage(bank) == 10 * bank[i] + bank[j];
    PairSubseq(bank, i, j);
    ValueTwo(bank[i], bank[j]);
    MaxJoltageIsBest(bank, 2, [bank[i], bank[j]]);
    var p, q := SubseqPair(JoltageDigits(bank, 2), bank);
    ValueTwo(bank[p], bank[q]);
  }

  /** The largest twelve-digit number. */
  const Largest12: int := 999_999_999_999

  lemma Pow10Twelve()
    ensures Pow10(12) == Largest12 + 1
  {
  }

  /** part2: the sum over the banks of maxJoltage(bank, 12); at most Largest12 per bank of digits 1..9. */
  function Part2(banks: seq<seq<int>>): (sum: int)
    requires forall k :: 0 <= k < |banks| ==> |banks[k]| >= 12
    ensures (forall k :: 0 <= k < |banks| ==> IsBank(banks[k])) ==> 0 <= sum <= |banks| * Largest12
  {
    if banks == [] then 0
    else
      var init := banks[..|banks| - 1];
      assert forall k :: 0 <= k < |init| ==> init[k] == banks[k];
      Pow10Twelve();
      Part2(init) + MaxJoltage(banks[|banks| - 1], 12)
  }

  function SumValues(picks: seq<seq<int>>): int
  {
    if picks == [] then 0 else SumValues(picks[..|picks| - 1]) + Value(picks[|picks| - 1])
  }

  /** part2's sum is attained: some choice of twelve batteries per bank, in order, sums to it. */
  lemma {:induction false} Part2Attained(banks: seq<seq<int>>) returns (picks: seq<seq<int>>)
    requires forall k :: 0 <= k < |banks| ==> |banks[k]| >= 12
    ensures |picks| == |banks|
    ensures forall k :: 0 <= k < |banks| ==> |picks[k]| == 12 && SubseqOf(picks[k], banks[k])
    ensures SumValues(picks) == Part2(banks)
  {
    if banks == [] {
      picks := [];
    } else {
      var last := |banks| - 1;
      var init := Part2Attained(banks[..last]);
      var ds := JoltageDigits(banks[last], 12);
      picks := init + [ds];
      SumValuesSnoc(init, ds);
      Part2Snoc(banks);
      forall k | 0 <= k < last
        ensures |picks[k]| == 12 && SubseqOf(picks[k], banks[k])
      {
        assert picks[k] == init[k] && banks[k] == banks[..last][k];
      }
    }
  }

  lemma SumValuesSnoc(picks: seq<seq<int>>, ds: seq<int>)
    ensures SumValues(picks + [ds]) == SumValues(picks) + Value(ds)
  {
    assert (picks + [ds])[..|picks|] == picks;
  }

  lemma Part2Snoc(banks: seq<seq<int>>)
    requires banks != [] && forall k :: 0 <= k < |banks| ==> |banks[k]| >= 12
    ensures Part2(banks) == Part2(banks[..|banks| - 1]) + Value(JoltageDigits(banks[|banks| - 1], 12))
  {
  }

  /** No choice of twelve batteries per bank sums to more than part2. */
  lemma {:induction false} Part2IsBest(banks: seq<seq<int>>, picks: seq<seq<int>>)
    requires forall k :: 0 <= k < |banks| ==> |banks[k]| >= 12 && IsBank(banks[k])
    requires |picks| == |banks|
    requires forall k :: 0 <= k < |banks| ==> |picks[k]| == 12 && SubseqOf(picks[k], banks[k])
    ensures SumValues(picks) <= Part2(banks)
  {
    if banks != [] {
      var last := |banks| - 1;
      Part2IsBest(banks[..last], picks[..last]);
      MaxJoltageIsBest(banks[last], 12, picks[last]);
    }
  }
}
