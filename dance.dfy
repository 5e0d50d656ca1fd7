/**
 * The permutation dance of 2017-day16/2017-day16.kts.
 *
 * A line of programs (one-letter names) is rearranged in place by three
 * kinds of move: a spin rotates the line to the right, an exchange swaps
 * two positions, and a partner move swaps two named programs.  The line
 * is the program's global mutable list; here it is the array every method
 * receives.  Each method is proved against a function on sequences, and
 * the functions carry the properties (permutation, inverse, involution,
 * periodicity of repeated dances).
 */
module Dance {
  import opened Arith
  import opened Leapfrog

  /** A program's name, e.g. "a". */
  type Symbol = string

  // ------------------------------------------------------------------
  // Specification functions
  // ------------------------------------------------------------------

  /**
   * Right rotation by x.  An amount outside 1 .. |s| - 1 leaves the line
   * alone (the early return of spin); it is not reduced modulo |s|.
   */
  function Rotate(s: seq<Symbol>, x: int): (r: seq<Symbol>)
    ensures |r| == |s| && multiset(r) == multiset(s)
    ensures x <= 0 || x >= |s| ==> r == s
  {
    if x <= 0 || x >= |s| then s
    else
      assert s == s[..|s| - x] + s[|s| - x..];
      s[|s| - x..] + s[..|s| - x]
  }

  /** Positions i and j trade their programs. */
  function Swap(s: seq<Symbol>, i: int, j: int): (r: seq<Symbol>)
    requires 0 <= i < |s| && 0 <= j < |s|
    ensures |r| == |s| && multiset(r) == multiset(s)
  {
    s[i := s[j]][j := s[i]]
  }

  /** First index of v in s, or -1 when v does not occur (Kotlin's indexOf). */
  function IndexOf(s: seq<Symbol>, v: Symbol): (r: int)
    ensures -1 <= r < |s|
    ensures r == -1 <==> v !in s
    ensures 0 <= r ==> s[r] == v && v !in s[..r]
  {
    if |s| == 0 then -1
    else if s[0] == v then 0
    else
      var k := IndexOf(s[1..], v);
      assert s[1..][..if k < 0 then 0 else k] == s[1..if k < 0 then 1 else k + 1];
      if k == -1 then -1 else k + 1
  }

  /** The programs named a and b trade places. */
  function Trade(s: seq<Symbol>, a: Symbol, b: Symbol): (r: seq<Symbol>)
    requires a in s && b in s
    ensures |r| == |s| && multiset(r) == multiset(s)
  {
    Swap(s, IndexOf(s, a), IndexOf(s, b))
  }

  /** One dance move; Other is a move whose letter the dance does not know. */
  datatype Move =
    | Spin(x: int)
    | Exchange(i: int, j: int)
    | Partner(a: Symbol, b: Symbol)
    | Other(op: char)

  /**
   * The moves the program performs without failing on the line s: an
   * exchange needs both indices in range and a partner move needs both
   * names present (otherwise the list access throws).
   */
  predicate Performable(m: Move, s: seq<Symbol>)
  {
    match m
    case Exchange(i, j) => 0 <= i < |s| && 0 <= j < |s|
    case Partner(a, b) => a in s && b in s
    case _ => true
  }

  predicate AllPerformable(ms: seq<Move>, s: seq<Symbol>)
  {
    forall k :: 0 <= k < |ms| ==> Performable(ms[k], s)
  }

  /** Whether a move can be performed depends only on the line's contents. */
  lemma PerformableOnContents(ms: seq<Move>, s: seq<Symbol>, t: seq<Symbol>)
    requires multiset(s) == multiset(t) && AllPerformable(ms, s)
    ensures AllPerformable(ms, t)
  {
    assert |s| == |multiset(s)| == |multiset(t)| == |t|;
    forall k | 0 <= k < |ms|
      ensures Performable(ms[k], t)
    {
      match ms[k]
      case Partner(a, b) =>
        assert a in multiset(s) && b in multiset(s);
      case _ =>
    }
  }

  function Step(s: seq<Symbol>, m: Move): (r: seq<Symbol>)
    requires Performable(m, s)
    ensures |r| == |s| && multiset(r) == multiset(s)
  {
    match m
    case Spin(x) => Rotate(s, x)
    case Exchange(i, j) => Swap(s, i, j)
    case Partner(a, b) => Trade(s, a, b)
    case Other(_) => s
  }

  /** The line after performing the moves ms in order. */
  function Perform(s: seq<Symbol>, ms: seq<Move>): (r: seq<Symbol>)
    requires AllPerformable(ms, s)
    ensures |r| == |s| && multiset(r) == multiset(s)
    decreases |ms|
  {
    if ms == [] then s
    else
      var t := Step(s, ms[0]);
      PerformableOnContents(ms, s, t);
      Perform(t, ms[1..])
  }

  /** The line after k whole dances. */
  function Iterate(s: seq<Symbol>, ms: seq<Move>, k: nat): (r: seq<Symbol>)
    requires AllPerformable(ms, s)
    ensures |r| == |s| && multiset(r) == multiset(s)
    decreases k
  {
    if k == 0 then s
    else
      var t := Perform(s, ms);
      PerformableOnContents(ms, s, t);
      Iterate(t, ms, k - 1)
  }

  // ------------------------------------------------------------------
  // Properties of the moves
  // ------------------------------------------------------------------

  /** Spin moves the program at position i to position (i + x) mod n. */
  lemma RotateMoves(s: seq<Symbol>, x: int, i: int)
    requires 0 < x < |s| && 0 <= i < |s|
    ensures Rotate(s, x)[(i + x) % |s|] == s[i]
  {
    var n := |s|;
    if i + x < n {
      DivModUnique(i + x, n, 0, i + x);
    } else {
      DivModUnique(i + x, n, 1, i + x - n);
    }
  }

  /** Position p after a spin holds what was x places to its left. */
  lemma RotateFrom(s: seq<Symbol>, x: int, p: int)
    requires 0 < x < |s| && 0 <= p < |s|
    ensures Rotate(s, x)[p] == s[(p + |s| - x) % |s|]
  {
    var n := |s|;
    if p < x {
      DivModUnique(p + n - x, n, 0, p + n - x);
    } else {
      DivModUnique(p + n - x, n, 1, p - x);
    }
  }

  /** Spinning by x and then by n - x restores the line. */
  lemma RotateInverse(s: seq<Symbol>, x: int)
    requires 0 < x < |s|
    ensures Rotate(Rotate(s, x), |s| - x) == s
  {
    var n := |s|;
    var r := Rotate(Rotate(s, x), n - x);
    forall p | 0 <= p < n
      ensures r[p] == s[p]
    {
      RotateFrom(Rotate(s, x), n - x, p);
      assert p + n - (n - x) == p + x;
      RotateMoves(s, x, p);
    }
  }

  /** An exchange touches the two positions and nothing else. */
  lemma SwapEffect(s: seq<Symbol>, i: int, j: int)
    requires 0 <= i < |s| && 0 <= j < |s|
    ensures Swap(s, i, j)[i] == s[j] && Swap(s, i, j)[j] == s[i]
    ensures forall p :: 0 <= p < |s| && p != i && p != j ==> Swap(s, i, j)[p] == s[p]
  {
  }

  /** Exchange is symmetric in its two positions, and undoes itself. */
  lemma SwapSymmetricInvolution(s: seq<Symbol>, i: int, j: int)
    requires 0 <= i < |s| && 0 <= j < |s|
    ensures Swap(s, i, j) == Swap(s, j, i)
    ensures Swap(Swap(s, i, j), i, j) == s
  {
    var t := Swap(s, i, j);
    SwapEffect(s, i, j);
    SwapEffect(s, j, i);
    SwapEffect(t, i, j);
    forall p | 0 <= p < |s|
      ensures t[p] == Swap(s, j, i)[p] && Swap(t, i, j)[p] == s[p]
    {
    }
  }

  predicate Distinct(s: seq<Symbol>)
  {
    forall p, q :: 0 <= p < q < |s| ==> s[p] != s[q]
  }

  /**
   * On a line of distinct programs, a partner move relabels: a becomes b,
   * b becomes a, every other program stays where it is.
   */
  lemma TradeRelabels(s: seq<Symbol>, a: Symbol, b: Symbol)
    requires a in s && b in s && Distinct(s)
    ensures forall p :: 0 <= p < |s| ==>
      Trade(s, a, b)[p] == (if s[p] == a then b else if s[p] == b then a else s[p])
  {
    var i, j := IndexOf(s, a), IndexOf(s, b);
    assert s[i] == a && s[j] == b;
  }

  /** A dance keeps the programs of the line, and keeps them distinct. */
  lemma PerformKeepsDistinct(s: seq<Symbol>, ms: seq<Move>)
    requires AllPerformable(ms, s) && Distinct(s)
    ensures Distinct(Perform(s, ms))
  {
    var r := Perform(s, ms);
    forall p, q | 0 <= p < q < |r|
      ensures r[p] != r[q]
    {
      DistinctCount(s, r[p]);
      if r[p] == r[q] {
        CountTwo(r, p, q);
      }
    }
  }

  /** A value at two positions occurs at least twice. */
  lemma CountTwo(r: seq<Symbol>, p: int, q: int)
    requires 0 <= p < q < |r| && r[p] == r[q]
    ensures multiset(r)[r[p]] >= 2
  {
    assert r == r[..q] + r[q..];
    assert r[..q] == r[..p] + r[p..q];
    assert r[p..q][0] == r[p] && r[q..][0] == r[q];
  }

  lemma {:induction false} DistinctCount(s: seq<Symbol>, v: Symbol)
    requires Distinct(s)
    ensures multiset(s)[v] <= 1
    decreases |s|
  {
    if s != [] {
      assert s == [s[0]] + s[1..];
      assert Distinct(s[1..]);
      DistinctCount(s[1..], v);
      if s[0] == v {
        assert v !in s[1..];
        assert multiset(s[1..])[v] == 0;
      }
    }
  }

  // ------------------------------------------------------------------
  // Repeated dances
  // ------------------------------------------------------------------

  lemma {:induction false} IterateAdd(s: seq<Symbol>, ms: seq<Move>, a: nat, b: nat)
    requires AllPerformable(ms, s)
    ensures AllPerformable(ms, Iterate(s, ms, a))
    ensures Iterate(s, ms, a + b) == Iterate(Iterate(s, ms, a), ms, b)
    decreases a
  {
    PerformableOnContents(ms, s, Iterate(s, ms, a));
    if a > 0 {
      var t := Perform(s, ms);
      PerformableOnContents(ms, s, t);
      IterateAdd(t, ms, a - 1, b);
    }
  }

  /**
   * Once a line repeats (after j dances and again after i > j dances),
   * the lines form a cycle of length i - j: the line after any R >= j
   * dances is the one after j + (R - j) mod (i - j) dances.  This is what
   * lets a billion dances be computed from a short prefix.
   */
  lemma {:induction false} CycleRepeats(s: seq<Symbol>, ms: seq<Move>, j: nat, i: nat, R: nat)
    requires AllPerformable(ms, s)
    requires j < i && Iterate(s, ms, j) == Iterate(s, ms, i) && j <= R
    ensures Iterate(s, ms, R) == Iterate(s, ms, j + (R - j) % (i - j))
    decreases R
  {
    var p := i - j;
    var k := (R - j) % p;
    if R < i {
      DivModUnique(R - j, p, 0, R - j);
      assert j + k == R;
    } else {
      IterateShift(s, ms, j, i, R);
      CycleRepeats(s, ms, j, i, R - p);
      ModStepBack(R - j, p);
      assert (R - p - j) % p == k;
    }
  }

  /** Past the repeat, dropping one cycle's worth of dances changes nothing. */
  lemma IterateShift(s: seq<Symbol>, ms: seq<Move>, j: nat, i: nat, R: nat)
    requires AllPerformable(ms, s)
    requires j < i <= R && Iterate(s, ms, j) == Iterate(s, ms, i)
    ensures Iterate(s, ms, R) == Iterate(s, ms, R - (i - j))
  {
    IterateAdd(s, ms, i, R - i);
    IterateAdd(s, ms, j, R - i);
  }

  lemma ModStepBack(a: int, p: int)
    requires p > 0 && a >= p
    ensures (a - p) % p == a % p
  {
    ModShift(1, a - p, p);
  }

  // ------------------------------------------------------------------
  // The in-place operations
  // ------------------------------------------------------------------

  /**
   * spin(x), by leapfrog overwriting: each value hops x places to the
   * right into the slot whose old value it carries on; when a walk closes
   * on its starting slot, the next walk starts one slot further on.
   */
  method DoSpin(a: array<Symbol>, x: int)
    modifies a
    ensures a[..] == Rotate(old(a[..]), x)
  {
    var n := a.Length;
    if x <= 0 || x >= n {
      return;
    }
    ghost var s := a[..];
    var i, startIdx, last := 0, 0, "";
    for k := 0 to n
      invariant k == 0 ==> i == 0 && startIdx == 0 && a[..] == s
      invariant 0 < k ==> i == Pos(n, x, k - 1) && startIdx == (k - 1) / Period(n, x) + 1
      invariant 0 < k ==> last == s[Pos(n, x, k - 1)]
      invariant forall q :: 0 <= q < k ==> a[Pos(n, x, q)] == s[PosBefore(n, x, q)]
      invariant forall q :: k <= q < n ==> a[Pos(n, x, q)] == s[Pos(n, x, q)]
    {
      LeapRestarts(n, x, k, i, startIdx);
      if startIdx == i {
        ghost var lastq := LeapNewWalk(n, x, k);
        i := (i + 1) % n;
        startIdx := i;
        last := a[i];
      }
      PosDistinct(n, x, k);
      WriteHopsRight(n, x, k);
      var j := (i + x) % n;
      var temp := a[j];
      a[j] := last;
      last := temp;
      i := j;
    }
    LeapfrogRotates(s, a[..], x);
  }

  /** When every write q moved the value from PosBefore(q) to Pos(q), the line is rotated right by x. */
  lemma LeapfrogRotates(s: seq<Symbol>, t: seq<Symbol>, x: int)
    requires 0 < x < |s| && |t| == |s|
    requires forall q :: 0 <= q < |s| ==> t[Pos(|s|, x, q)] == s[PosBefore(|s|, x, q)]
    ensures t == Rotate(s, x)
  {
    var n := |s|;
    forall p | 0 <= p < n
      ensures t[p] == Rotate(s, x)[p]
    {
      var q := PosOnto(n, x, p);
      WriteHopsRight(n, x, q);
      RotateFrom(s, x, p);
    }
  }

  /** exchange(i, j): the two positions trade programs. */
  method DoExchange(a: array<Symbol>, i: int, j: int)
    requires 0 <= i < a.Length && 0 <= j < a.Length
    modifies a
    ensures a[..] == Swap(old(a[..]), i, j)
  {
    a[i], a[j] := a[j], a[i];
  }

  /** partner(p, q): the programs named p and q trade places. */
  method DoPartner(a: array<Symbol>, p: Symbol, q: Symbol)
    requires p in a[..] && q in a[..]
    modifies a
    ensures a[..] == Trade(old(a[..]), p, q)
  {
    var i := IndexOf(a[..], p);
    var j := IndexOf(a[..], q);
    DoExchange(a, i, j);
  }

  /** performDance: the moves in order, unknown letters skipped. */
  method PerformDance(a: array<Symbol>, ms: seq<Move>)
    requires AllPerformable(ms, a[..])
    modifies a
    ensures a[..] == Perform(old(a[..]), ms)
  {
    for k := 0 to |ms|
      invariant multiset(a[..]) == multiset(old(a[..]))
      invariant AllPerformable(ms[k..], a[..])
      invariant Perform(a[..], ms[k..]) == Perform(old(a[..]), ms)
    {
      ghost var before := a[..];
      assert ms[k..][0] == ms[k] && ms[k..][1..] == ms[k + 1..];
      match ms[k] {
        case Spin(x) => DoSpin(a, x);
        case Exchange(i, j) => DoExchange(a, i, j);
        case Partner(p, q) => DoPartner(a, p, q);
        case Other(_) =>
      }
      assert a[..] == Step(before, ms[k]);
      PerformableOnContents(ms[k + 1..], before, a[..]);
    }
  }
}
