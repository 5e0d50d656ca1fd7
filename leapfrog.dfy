/**
 * The arithmetic behind the cycle-leader ("leapfrog") right rotation used by
 * spin in 2017-day16/2017-day16.kts.
 *
 * For a line of n slots and a hop 0 < x < n, the walk i -> (i + x) % n from any
 * slot comes back to that slot after exactly Period(n, x) hops, and the slots
 * split into Cycles(n, x) disjoint walks of that length.  The rotation loop
 * starts its walks at slots 1, 2, ..., Cycles(n, x); its write number q goes to
 * slot Pos(n, x, q).  This module proves that the n writes hit n distinct slots,
 * hence every slot exactly once, without any appeal to gcd or Bezout.
 */
module Leapfrog {

  import opened Arith

  // ---------------------------------------------------------------------------
  // The period of the walk and the number of walks
  // ---------------------------------------------------------------------------

  /** u hops of size x bring every slot of an n-slot line back to itself. */
  predicate Returns(n: nat, x: nat, u: nat)
    requires n > 0
  {
    (u * x) % n == 0
  }

  function PeriodFrom(n: nat, x: nat, t: nat): (p: nat)
    requires 0 < n && 1 <= t <= n
    requires forall u :: 1 <= u < t ==> !Returns(n, x, u)
    ensures t <= p <= n && Returns(n, x, p)
    ensures forall u :: 1 <= u < p ==> !Returns(n, x, u)
    decreases n - t
  {
    if Returns(n, x, t) then t
    else
      assert t < n by { MulMod(x, n); }
      PeriodFrom(n, x, t + 1)
  }

  /** The least positive number of hops that returns to the starting slot. */
  function Period(n: nat, x: nat): (p: nat)
    requires 0 < n
    ensures 1 <= p <= n && Returns(n, x, p)
    ensures forall u :: 1 <= u < p ==> !Returns(n, x, u)
  {
    PeriodFrom(n, x, 1)
  }

  /** The number of disjoint walks the rotation has to follow. */
  function Cycles(n: nat, x: nat): nat
    requires 0 < n
  {
    n / Period(n, x)
  }

  /** The witness of a returning hop count: u hops cover a whole number of laps. */
  lemma ReturnsWitness(n: nat, x: nat, u: nat) returns (j: int)
    requires n > 0 && Returns(n, x, u)
    ensures u * x == n * j
  {
    j := (u * x) / n;
    assert u * x == n * j + (u * x) % n;
  }

  lemma ReturnsDiff(n: nat, x: nat, a: nat, b: nat)
    requires n > 0 && b <= a && Returns(n, x, a) && Returns(n, x, b)
    ensures Returns(n, x, a - b)
  {
    var ja := ReturnsWitness(n, x, a);
    var jb := ReturnsWitness(n, x, b);
    assert (a - b) * x == n * (ja - jb) by {
      assert (a - b) * x == a * x - b * x;
      assert n * (ja - jb) == n * ja - n * jb;
    }
    MulMod(ja - jb, n);
  }

  lemma ReturnsScale(n: nat, x: nat, c: nat, a: nat)
    requires n > 0 && Returns(n, x, a)
    ensures Returns(n, x, c * a)
  {
    var j := ReturnsWitness(n, x, a);
    assert (c * a) * x == n * (c * j) by {
      assert (c * a) * x == c * (a * x);
      assert c * (n * j) == n * (c * j);
    }
    MulMod(c * j, n);
  }

  /** The period divides n, is at least 2, and there are fewer walks than slots. */
  lemma PeriodDividesLength(n: nat, x: nat)
    requires 0 < x < n
    ensures 2 <= Period(n, x)
    ensures Cycles(n, x) * Period(n, x) == n
    ensures 1 <= Cycles(n, x) < n
  {
    var L := Period(n, x);
    assert L != 1 by { DivModUnique(x, n, 0, x); }
    var q, r := n / L, n % L;
    assert n == L * q + r;
    if r != 0 {
      assert Returns(n, x, n) by { MulMod(x, n); }
      ReturnsScale(n, x, q, L);
      assert n - q * L == r;
      ReturnsDiff(n, x, n, q * L);
    }
    assert q * L == n;
    assert q >= 1;
    MulMono(2, L, q);
  }

  // ---------------------------------------------------------------------------
  // The write order of the rotation loop
  // ---------------------------------------------------------------------------

  /** The slot that write number q fills: hop q % L + 1 of the walk from slot q / L + 1. */
  function Pos(n: nat, x: nat, q: nat): nat
    requires 0 < n
  {
    (q / Period(n, x) + 1 + (q % Period(n, x) + 1) * x) % n
  }

  /** The slot whose original value write number q carries: one hop earlier on the same walk. */
  function PosBefore(n: nat, x: nat, q: nat): nat
    requires 0 < n
  {
    (q / Period(n, x) + 1 + (q % Period(n, x)) * x) % n
  }

  /** Every write number below n belongs to one of the walks started at 1 .. Cycles(n, x). */
  lemma WalkIndexBound(n: nat, x: nat, q: nat)
    requires 0 < x < n && q < n
    ensures q / Period(n, x) + 1 < n
    ensures q / Period(n, x) < Cycles(n, x)
  {
    PeriodDividesLength(n, x);
    DivBelow(q, Period(n, x), Cycles(n, x));
  }

  /** A write moves its value exactly x slots to the right (mod n). */
  lemma WriteHopsRight(n: nat, x: nat, q: nat)
    requires 0 < x < n
    ensures Pos(n, x, q) == (PosBefore(n, x, q) + x) % n
    ensures PosBefore(n, x, q) == (Pos(n, x, q) + n - x) % n
  {
    var L := Period(n, x);
    var a := q / L + 1 + (q % L) * x;
    assert a + x == q / L + 1 + (q % L + 1) * x;
    assert a == n * (a / n) + a % n;
    ModShift(a / n, a % n + x, n);
    var p := PosBefore(n, x, q);
    var s := Pos(n, x, q);
    assert p + x == n * ((p + x) / n) + s;
    if p + x < n {
      DivModUnique(p + x, n, 0, p + x);
      ModShift(1, p, n);
      DivModUnique(p, n, 0, p);
    } else {
      DivModUnique(p + x, n, 1, p + x - n);
      DivModUnique(p, n, 0, p);
    }
  }

  /** The first write of a walk carries the value of the walk's start slot. */
  lemma WalkStart(n: nat, x: nat, q: nat)
    requires 0 < x < n && q < n && q % Period(n, x) == 0
    ensures PosBefore(n, x, q) == q / Period(n, x) + 1
  {
    WalkIndexBound(n, x, q);
    DivModUnique(q / Period(n, x) + 1, n, 0, q / Period(n, x) + 1);
  }

  /** Inside a walk, each write carries the value the previous write displaced. */
  lemma WalkContinues(n: nat, x: nat, q: nat)
    requires 0 < n && 1 <= q && q % Period(n, x) != 0
    ensures PosBefore(n, x, q) == Pos(n, x, q - 1)
    ensures (q - 1) / Period(n, x) == q / Period(n, x)
    ensures (q - 1) % Period(n, x) == q % Period(n, x) - 1
  {
    var L := Period(n, x);
    DivModUnique(q - 1, L, q / L, q % L - 1);
  }

  /** The write after the last one of a walk starts the next walk. */
  lemma WalkTurnover(n: nat, x: nat, q: nat)
    requires 0 < n && 1 <= q && q % Period(n, x) == 0
    ensures (q - 1) / Period(n, x) + 1 == q / Period(n, x)
    ensures (q - 1) % Period(n, x) == Period(n, x) - 1
  {
    var L := Period(n, x);
    DivModUnique(q - 1, L, q / L - 1, L - 1);
  }

  /** The last write of a walk lands on the walk's start slot. */
  lemma WalkCloses(n: nat, x: nat, q: nat)
    requires 0 < x < n && q < n && q % Period(n, x) == Period(n, x) - 1
    ensures Pos(n, x, q) == q / Period(n, x) + 1
  {
    var L := Period(n, x);
    var c := q / L;
    var j := ReturnsWitness(n, x, L);
    WalkIndexBound(n, x, q);
    assert c + 1 + (q % L + 1) * x == n * j + (c + 1);
    ModShift(j, c + 1, n);
    DivModUnique(c + 1, n, 0, c + 1);
  }

  /** Multiplying a hop equation by the period cancels the hops. */
  lemma CancelHops(L: int, c: int, t: int, x: int, n: int, k: int, j: int, g: int) returns (d: int)
    requires L > 0 && c + t * x == n * k && L * x == n * j && g * L == n
    ensures c == g * d
  {
    d := L * k - t * j;
    calc {
      L * c;
      L * (n * k - t * x);
      L * (n * k) - t * (L * x);
      L * (n * k) - t * (n * j);
      n * d;
      (g * L) * d;
      L * (g * d);
    }
    MulCancel(L, c, g * d);
  }

  /** Write q fills slot (A + m * x) % n, where A = q / L + 1 is its walk's start and m = q % L + 1. */
  lemma PosParts(n: nat, x: nat, q: nat) returns (c: nat, m: nat)
    requires 0 < n
    ensures c == q / Period(n, x) && m == q % Period(n, x) + 1
    ensures q == Period(n, x) * c + (m - 1) && 1 <= m <= Period(n, x)
    ensures Pos(n, x, q) == (c + 1 + m * x) % n
  {
    c, m := q / Period(n, x), q % Period(n, x) + 1;
  }

  /** Two writes that fill the same slot belong to the same walk. */
  lemma SameWalk(n: nat, x: nat, c1: nat, m1: nat, c2: nat, m2: nat) returns (k: int)
    requires 0 < x < n && c1 < Cycles(n, x) && c2 < Cycles(n, x)
    requires (c1 + 1 + m1 * x) % n == (c2 + 1 + m2 * x) % n
    ensures c1 == c2 && (m1 - m2) * x == n * k
  {
    PeriodDividesLength(n, x);
    var L, g := Period(n, x), Cycles(n, x);
    k := SameRemainder(c1 + 1 + m1 * x, c2 + 1 + m2 * x, n);
    SubMul(m1, m2, x);
    var j := ReturnsWitness(n, x, L);
    var d := CancelHops(L, c1 - c2, m1 - m2, x, n, k, j, g);
    SmallMultiple(g, d);
  }

  /** Within one walk, two hop counts below the period reach different slots. */
  lemma SameHops(n: nat, x: nat, m1: nat, m2: nat, k: int)
    requires 0 < n && 1 <= m1 <= Period(n, x) && 1 <= m2 <= Period(n, x)
    requires (m1 - m2) * x == n * k
    ensures m1 == m2
  {
    if m1 > m2 {
      MulMod(k, n);
      assert Returns(n, x, m1 - m2);
    } else if m1 < m2 {
      assert (m2 - m1) * x == n * (-k);
      MulMod(-k, n);
      assert Returns(n, x, m2 - m1);
    }
  }

  /** Two writes below n never fill the same slot. */
  lemma PosInjective(n: nat, x: nat, q1: nat, q2: nat)
    requires 0 < x < n && q1 < n && q2 < n
    ensures Pos(n, x, q1) == Pos(n, x, q2) ==> q1 == q2
  {
    if Pos(n, x, q1) == Pos(n, x, q2) {
      var c1, m1 := PosParts(n, x, q1);
      var c2, m2 := PosParts(n, x, q2);
      WalkIndexBound(n, x, q1);
      WalkIndexBound(n, x, q2);
      var k := SameWalk(n, x, c1, m1, c2, m2);
      SameHops(n, x, m1, m2, k);
    }
  }

  /** The number of the last write of walk c. */
  lemma LastOfWalk(n: nat, x: nat, c: nat) returns (last: nat)
    requires 0 < x < n && c < Cycles(n, x)
    ensures last < n && last / Period(n, x) == c && last % Period(n, x) == Period(n, x) - 1
    ensures last == Period(n, x) * c + Period(n, x) - 1
  {
    PeriodDividesLength(n, x);
    var L := Period(n, x);
    MulMono(c + 1, Cycles(n, x), L);
    assert (c + 1) * L == L * c + L;
    last := L * c + (L - 1);
    DivModUnique(last, L, c, L - 1);
  }

  /** Within a walk, only its last write lands on the walk's start slot. */
  lemma WalkClosesOnlyAtEnd(n: nat, x: nat, q: nat)
    requires 0 < x < n && q < n
    ensures Pos(n, x, q) == q / Period(n, x) + 1 <==> q % Period(n, x) == Period(n, x) - 1
  {
    var L := Period(n, x);
    if q % L == L - 1 {
      WalkCloses(n, x, q);
    } else {
      OnlyLastCloses(n, x, q);
    }
  }

  /** A write other than the last of its walk misses the walk's start slot. */
  lemma OnlyLastCloses(n: nat, x: nat, q: nat)
    requires 0 < x < n && q < n && q % Period(n, x) != Period(n, x) - 1
    ensures Pos(n, x, q) != q / Period(n, x) + 1
  {
    WalkIndexBound(n, x, q);
    var last := ClosingWrite(n, x, q / Period(n, x));
    PosDistinct(n, x, last);
  }

  /** The last write of walk c lands on the walk's start slot c + 1. */
  lemma ClosingWrite(n: nat, x: nat, c: nat) returns (last: nat)
    requires 0 < x < n && c < Cycles(n, x)
    ensures last < n && last % Period(n, x) == Period(n, x) - 1
    ensures Pos(n, x, last) == c + 1
  {
    last := LastOfWalk(n, x, c);
    WalkCloses(n, x, last);
    assert last / Period(n, x) == c;
  }

  // ---------------------------------------------------------------------------
  // Coverage: the first n writes fill every slot
  // ---------------------------------------------------------------------------

  function Written(n: nat, x: nat, k: nat): set<nat>
    requires 0 < n
  {
    set q | 0 <= q < k :: Pos(n, x, q)
  }

  function Slots(n: nat): (s: set<nat>)
    ensures |s| == n
    ensures forall p: nat :: p in s <==> p < n
  {
    if n == 0 then {}
    else
      var r := Slots(n - 1);
      assert n - 1 !in r;
      r + {n - 1}
  }

  lemma {:induction false} WrittenSize(n: nat, x: nat, k: nat)
    requires 0 < x < n && k <= n
    ensures |Written(n, x, k)| == k
  {
    if k > 0 {
      WrittenSize(n, x, k - 1);
      assert Written(n, x, k) == Written(n, x, k - 1) + {Pos(n, x, k - 1)};
      if Pos(n, x, k - 1) in Written(n, x, k - 1) {
        var q :| 0 <= q < k - 1 && Pos(n, x, q) == Pos(n, x, k - 1);
        PosInjective(n, x, q, k - 1);
      }
    }
  }

  /** Every slot is filled by some write below n. */
  lemma PosOnto(n: nat, x: nat, p: nat) returns (q: nat)
    requires 0 < x < n && p < n
    ensures q < n && Pos(n, x, q) == p
  {
    var w, s := Written(n, x, n), Slots(n);
    assert w <= s;
    WrittenSize(n, x, n);
    assert |s - w| == |s| - |w|;
    assert s - w == {};
    assert p in s;
    q :| 0 <= q < n && Pos(n, x, q) == p;
  }

  /** Distinct writes below n fill distinct slots. */
  lemma PosDistinct(n: nat, x: nat, k: nat)
    requires 0 < x < n && k < n
    ensures forall q :: 0 <= q < n && q != k ==> Pos(n, x, q) != Pos(n, x, k)
  {
    forall q | 0 <= q < n && q != k
      ensures Pos(n, x, q) != Pos(n, x, k)
    {
      PosInjective(n, x, q, k);
    }
  }

  /**
   * One round of the leapfrog loop, given the cursor i and the walk's
   * start slot after k writes: a new walk begins exactly when k is a
   * multiple of the period.
   */
  lemma LeapRestarts(n: nat, x: nat, k: nat, i: int, start: int)
    requires 0 < x < n && k < n
    requires k == 0 ==> i == 0 && start == 0
    requires 0 < k ==> i == Pos(n, x, k - 1) && start == (k - 1) / Period(n, x) + 1
    ensures start == i <==> k % Period(n, x) == 0
    ensures start != i ==>
      0 < k && i == PosBefore(n, x, k) && start == k / Period(n, x) + 1
  {
    var L := Period(n, x);
    PeriodDividesLength(n, x);
    if k > 0 {
      WalkClosesOnlyAtEnd(n, x, k - 1);
      if k % L == 0 {
        WalkTurnover(n, x, k);
      } else {
        WalkContinues(n, x, k);
      }
    }
  }

  /**
   * When a new walk begins at write k, it starts from the slot after the
   * previous start, and that slot still holds its original value, being
   * written last in its walk, at lastq >= k.
   */
  lemma LeapNewWalk(n: nat, x: nat, k: nat) returns (lastq: nat)
    requires 0 < x < n && k < n && k % Period(n, x) == 0
    ensures PosBefore(n, x, k) == k / Period(n, x) + 1
    ensures k == 0 ==> PosBefore(n, x, k) == 1 % n
    ensures 0 < k ==> PosBefore(n, x, k) == (Pos(n, x, k - 1) + 1) % n
    ensures k <= lastq < n && Pos(n, x, lastq) == PosBefore(n, x, k)
  {
    NextStart(n, x, k);
    WalkStart(n, x, k);
    lastq := StartWrittenLast(n, x, k);
  }

  /** The slot after the last write of the previous walk (after slot 0 at first) is the next walk's start. */
  lemma NextStart(n: nat, x: nat, k: nat)
    requires 0 < x < n && k < n && k % Period(n, x) == 0
    ensures k == 0 ==> 1 % n == k / Period(n, x) + 1
    ensures 0 < k ==> (Pos(n, x, k - 1) + 1) % n == k / Period(n, x) + 1
  {
    WalkIndexBound(n, x, k);
    if k > 0 {
      WalkTurnover(n, x, k);
      WalkCloses(n, x, k - 1);
    }
    DivModUnique(k / Period(n, x) + 1, n, 0, k / Period(n, x) + 1);
  }

  lemma StartWrittenLast(n: nat, x: nat, k: nat) returns (lastq: nat)
    requires 0 < x < n && k < n && k % Period(n, x) == 0
    ensures k <= lastq < n && Pos(n, x, lastq) == k / Period(n, x) + 1
  {
    var L := Period(n, x);
    var c := k / L;
    WalkIndexBound(n, x, k);
    lastq := LastOfWalk(n, x, c);
    MultipleBelowLast(k, L, c);
    WalkCloses(n, x, lastq);
    assert lastq / L == c;
    assert Pos(n, x, lastq) == c + 1;
  }

  /** A multiple k = L * c of L is at most L * c + L - 1, the last number with quotient c. */
  lemma MultipleBelowLast(k: int, L: int, c: int)
    requires L > 0 && k % L == 0 && c == k / L
    ensures k <= L * c + L - 1
  {
    assert k == L * c + k % L;
  }
}
