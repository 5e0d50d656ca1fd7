/**
 * The safe dial of 2025/day1/2025-day1.ts.  The dial shows 0..99 and starts
 * at 50; each rotation turns it left (towards lower numbers) or right by
 * some clicks.  Part one counts the rotations that leave the dial at 0,
 * part two the clicks that bring it to 0.
 */
module Dial {
  import opened Arith

  /** A parsed input line: its first character and the number after it. */
  datatype Rotation = Rotation(dir: char, amt: nat)

  const Start := 50

  /** JavaScript's a % 100, which truncates towards zero: the result has the sign of a. */
  function JsRem100(a: int): (r: int)
    ensures -100 < r < 100 && (a >= 0 ==> r >= 0) && (a < 0 ==> r <= 0)
    ensures (r - a) % 100 == 0
  {
    if a >= 0 then
      DivModUnique(a % 100 - a, 100, -(a / 100), 0);
      a % 100
    else
      DivModUnique(-((-a) % 100) - a, 100, (-a) / 100, 0);
      -((-a) % 100)
  }

  /** c of the source: -1 for "L", 1 for any other direction. */
  function Sign(rot: Rotation): int
  {
    if rot.dir == 'L' then -1 else 1
  }

  /** c * rot.amt: the signed number of clicks. */
  function Offset(rot: Rotation): int
  {
    if rot.dir == 'L' then -(rot.amt as int) else rot.amt
  }

  /**
   * One rotation as written: the truncating remainder of val + c * amt,
   * then 100 added when it came out negative.  The result is the dial
   * position, val + c * amt taken modulo 100.
   */
  function Turn(val: int, rot: Rotation): (r: int)
    ensures 0 <= r < 100 && r == (val + Offset(rot)) % 100
  {
    var v := JsRem100(val + Offset(rot));
    var r := if v < 0 then v + 100 else v;
    SameRemainderIfDiffers(r, val + Offset(rot));
    r
  }

  lemma SameRemainderIfDiffers(r: int, a: int)
    requires 0 <= r < 100 && (r - a) % 100 == 0
    ensures r == a % 100
  {
    var k := (r - a) / 100;
    DivModUnique(r - a, 100, k, 0);
    DivModUnique(a, 100, -k, r);
  }

  /** The comment examples of part1 (lines 50-56), with "L" for the minus sign. */
  lemma CommentExamples()
    ensures Turn(50, Rotation('R', 1)) == 51
    ensures Turn(50, Rotation('R', 55)) == 5
    ensures Turn(50, Rotation('L', 50)) == 0
    ensures Turn(50, Rotation('L', 51)) == 99
    ensures Turn(50, Rotation('L', 52)) == 98
    ensures Turn(50, Rotation('L', 240)) == 10
  {
  }

  // ------------------------------------------------------------------
  // Positions and part1
  // ------------------------------------------------------------------

  /** Where the dial is after all of rots, starting from start. */
  function End(start: int, rots: seq<Rotation>): int
  {
    if rots == [] then start else Turn(End(start, rots[..|rots| - 1]), rots[|rots| - 1])
  }

  /** The dial position after each rotation in turn. */
  function Positions(start: int, rots: seq<Rotation>): (ps: seq<int>)
    ensures |ps| == |rots|
    ensures forall k :: 0 <= k < |ps| ==> 0 <= ps[k] < 100
  {
    if rots == [] then [] else Positions(start, rots[..|rots| - 1]) + [End(start, rots)]
  }

  /** Each position is the previous one (or the start) turned by that rotation. */
  lemma {:induction false} PositionsStep(start: int, rots: seq<Rotation>, k: nat)
    requires k < |rots|
    ensures Positions(start, rots)[k] == Turn(if k == 0 then start else Positions(start, rots)[k - 1], rots[k])
    decreases |rots|
  {
    var init := rots[..|rots| - 1];
    if k < |rots| - 1 {
      PositionsStep(start, init, k);
      assert init[k] == rots[k];
    } else if k > 0 {
      PositionsLast(start, init);
    }
  }

  /** The zero count of the positions grows by one exactly when the last rotation ends at 0. */
  lemma PositionsSnoc(start: int, rots: seq<Rotation>)
    requires rots != []
    ensures multiset(Positions(start, rots))[0] ==
            multiset(Positions(start, rots[..|rots| - 1]))[0] + (if End(start, rots) == 0 then 1 else 0)
  {
    var init := Positions(start, rots[..|rots| - 1]);
    assert Positions(start, rots) == init + [End(start, rots)];
    assert multiset(init + [End(start, rots)]) == multiset(init) + multiset{End(start, rots)};
  }

  lemma PositionsLast(start: int, rots: seq<Rotation>)
    requires rots != []
    ensures Positions(start, rots)[|rots| - 1] == End(start, rots)
  {
  }

  /** c * rot.amt is the signed number of clicks. */
  lemma SignedClicks(rot: Rotation, c: int)
    requires c == Sign(rot)
    ensures c * rot.amt == Offset(rot)
  {
  }

  /** One more rotation: the dial turns once more, and the zero count grows when it stops at 0. */
  lemma Part1Step(start: int, rots: seq<Rotation>, k: nat)
    requires k < |rots|
    ensures End(start, rots[..k + 1]) == Turn(End(start, rots[..k]), rots[k])
    ensures multiset(Positions(start, rots[..k + 1]))[0] ==
            multiset(Positions(start, rots[..k]))[0] + (if End(start, rots[..k + 1]) == 0 then 1 else 0)
  {
    assert rots[..k + 1][..k] == rots[..k];
    PositionsSnoc(start, rots[..k + 1]);
  }

  /** part1: turn the dial from 50 and count the rotations that end at 0. */
  method Part1(rots: seq<Rotation>) returns (numZeroes: nat)
    ensures numZeroes == multiset(Positions(Start, rots))[0]
  {
    var val := Start;
    numZeroes := 0;
    for k := 0 to |rots|
      invariant val == End(Start, rots[..k])
      invariant numZeroes == multiset(Positions(Start, rots[..k]))[0]
    {
      Part1Step(Start, rots, k);
      var c := if rots[k].dir == 'L' then -1 else 1;
      SignedClicks(rots[k], c);
      val := JsRem100(val + c * rots[k].amt);
      if val < 0 {
        val := val + 100;
      }
      if val == 0 {
        numZeroes := numZeroes + 1;
      }
    }
    assert rots[..|rots|] == rots;
  }

  // ------------------------------------------------------------------
  // Clicks through zero
  // ------------------------------------------------------------------

  /** How many of the single clicks 1..amt in direction c leave the dial at 0. */
  function ClickZeros(val: int, c: int, amt: nat): nat
  {
    if amt == 0 then 0
    else ClickZeros(val, c, amt - 1) + (if (val + c * amt) % 100 == 0 then 1 else 0)
  }

  /** Counting the multiples of 100 in a window: one more step adds one exactly at a multiple. */
  lemma FloorStep(x: int)
    ensures (x + 1) / 100 == x / 100 + (if (x + 1) % 100 == 0 then 1 else 0)
  {
    var q, r := x / 100, x % 100;
    if r == 99 {
      DivModUnique(x + 1, 100, q + 1, 0);
    } else {
      DivModUnique(x + 1, 100, q, r + 1);
    }
  }

  /**
   * Clicks right pass 0 once per multiple of 100 in (val, val + amt]; clicks
   * left, once per multiple of 100 in [val - amt, val).
   */
  lemma {:induction false} ClickZerosClosedForm(val: int, c: int, amt: nat)
    requires c == 1 || c == -1
    ensures c == 1 ==> ClickZeros(val, c, amt) == (val + amt) / 100 - val / 100
    ensures c == -1 ==> ClickZeros(val, c, amt) == (val - 1) / 100 - (val - amt - 1) / 100
  {
    if amt > 0 {
      ClickZerosClosedForm(val, c, amt - 1);
      if c == 1 {
        FloorStep(val + amt - 1);
      } else {
        FloorStep(val - amt - 1);
      }
    }
  }

  /**
   * part2's count for one rotation as written: amt div 100 whole turns, plus
   * one when the dial lands on 0 or, from a non-zero start, wraps past 0.
   */
  function ZeroCountAsWritten(val: int, rot: Rotation): (n: nat)
    ensures rot.amt / 100 <= n <= rot.amt / 100 + 1
  {
    var extra := rot.amt / 100;
    var c := Sign(rot);
    var v := Turn(val, rot.(amt := rot.amt % 100));
    extra + (if v == 0 || (val != 0 && ((c == 1 && v < val) || (c == -1 && v > val))) then 1 else 0)
  }

  /** The same count with the landing on 0 credited only from a non-zero start. */
  function ZeroCount(val: int, rot: Rotation): nat
  {
    var extra := rot.amt / 100;
    var c := Sign(rot);
    var v := Turn(val, rot.(amt := rot.amt % 100));
    extra + (if val != 0 && (v == 0 || (c == 1 && v < val) || (c == -1 && v > val)) then 1 else 0)
  }

  /** The corrected count is the number of single clicks that leave the dial at 0. */
  lemma ZeroCountIsClicks(val: int, rot: Rotation)
    requires 0 <= val < 100
    ensures ZeroCount(val, rot) == ClickZeros(val, Sign(rot), rot.amt)
  {
    ClickZerosClosedForm(val, Sign(rot), rot.amt);
    if rot.dir == 'L' {
      ZeroCountLeft(val, rot);
    } else {
      ZeroCountRight(val, rot);
    }
  }

  /** Turning right: amt div 100 whole turns, plus one when the last partial turn wraps to or past 0. */
  lemma ZeroCountRight(val: int, rot: Rotation)
    requires 0 <= val < 100 && rot.dir != 'L'
    ensures ZeroCount(val, rot) == (val + rot.amt) / 100 - val / 100
  {
    var q, r := rot.amt / 100, rot.amt % 100;
    DivModUnique(val, 100, 0, val);
    var v := Turn(val, rot.(amt := r));
    assert v == (val + r) % 100;
    if val + r >= 100 {
      DivModUnique(val + r, 100, 1, val + r - 100);
      DivModUnique(val + rot.amt, 100, q + 1, val + r - 100);
    } else {
      DivModUnique(val + r, 100, 0, val + r);
      DivModUnique(val + rot.amt, 100, q, val + r);
    }
  }

  /** Turning left: amt div 100 whole turns, plus one when a non-zero start reaches or passes 0. */
  lemma ZeroCountLeft(val: int, rot: Rotation)
    requires 0 <= val < 100 && rot.dir == 'L'
    ensures ZeroCount(val, rot) == (val - 1) / 100 - (val - rot.amt - 1) / 100
  {
    var q, r := rot.amt / 100, rot.amt % 100;
    var v := Turn(val, rot.(amt := r));
    assert v == (val - r) % 100;
    if val == 0 {
      DivModUnique(val - 1, 100, -1, 99);
      DivModUnique(val - rot.amt - 1, 100, -q - 1, 99 - r);
    } else {
      DivModUnique(val - 1, 100, 0, val - 1);
      if val < r {
        DivModUnique(val - r, 100, -1, val - r + 100);
        DivModUnique(val - rot.amt - 1, 100, -q - 1, val - r + 99);
      } else if val == r {
        DivModUnique(val - r, 100, 0, 0);
        DivModUnique(val - rot.amt - 1, 100, -q - 1, 99);
      } else {
        DivModUnique(val - r, 100, 0, val - r);
        DivModUnique(val - rot.amt - 1, 100, -q, val - r - 1);
      }
    }
  }

  /**
   * As written, part2 counts one click too many exactly when the rotation
   * starts at 0 and its amount is a multiple of 100.
   */
  lemma AsWrittenOvercounts(val: int, rot: Rotation)
    requires 0 <= val < 100
    ensures ZeroCountAsWritten(val, rot) ==
            ClickZeros(val, Sign(rot), rot.amt) + (if val == 0 && rot.amt % 100 == 0 then 1 else 0)
  {
    ZeroCountIsClicks(val, rot);
  }

  /** Reducing amt modulo 100 first, as part2 does, leaves the landing position unchanged. */
  lemma SameLanding(val: int, rot: Rotation)
    ensures Turn(val, rot.(amt := rot.amt % 100)) == Turn(val, rot)
  {
    var q, r := rot.amt / 100, rot.amt % 100;
    if rot.dir == 'L' {
      ModShift(-q, val - r, 100);
    } else {
      ModShift(q, val + r, 100);
    }
  }

  /** The clicks through 0 over all of rots, each rotation starting where the last ended. */
  function TotalClicks(start: int, rots: seq<Rotation>): nat
  {
    if rots == [] then 0
    else
      var last := rots[|rots| - 1];
      TotalClicks(start, rots[..|rots| - 1]) + ClickZeros(End(start, rots[..|rots| - 1]), Sign(last), last.amt)
  }

  /** part2's answer as written: the per-rotation counts of ZeroCountAsWritten. */
  function TotalAsWritten(start: int, rots: seq<Rotation>): (n: nat)
    ensures 0 <= start < 100 ==> TotalClicks(start, rots) <= n <= TotalClicks(start, rots) + |rots|
  {
    if rots == [] then 0
    else
      var init, last := rots[..|rots| - 1], rots[|rots| - 1];
      var val := End(start, init);
      assert 0 <= start < 100 ==>
        ZeroCountAsWritten(val, last) - 1 <= ClickZeros(val, Sign(last), last.amt) <= ZeroCountAsWritten(val, last) by {
        if 0 <= start < 100 {
          assert 0 <= val < 100;
          AsWrittenOvercounts(val, last);
        }
      }
      TotalAsWritten(start, init) + ZeroCountAsWritten(val, last)
  }

  /**
   * From 50, "L50" brings the dial to 0 and "R100" turns it once round back
   * to 0: two clicks reach 0, but part2 as written answers 3.
   */
  lemma AsWrittenCounterexample()
    ensures TotalClicks(Start, [Rotation('L', 50), Rotation('R', 100)]) == 2
    ensures TotalAsWritten(Start, [Rotation('L', 50), Rotation('R', 100)]) == 3
  {
    var rots := [Rotation('L', 50), Rotation('R', 100)];
    assert rots[..1] == [Rotation('L', 50)] && rots[..1][..0] == [];
    assert End(Start, rots[..1]) == 0;
    ZeroCountIsClicks(Start, rots[0]);
    ZeroCountIsClicks(0, rots[1]);
  }

  /**
   * The rest of part2's forEach body, once extra is taken and amt reduced:
   * turn by the reduced rotation and count a landing on or a wrap past 0
   * from a non-zero start, then the extra whole turns.  The dial lands where
   * the full rotation would, and the count is its clicks through 0.
   */
  method CountRotation(orig: int, ghost rot: Rotation, extra: nat, reduced: Rotation) returns (val: int, clicks: nat)
    requires 0 <= orig < 100
    requires extra == rot.amt / 100 && reduced == rot.(amt := rot.amt % 100)
    ensures 0 <= val < 100 && val == Turn(orig, rot)
    ensures clicks == ClickZeros(orig, Sign(rot), rot.amt)
  {
    var c := if reduced.dir == 'L' then -1 else 1;
    SignedClicks(reduced, c);
    val := JsRem100(orig + c * reduced.amt);
    if val < 0 {
      val := val + 100;
    }
    SameLanding(orig, rot);
    ZeroCountIsClicks(orig, rot);
    clicks := 0;
    if orig != 0 && (val == 0 || (c == 1 && val < orig) || (c == -1 && val > orig)) {
      clicks := clicks + 1;
    }
    clicks := clicks + extra;
  }

  /** One more rotation: the dial turns once more, and its clicks through 0 are added. */
  lemma Part2Step(start: int, rots: seq<Rotation>, k: nat)
    requires k < |rots|
    ensures End(start, rots[..k + 1]) == Turn(End(start, rots[..k]), rots[k])
    ensures TotalClicks(start, rots[..k + 1]) ==
            TotalClicks(start, rots[..k]) + ClickZeros(End(start, rots[..k]), Sign(rots[k]), rots[k].amt)
  {
    assert rots[..k + 1][..k] == rots[..k];
  }

  /**
   * part2 (with the corrected count): reduces each rotation's amt modulo 100
   * in place and returns the number of clicks that leave the dial at 0.
   */
  method Part2(rots: array<Rotation>) returns (numZeroes: nat)
    modifies rots
    ensures forall k :: 0 <= k < rots.Length ==> rots[k] == old(rots[k]).(amt := old(rots[k]).amt % 100)
    ensures numZeroes == TotalClicks(Start, old(rots[..]))
  {
    ghost var input := rots[..];
    var val := Start;
    numZeroes := 0;
    for k := 0 to rots.Length
      invariant forall p :: 0 <= p < k ==> rots[p] == input[p].(amt := input[p].amt % 100)
      invariant forall p :: k <= p < rots.Length ==> rots[p] == input[p]
      invariant 0 <= val < 100 && val == End(Start, input[..k])
      invariant numZeroes == TotalClicks(Start, input[..k])
    {
      Part2Step(Start, input, k);
      assert rots[k] == input[k];
      var extra := rots[k].amt / 100;
      rots[k] := rots[k].(amt := rots[k].amt % 100);
      var clicks;
      val, clicks := CountRotation(val, input[k], extra, rots[k]);
      numZeroes := numZeroes + clicks;
    }
    assert input[..rots.Length] == input;
  }

  /** part2 visits the same positions as part1: reducing every amt modulo 100 changes no landing. */
  lemma {:induction false} ReducedSamePositions(start: int, rots: seq<Rotation>, reduced: seq<Rotation>)
    requires |reduced| == |rots|
    requires forall k :: 0 <= k < |rots| ==> reduced[k] == rots[k].(amt := rots[k].amt % 100)
    ensures End(start, reduced) == End(start, rots)
    ensures Positions(start, reduced) == Positions(start, rots)
    decreases |rots|
  {
    if rots != [] {
      var n := |rots| - 1;
      ReducedSamePositions(start, rots[..n], reduced[..n]);
      SameLanding(End(start, rots[..n]), rots[n]);
    }
  }

  /** Every rotation that ends at 0 has a click that reaches 0, so part2 >= part1. */
  lemma {:induction false} Part2AtLeastPart1(start: int, rots: seq<Rotation>)
    requires forall k :: 0 <= k < |rots| ==> rots[k].amt >= 1
    ensures TotalClicks(start, rots) >= multiset(Positions(start, rots))[0]
    decreases |rots|
  {
    if rots != [] {
      var n := |rots| - 1;
      Part2AtLeastPart1(start, rots[..n]);
      PositionsSnoc(start, rots);
      LandingIsAClick(End(start, rots[..n]), rots[n]);
    }
  }

  /** A rotation of at least one click that ends at 0 has its last click at 0. */
  lemma LandingIsAClick(val: int, rot: Rotation)
    requires rot.amt >= 1
    ensures ClickZeros(val, Sign(rot), rot.amt) >= (if Turn(val, rot) == 0 then 1 else 0)
  {
    assert Sign(rot) * rot.amt == Offset(rot);
  }

  /** As written, part2 counts every landing on 0, so it is never below part1. */
  lemma {:induction false} AsWrittenAtLeastPart1(start: int, rots: seq<Rotation>)
    ensures TotalAsWritten(start, rots) >= multiset(Positions(start, rots))[0]
    decreases |rots|
  {
    if rots != [] {
      var n := |rots| - 1;
      AsWrittenAtLeastPart1(start, rots[..n]);
      PositionsSnoc(start, rots);
      SameLanding(End(start, rots[..n]), rots[n]);
    }
  }
}
