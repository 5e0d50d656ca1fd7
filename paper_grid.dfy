/**
 * Rolls of paper on a grid, from 2025/day4/2025-day4.ts.  A cell holds a
 * roll or is empty; a roll is accessible when at most MaxAdj of its eight
 * neighbours hold rolls.  Part one counts the accessible rolls; part two
 * keeps removing every accessible roll, pass after pass, until a pass finds
 * no accessible roll, and counts the rolls removed.  The grid is a
 * rectangular array indexed [row, column]; the neighbour count is stated
 * over the set of positions holding rolls, so that part two's passes can be
 * described on sets.
 */
module PaperGrid {

  const MaxAdj := 3

  /** A roll at (a, b); any position off the grid holds none. */
  predicate Cell(grid: array2<bool>, a: int, b: int)
    reads grid
  {
    0 <= a < grid.Length0 && 0 <= b < grid.Length1 && grid[a, b]
  }

  /** The positions holding rolls. */
  function Rolls(grid: array2<bool>): set<(int, int)>
    reads grid
  {
    set a, b | 0 <= a < grid.Length0 && 0 <= b < grid.Length1 && grid[a, b] :: (a, b)
  }

  /** A cell holds a roll exactly when its position is among the rolls. */
  lemma CellIsRoll(grid: array2<bool>, a: int, b: int)
    ensures Cell(grid, a, b) <==> (a, b) in Rolls(grid)
  {
  }

  /** 1 when the cell at offset (y, x) from (i, j) is a neighbour among the rolls R; the cell itself is no neighbour. */
  function Neighbour(R: set<(int, int)>, i: int, j: int, y: int, x: int): (n: nat)
    ensures n <= 1 && ((y, x) == (0, 0) ==> n == 0)
  {
    if (y, x) != (0, 0) && (i + y, j + x) in R then 1 else 0
  }

  /** The neighbours at offsets (y, -1) .. (y, x - 1): the part of row y scanned before x. */
  function RowPart(R: set<(int, int)>, i: int, j: int, y: int, x: int): (n: nat)
    requires -1 <= x <= 2
    ensures n <= x + 1 && (y == 0 && x >= 1 ==> n <= x)
    decreases x + 1
  {
    if x == -1 then 0 else RowPart(R, i, j, y, x - 1) + Neighbour(R, i, j, y, x - 1)
  }

  /** The neighbours in the rows -1 .. y - 1 of the block around (i, j). */
  function Rows(R: set<(int, int)>, i: int, j: int, y: int): (n: nat)
    requires -1 <= y <= 2
    ensures n <= 3 * (y + 1) - (if y >= 1 then 1 else 0)
    decreases y + 1
  {
    if y == -1 then 0 else Rows(R, i, j, y - 1) + RowPart(R, i, j, y - 1, 2)
  }

  /** The number of neighbours of (i, j) among the rolls R: between 0 and 8. */
  function Adj(R: set<(int, int)>, i: int, j: int): (n: nat)
    ensures n <= 8
  {
    Rows(R, i, j, 2)
  }

  predicate Accessible(grid: array2<bool>, a: int, b: int)
    reads grid
  {
    Cell(grid, a, b) && Adj(Rolls(grid), a, b) <= MaxAdj
  }

  /** The positions of the accessible rolls. */
  function AccessibleSet(grid: array2<bool>): (s: set<(int, int)>)
    reads grid
    ensures s <= Rolls(grid)
  {
    set a, b | 0 <= a < grid.Length0 && 0 <= b < grid.Length1 && Accessible(grid, a, b) :: (a, b)
  }

  /** The rolls of R that have at most MaxAdj neighbours in R. */
  function AccessibleIn(R: set<(int, int)>): (s: set<(int, int)>)
    ensures s <= R
    ensures forall p :: p in s <==> p in R && Adj(R, p.0, p.1) <= MaxAdj
  {
    set p | p in R && Adj(R, p.0, p.1) <= MaxAdj
  }

  /** On a grid, the accessible rolls are those accessible among its rolls. */
  lemma AccessibleOnGrid(grid: array2<bool>)
    ensures AccessibleSet(grid) == AccessibleIn(Rolls(grid))
  {
    forall p | p in AccessibleIn(Rolls(grid))
      ensures p in AccessibleSet(grid)
    {
      CellIsRoll(grid, p.0, p.1);
    }
  }

  /**
   * Part two on sets: remove every accessible roll of R at once, pass after
   * pass, until a pass finds none.  The result is a subset of R in which no
   * roll is accessible, and none of the rolls accessible in R survives.
   */
  function Peel(R: set<(int, int)>): (P: set<(int, int)>)
    ensures P <= R
    ensures AccessibleIn(P) == {}
    ensures AccessibleIn(R) !! P
    decreases |R|
  {
    var A := AccessibleIn(R);
    if A == {} then R
    else
      SubsetSize(A, R);
      Peel(R - A)
  }

  /** A pass that finds nothing accessible ends part two; otherwise part two goes on from what the pass leaves. */
  lemma PeelStep(R: set<(int, int)>)
    ensures AccessibleIn(R) == {} ==> Peel(R) == R
    ensures AccessibleIn(R) != {} ==> Peel(R) == Peel(R - AccessibleIn(R)) && |R - AccessibleIn(R)| < |R|
  {
    if AccessibleIn(R) != {} {
      SubsetSize(AccessibleIn(R), R);
    }
  }

  /** Peeling is idempotent: what part two leaves has nothing more to remove. */
  lemma PeelIdempotent(R: set<(int, int)>)
    ensures Peel(Peel(R)) == Peel(R)
  {
    PeelStep(Peel(R));
  }

  // ------------------------------------------------------------------
  // numAdj
  // ------------------------------------------------------------------

  /** numAdj: scan the 3 x 3 block around (i, j), skipping the cell itself and positions off the grid. */
  method NumAdj(i: int, j: int, grid: array2<bool>) returns (sum: nat)
    ensures sum == Adj(Rolls(grid), i, j)
    ensures sum <= 8
  {
    ghost var R := Rolls(grid);
    sum := 0;
    for y := -1 to 2
      invariant sum == Rows(R, i, j, y)
    {
      for x := -1 to 2
        invariant sum == Rows(R, i, j, y) + RowPart(R, i, j, y, x)
      {
        NeighbourOnGrid(grid, i, j, y, x);
        if i + y >= 0 && i + y < grid.Length0 && j + x >= 0 && j + x < grid.Length1 &&
           !(y == 0 && x == 0) && grid[i + y, j + x] {
          sum := sum + 1;
        }
      }
    }
  }

  /** On a grid, a neighbour counts when it is on the grid and holds a roll. */
  lemma NeighbourOnGrid(grid: array2<bool>, i: int, j: int, y: int, x: int)
    ensures Neighbour(Rolls(grid), i, j, y, x) == if (y, x) != (0, 0) && Cell(grid, i + y, j + x) then 1 else 0
  {
    CellIsRoll(grid, i + y, j + x);
  }

  // ------------------------------------------------------------------
  // Scanning in row-major order
  // ------------------------------------------------------------------

  /** The accessible rolls strictly before (i, j) in row-major order. */
  function Scanned(grid: array2<bool>, i: int, j: int): set<(int, int)>
    reads grid
  {
    set a, b | 0 <= a < grid.Length0 && 0 <= b < grid.Length1 && (a < i || (a == i && b < j)) &&
               Accessible(grid, a, b) :: (a, b)
  }

  lemma ScannedStep(grid: array2<bool>, i: int, j: int)
    requires 0 <= i < grid.Length0 && 0 <= j < grid.Length1
    ensures (i, j) !in Scanned(grid, i, j)
    ensures Scanned(grid, i, j + 1) == Scanned(grid, i, j) + (if Accessible(grid, i, j) then {(i, j)} else {})
  {
  }

  lemma ScannedRow(grid: array2<bool>, i: int)
    ensures Scanned(grid, i, grid.Length1) == Scanned(grid, i + 1, 0)
  {
  }

  lemma ScannedAll(grid: array2<bool>)
    ensures Scanned(grid, grid.Length0, 0) == AccessibleSet(grid)
  {
  }

  lemma {:induction false} SubsetSize<T>(a: set<T>, b: set<T>)
    requires a <= b
    ensures |a| <= |b| && |b - a| == |b| - |a|
    decreases |a|
  {
    if a != {} {
      var x :| x in a;
      SubsetSize(a - {x}, b - {x});
      assert b - {x} - (a - {x}) == b - a;
    }
  }

  /** part1: the number of accessible rolls, at most the number of rolls. */
  method Part1(grid: array2<bool>) returns (res: nat)
    ensures res == |AccessibleSet(grid)|
    ensures res <= |Rolls(grid)|
  {
    res := 0;
    ghost var seen: set<(int, int)> := {};
    for i := 0 to grid.Length0
      invariant seen == Scanned(grid, i, 0) && res == |seen|
    {
      for j := 0 to grid.Length1
        invariant seen == Scanned(grid, i, j) && res == |seen|
      {
        ScannedStep(grid, i, j);
        if grid[i, j] {
          var n := NumAdj(i, j, grid);
          if n <= MaxAdj {
            res := res + 1;
            seen := seen + {(i, j)};
          }
        }
      }
      ScannedRow(grid, i);
    }
    ScannedAll(grid);
    SubsetSize(AccessibleSet(grid), Rolls(grid));
  }

  // ------------------------------------------------------------------
  // part2
  // ------------------------------------------------------------------

  /** One scan of part2: collect the accessible rolls into toRemove, counting them. */
  method ScanPass(grid: array2<bool>) returns (count: nat, toRemove: set<(int, int)>)
    ensures toRemove == AccessibleSet(grid) && count == |toRemove|
  {
    count := 0;
    toRemove := {};
    for i := 0 to grid.Length0
      invariant toRemove == Scanned(grid, i, 0) && count == |toRemove|
    {
      for j := 0 to grid.Length1
        invariant toRemove == Scanned(grid, i, j) && count == |toRemove|
      {
        ScannedStep(grid, i, j);
        if grid[i, j] {
          var n := NumAdj(i, j, grid);
          if n <= MaxAdj {
            count := count + 1;
            toRemove := toRemove + {(i, j)};
          }
        }
      }
      ScannedRow(grid, i);
    }
    ScannedAll(grid);
  }

  /** Clear every cell of toRemove, one at a time in no particular order. */
  method RemoveAll(grid: array2<bool>, toRemove: set<(int, int)>)
    requires toRemove <= Rolls(grid)
    modifies grid
    ensures Rolls(grid) == old(Rolls(grid)) - toRemove
  {
    ghost var before := Rolls(grid);
    var rest := toRemove;
    while rest != {}
      invariant rest <= toRemove
      invariant Rolls(grid) == before - (toRemove - rest)
      decreases |rest|
    {
      var p :| p in rest;
      ghost var r0 := Rolls(grid);
      grid[p.0, p.1] := false;
      assert Rolls(grid) == r0 - {p};
      rest := rest - {p};
    }
  }

  /**
   * part2: remove all accessible rolls at once, pass after pass, until a
   * pass finds none.  The rolls left are Peel of the rolls at the start; the
   * result is how many were removed; afterwards no roll is accessible; and
   * every roll accessible at the start (part1's count) is among those
   * removed.
   */
  method Part2(grid: array2<bool>) returns (res: nat)
    modifies grid
    ensures Rolls(grid) == Peel(old(Rolls(grid)))
    ensures Rolls(grid) <= old(Rolls(grid))
    ensures res == |old(Rolls(grid))| - |Rolls(grid)|
    ensures AccessibleSet(grid) == {}
    ensures old(AccessibleSet(grid)) !! Rolls(grid)
    ensures |old(AccessibleSet(grid))| <= res
  {
    res := 0;
    ghost var initial := Rolls(grid);
    AccessibleOnGrid(grid);
    while true
      invariant Rolls(grid) <= initial && res == |initial| - |Rolls(grid)|
      invariant Peel(Rolls(grid)) == Peel(initial)
      decreases |Rolls(grid)|
    {
      ghost var before := Rolls(grid);
      var count, toRemove := ScanPass(grid);
      AccessibleOnGrid(grid);
      PeelStep(before);
      res := res + count;
      if |toRemove| == 0 {
        SubsetSize(Rolls(grid), initial);
        SubsetSize(old(AccessibleSet(grid)), initial - Rolls(grid));
        return res;
      }
      RemoveAll(grid, toRemove);
      SubsetSize(toRemove, before);
      SubsetSize(before, initial);
      SubsetSize(Rolls(grid), initial);
    }
  }

  // ------------------------------------------------------------------
  // An example: part two stops with rolls left
  // ------------------------------------------------------------------

  /** The positions of a full 4 x 4 block of rolls. */
  function Block(): set<(int, int)>
  {
    set a, b | 0 <= a < 4 && 0 <= b < 4 :: (a, b)
  }

  /** How many of the rows (or columns) a - 1 .. a + 1 lie inside the block. */
  function BlockSpan(a: int): int
  {
    if a == 0 || a == 3 then 2 else 3
  }

  lemma InBlock(a: int, b: int)
    ensures (a, b) in Block() <==> 0 <= a < 4 && 0 <= b < 4
  {
    if 0 <= a < 4 && 0 <= b < 4 { assert (a, b) in Block(); }
  }

  lemma RowInBlock(a: int, b: int, y: int)
    requires 0 <= a < 4 && 0 <= b < 4 && -1 <= y <= 1
    ensures RowPart(Block(), a, b, y, 2) == (if 0 <= a + y < 4 then BlockSpan(b) else 0) - (if y == 0 then 1 else 0)
  {
    InBlock(a + y, b - 1);
    InBlock(a + y, b);
    InBlock(a + y, b + 1);
  }

  /** In a full block, a roll's neighbours are the in-block cells around it. */
  lemma AdjInBlock(a: int, b: int)
    requires 0 <= a < 4 && 0 <= b < 4
    ensures Adj(Block(), a, b) == BlockSpan(a) * BlockSpan(b) - 1
  {
    RowInBlock(a, b, -1);
    RowInBlock(a, b, 0);
    RowInBlock(a, b, 1);
  }

  /** The corners of the 4 x 4 block. */
  const Corners: set<(int, int)> := {(0, 0), (0, 3), (3, 0), (3, 3)}

  /** On a full 4 x 4 block, exactly the four corners are accessible. */
  lemma CornersAccessible()
    ensures AccessibleIn(Block()) == Corners
  {
    forall p | p in Block() ensures (p in Corners <==> Adj(Block(), p.0, p.1) <= MaxAdj) {
      InBlock(p.0, p.1);
      AdjInBlock(p.0, p.1);
    }
    forall p | p in Corners ensures p in Block() {
      InBlock(p.0, p.1);
    }
  }

  lemma InPeeled(a: int, b: int)
    ensures (a, b) in Block() - Corners <==> 0 <= a < 4 && 0 <= b < 4 && (a, b) !in Corners
  {
    InBlock(a, b);
  }

  /** Once the corners are gone, every remaining roll still has at least four neighbours. */
  lemma PeeledAdj(a: int, b: int)
    requires 0 <= a < 4 && 0 <= b < 4 && (a, b) !in Corners
    ensures Adj(Block() - Corners, a, b) >= 4
  {
    InPeeled(a - 1, b - 1); InPeeled(a - 1, b); InPeeled(a - 1, b + 1);
    InPeeled(a, b - 1); InPeeled(a, b + 1);
    InPeeled(a + 1, b - 1); InPeeled(a + 1, b); InPeeled(a + 1, b + 1);
  }

  lemma CornersSize()
    ensures |Corners| == 4
  {
    var s2 := {(0, 0)} + {(0, 3)};
    assert |s2| == 2;
    var s3 := s2 + {(3, 0)};
    assert |s3| == 3;
    assert Corners == s3 + {(3, 3)};
  }

  /** After the corners are removed, no roll of the block is accessible. */
  lemma PeeledStable()
    ensures AccessibleIn(Block() - Corners) == {}
  {
    forall p | p in Block() - Corners ensures Adj(Block() - Corners, p.0, p.1) > MaxAdj {
      InPeeled(p.0, p.1);
      PeeledAdj(p.0, p.1);
    }
  }

  /**
   * On a full 4 x 4 block, part two removes the four corners in its first
   * pass and then finds nothing accessible: it answers 4, and the rest of
   * the block stays on the grid.
   */
  lemma FullBlockPeel()
    ensures Peel(Block()) == Block() - Corners
    ensures |Block()| - |Peel(Block())| == 4
  {
    CornersAccessible();
    PeelStep(Block());
    PeeledStable();
    PeelStep(Block() - Corners);
    CornersSize();
    SubsetSize(Corners, Block());
  }
}
