/**
 * The cephalopod maths worksheet of 2025/day6/2025-day6.ts.  Problems are
 * laid out in columns with their operator, "+" or "*", on the bottom row.
 * Part one reads whole numbers per column; part two reads each number
 * top-down from a single character column.  Both add up the problems'
 * results.
 */
module Worksheet {
  import RepeatedIds

  function Sum(xs: seq<int>): int
  {
    if xs == [] then 0 else Sum(xs[..|xs| - 1]) + xs[|xs| - 1]
  }

  function Product(xs: seq<int>): int
  {
    if xs == [] then 1 else Product(xs[..|xs| - 1]) * xs[|xs| - 1]
  }

  /** What a problem's numbers come to under its operator. */
  function Fold(isSum: bool, xs: seq<int>): int
  {
    if isSum then Sum(xs) else Product(xs)
  }

  // ------------------------------------------------------------------
  // makeAcc
  // ------------------------------------------------------------------

  /**
   * The closure makeAcc returns: it adds when made from "+" and multiplies
   * otherwise, keeps the running total in acc and answers it.  The ghost
   * history records the arguments of the calls made so far.
   */
  class Accumulator {
    const isSum: bool
    var acc: int
    ghost var history: seq<int>

    /** The running total is the sum, or the product, of every argument so far. */
    ghost predicate Valid()
      reads this
    {
      acc == Fold(isSum, history)
    }

    constructor (s: string)
      ensures isSum == (s == "+") && history == [] && Valid()
      ensures acc == (if s == "+" then 0 else 1)
    {
      isSum := s == "+";
      acc := if s == "+" then 0 else 1;
      history := [];
    }

    method Apply(x: int) returns (r: int)
      requires Valid()
      modifies this
      ensures history == old(history) + [x] && Valid() && r == acc
    {
      acc := if isSum then acc + x else acc * x;
      history := history + [x];
      assert history[..|history| - 1] == old(history);
      r := acc;
    }
  }

  // ------------------------------------------------------------------
  // part1
  // ------------------------------------------------------------------

  /** Column i of the number rows, top to bottom. */
  function Column(rows: seq<seq<int>>, i: nat): (col: seq<int>)
    requires forall j :: 0 <= j < |rows| ==> i < |rows[j]|
    ensures |col| == |rows| && forall j :: 0 <= j < |rows| ==> col[j] == rows[j][i]
  {
    if rows == [] then [] else Column(rows[..|rows| - 1], i) + [rows[|rows| - 1][i]]
  }

  /** part1's grid[0].length: the first row's width (the operator row when there are no number rows). */
  function Width(rows: seq<seq<int>>, ops: seq<string>): nat
  {
    if rows == [] then |ops| else |rows[0]|
  }

  predicate Part1Input(rows: seq<seq<int>>, ops: seq<string>)
  {
    Width(rows, ops) <= |ops| && forall j :: 0 <= j < |rows| ==> Width(rows, ops) <= |rows[j]|
  }

  /** What column i contributes: its numbers folded under its operator, or -1 with no number rows. */
  function ColumnValue(rows: seq<seq<int>>, ops: seq<string>, i: nat): int
    requires Part1Input(rows, ops) && i < Width(rows, ops)
  {
    if rows == [] then -1 else Fold(ops[i] == "+", Column(rows, i))
  }

  /** The contributions of columns 0 .. n - 1. */
  function Part1Total(rows: seq<seq<int>>, ops: seq<string>, n: nat): int
    requires Part1Input(rows, ops) && n <= Width(rows, ops)
  {
    if n == 0 then 0 else Part1Total(rows, ops, n - 1) + ColumnValue(rows, ops, n - 1)
  }

  /** part1: one fresh accumulator per column, fed the column's numbers top to bottom. */
  method Part1(rows: seq<seq<int>>, ops: seq<string>) returns (res: int)
    requires Part1Input(rows, ops)
    ensures res == Part1Total(rows, ops, Width(rows, ops))
  {
    res := 0;
    for i := 0 to Width(rows, ops)
      invariant res == Part1Total(rows, ops, i)
    {
      var prob := SolveColumn(rows, ops, i);
      res := res + prob;
    }
  }

  /** The body of part1's loop over columns: -1 with no number rows, else the column folded under its operator. */
  method SolveColumn(rows: seq<seq<int>>, ops: seq<string>, i: nat) returns (prob: int)
    requires Part1Input(rows, ops) && i < Width(rows, ops)
    ensures prob == ColumnValue(rows, ops, i)
  {
    var acc := new Accumulator(ops[i]);
    prob := -1;
    ghost var column := if rows == [] then [] else Column(rows, i);
    for j := 0 to |rows|
      invariant acc.Valid() && acc.isSum == (ops[i] == "+")
      invariant acc.history == column[..j]
      invariant prob == if j == 0 then -1 else acc.acc
    {
      assert column[..j + 1] == column[..j] + [rows[j][i]];
      prob := acc.Apply(rows[j][i]);
    }
    assert column[..|rows|] == column;
  }

  /** Without number rows every column contributes -1. */
  lemma {:induction false} NoNumberRows(ops: seq<string>, n: nat)
    requires n <= |ops|
    ensures Part1Total([], ops, n) == -(n as int)
  {
    if n > 0 {
      NoNumberRows(ops, n - 1);
    }
  }

  // ------------------------------------------------------------------
  // part2: padding
  // ------------------------------------------------------------------

  function Spaces(n: nat): (s: string)
    ensures |s| == n && forall k :: 0 <= k < n ==> s[k] == ' '
  {
    if n == 0 then [] else Spaces(n - 1) + " "
  }

  /** Math.max of the row lengths. */
  function MaxLen(rows: seq<string>): (w: nat)
    requires rows != []
    ensures forall k :: 0 <= k < |rows| ==> |rows[k]| <= w
    ensures exists k :: 0 <= k < |rows| && |rows[k]| == w
  {
    if |rows| == 1 then |rows[0]|
    else
      var w := MaxLen(rows[..|rows| - 1]);
      var last := |rows[|rows| - 1]|;
      assert forall k :: 0 <= k < |rows| - 1 ==> rows[..|rows| - 1][k] == rows[k];
      if last > w then last else w
  }

  /**
   * A row padded with spaces on the right to width w: it has width w, starts
   * with the row and continues with spaces only.
   */
  function Pad(row: string, w: nat): (p: string)
    requires |row| <= w
    ensures |p| == w && p[..|row|] == row
    ensures forall k :: |row| <= k < w ==> p[k] == ' '
  {
    row + Spaces(w - |row|)
  }

  function Padded(rows: seq<string>, w: nat): (ps: seq<string>)
    requires forall k :: 0 <= k < |rows| ==> |rows[k]| <= w
    ensures |ps| == |rows| && forall k :: 0 <= k < |rows| ==> ps[k] == Pad(rows[k], w)
  {
    if rows == [] then [] else Padded(rows[..|rows| - 1], w) + [Pad(rows[|rows| - 1], w)]
  }

  // ------------------------------------------------------------------
  // part2: reading the columns
  // ------------------------------------------------------------------

  function TrimStart(s: string): (t: string)
    ensures |t| <= |s|
  {
    if s != [] && s[0] == ' ' then TrimStart(s[1..]) else s
  }

  function TrimEnd(s: string): (t: string)
    ensures |t| <= |s|
  {
    if s != [] && s[|s| - 1] == ' ' then TrimEnd(s[..|s| - 1]) else s
  }

  /** String.prototype.trim for a string of digits and spaces. */
  function Trim(s: string): string
  {
    TrimEnd(TrimStart(s))
  }

  /** Number(s) can read s: a block of digits with spaces around it, or spaces only. */
  predicate Numeric(s: string)
  {
    forall k :: 0 <= k < |Trim(s)| ==> RepeatedIds.IsDigit(Trim(s)[k])
  }

  /** The characters of column c in the number rows (all but the last), top to bottom. */
  function ColumnString(rows: seq<string>, c: nat): (s: string)
    requires rows != [] && forall r :: 0 <= r < |rows| ==> c < |rows[r]|
    ensures |s| == |rows| - 1 && forall r :: 0 <= r < |rows| - 1 ==> s[r] == rows[r][c]
  {
    if |rows| == 1 then "" else ColumnString(rows[..|rows| - 1], c) + [rows[|rows| - 2][c]]
  }

  /** A column of the padded worksheet: the character under it in the operator row, and its number if any. */
  datatype Col = Col(op: char, num: Option)

  datatype Option = None | Some(value: nat)

  predicate IsOp(x: char)
  {
    x == '+' || x == '*'
  }

  /** Every column of rows (all of width w) can be read. */
  predicate Readable(rows: seq<string>, w: nat)
  {
    rows != [] && (forall r :: 0 <= r < |rows| ==> |rows[r]| == w) &&
    forall c :: 0 <= c < w ==> Numeric(ColumnString(rows, c))
  }

  function ReadCol(rows: seq<string>, w: nat, c: nat): Col
    requires Readable(rows, w) && c < w
  {
    var s := ColumnString(rows, c);
    Col(rows[|rows| - 1][c], if Trim(s) == "" then None else Some(RepeatedIds.DecimalValue(Trim(s))))
  }

  /** The first n columns. */
  function Cols(rows: seq<string>, w: nat, n: nat): (cs: seq<Col>)
    requires Readable(rows, w) && n <= w
    ensures |cs| == n && forall c :: 0 <= c < n ==> cs[c] == ReadCol(rows, w, c)
  {
    if n == 0 then [] else Cols(rows, w, n - 1) + [ReadCol(rows, w, n - 1)]
  }

  /** One problem: its operator and the numbers read for it, left to right. */
  datatype Problem = Problem(isSum: bool, nums: seq<int>)

  /** An operator column opens a new problem; any other column opens none. */
  function Open(ps: seq<Problem>, op: char): (qs: seq<Problem>)
    ensures qs != [] || ps == []
  {
    ps + (if IsOp(op) then [Problem(op == '+', [])] else [])
  }

  /** A number goes to the open (last) problem. */
  function Feed(ps: seq<Problem>, v: int): (qs: seq<Problem>)
    requires ps != []
    ensures |qs| == |ps|
  {
    var last := ps[|ps| - 1];
    ps[..|ps| - 1] + [last.(nums := last.nums + [v])]
  }

  /** One column's effect on the problems: an operator opens one, a number feeds the open one. */
  function Take(ps: seq<Problem>, col: Col): (qs: seq<Problem>)
    requires ps != []
    ensures qs != []
  {
    var started := Open(ps, col.op);
    if col.num.Some? then Feed(started, col.num.value) else started
  }

  /**
   * The problems the columns make up: a "+" problem before the first
   * operator, then a new problem at every operator column; each number goes
   * to the problem open at its column.
   */
  function Problems(cols: seq<Col>): (ps: seq<Problem>)
    ensures ps != []
  {
    if cols == [] then [Problem(true, [])] else Take(Problems(cols[..|cols| - 1]), cols[|cols| - 1])
  }

  /**
   * What each problem hands on when it is closed: the fold of its numbers,
   * or, for a problem without numbers, what the problem before it handed on
   * (0 for the first).
   */
  function Carried(ps: seq<Problem>): (vs: seq<int>)
    ensures |vs| == |ps|
  {
    if ps == [] then []
    else
      var prev := Carried(ps[..|ps| - 1]);
      var p := ps[|ps| - 1];
      prev + [if p.nums == [] then (if prev == [] then 0 else prev[|prev| - 1]) else Fold(p.isSum, p.nums)]
  }

  /** Everything a problem hands on, summed: part2's answer. */
  function Total(ps: seq<Problem>): int
  {
    Sum(Carried(ps))
  }

  lemma SumSnoc(xs: seq<int>, x: int)
    ensures Sum(xs + [x]) == Sum(xs) + x
  {
    assert (xs + [x])[..|xs|] == xs;
  }

  /** A column of spaces in the number rows leaves what the open problem hands on (prob) as it was. */
  lemma BlankColumnKeepsProb(ps: seq<Problem>, op: char)
    requires ps != []
    ensures var qs := Take(ps, Col(op, None));
            Carried(qs)[|qs| - 1] == Carried(ps)[|ps| - 1]
  {
    var qs := Take(ps, Col(op, None));
    if IsOp(op) {
      assert qs[..|qs| - 1] == ps && qs[|qs| - 1].nums == [];
      assert Carried(qs) == Carried(ps) + [Carried(ps)[|ps| - 1]];
    } else {
      assert qs == ps;
    }
  }

  /** What a problem comes to on its own: the fold of its numbers, 0 when it has none. */
  function Answer(p: Problem): int
  {
    if p.nums == [] then 0 else Fold(p.isSum, p.nums)
  }

  function Answers(ps: seq<Problem>): (vs: seq<int>)
    ensures |vs| == |ps| && forall k :: 0 <= k < |ps| ==> vs[k] == Answer(ps[k])
  {
    if ps == [] then [] else Answers(ps[..|ps| - 1]) + [Answer(ps[|ps| - 1])]
  }

  /**
   * When every problem after the first has a number, part2's total is the
   * sum of the problems' answers: nothing is carried over.
   */
  lemma {:induction false} TotalIsSumOfAnswers(ps: seq<Problem>)
    requires forall k :: 0 < k < |ps| ==> ps[k].nums != []
    ensures Total(ps) == Sum(Answers(ps))
  {
    CarriedIsAnswers(ps);
  }

  lemma {:induction false} CarriedIsAnswers(ps: seq<Problem>)
    requires forall k :: 0 < k < |ps| ==> ps[k].nums != []
    ensures Carried(ps) == Answers(ps)
  {
    if ps != [] {
      var init := ps[..|ps| - 1];
      assert forall k :: 0 < k < |init| ==> init[k].nums != [] by {
        forall k | 0 < k < |init| ensures init[k].nums != [] {
          assert init[k] == ps[k];
        }
      }
      CarriedIsAnswers(init);
    }
  }

  /**
   * The state of part2's column walk over the problems ps: res holds what
   * the closed problems handed on, prob what the open one would, and the
   * accumulator has the open problem's operator and numbers.
   */
  ghost predicate Walking(ps: seq<Problem>, res: int, prob: int, isSum: bool, history: seq<int>)
  {
    ps != [] && isSum == ps[|ps| - 1].isSum && history == ps[|ps| - 1].nums &&
    res == Sum(Carried(ps)[..|ps| - 1]) && prob == Carried(ps)[|ps| - 1]
  }

  /** At an operator column res takes in prob, and the fresh problem hands on prob until it has a number. */
  lemma OpenKeeps(ps: seq<Problem>, res: int, prob: int, isSum: bool, history: seq<int>, op: char)
    requires Walking(ps, res, prob, isSum, history) && IsOp(op)
    ensures Walking(Open(ps, op), res + prob, prob, op == '+', [])
  {
    var qs := Open(ps, op);
    assert qs[..|qs| - 1] == ps;
    assert Carried(ps) == Carried(ps)[..|ps| - 1] + [prob];
    SumSnoc(Carried(ps)[..|ps| - 1], prob);
  }

  /** A number fed to the accumulator makes prob the fold of the open problem's numbers. */
  lemma FeedKeeps(ps: seq<Problem>, res: int, prob: int, isSum: bool, history: seq<int>, v: int)
    requires Walking(ps, res, prob, isSum, history)
    ensures Walking(Feed(ps, v), res, Fold(isSum, history + [v]), isSum, history + [v])
  {
    var qs := Feed(ps, v);
    assert qs[..|qs| - 1] == ps[..|ps| - 1];
  }

  lemma NextColumn(rows: seq<string>, w: nat, c: nat)
    requires Readable(rows, w) && c < w
    ensures Problems(Cols(rows, w, c + 1)) == Take(Problems(Cols(rows, w, c)), ReadCol(rows, w, c))
  {
    var cs := Cols(rows, w, c);
    assert Cols(rows, w, c + 1)[..c] == cs;
  }

  /** The inner loop of part2: the characters of column c above the operator row, top to bottom. */
  method ReadColumn(rows: array<string>, ghost g: seq<string>, ghost w: nat, c: nat) returns (num: string)
    requires rows[..] == g && Readable(g, w) && c < w
    ensures num == ColumnString(g, c)
  {
    num := "";
    for r := 0 to rows.Length - 1
      invariant num == ColumnString(g, c)[..r]
    {
      assert g[r] == rows[r];
      num := num + [rows[r][c]];
    }
  }

  /** The padding loop of part2: every row gets spaces up to width. */
  method PadRows(rows: array<string>, width: nat)
    requires forall k :: 0 <= k < rows.Length ==> |rows[k]| <= width
    modifies rows
    ensures rows[..] == Padded(old(rows[..]), width)
  {
    ghost var input := rows[..];
    for i := 0 to rows.Length
      invariant forall k :: 0 <= k < i ==> rows[k] == Pad(input[k], width)
      invariant forall k :: i <= k < rows.Length ==> rows[k] == input[k]
    {
      rows[i] := rows[i] + Spaces(width - |rows[i]|);
    }
  }

  /**
   * One pass of part2's column loop: an operator on the last row closes
   * the open problem into res and starts a fresh accumulator; then the
   * column's number, unless it is blank, goes to the accumulator.  The
   * walk advances the problems by exactly this column.
   */
  method WalkColumn(rows: array<string>, ghost g: seq<string>, width: nat, c: nat,
                    acc: Accumulator, res: int, prob: int, ghost ps: seq<Problem>)
    returns (acc': Accumulator, res': int, prob': int, ghost ps': seq<Problem>)
    requires rows[..] == g && Readable(g, width) && c < width
    requires acc.Valid() && Walking(ps, res, prob, acc.isSum, acc.history)
    modifies acc
    ensures fresh(acc') || acc' == acc
    ensures ps' == Take(ps, ReadCol(g, width, c))
    ensures acc'.Valid() && Walking(ps', res', prob', acc'.isSum, acc'.history)
  {
    var last := rows.Length - 1;
    assert g[last] == rows[last];
    var x := rows[last][c];
    acc', res', ps' := OpenColumn(x, acc, res, prob, ps);
    assert ps' == Open(ps, ReadCol(g, width, c).op);
    acc', prob', ps' := FeedColumn(rows, g, width, c, acc', res', prob, ps');
  }

  /** The operator half of a column: "+" or "*" moves prob into res and starts a fresh accumulator. */
  method OpenColumn(x: char, acc: Accumulator, res: int, prob: int, ghost ps: seq<Problem>)
    returns (acc': Accumulator, res': int, ghost ps': seq<Problem>)
    requires acc.Valid() && Walking(ps, res, prob, acc.isSum, acc.history)
    ensures fresh(acc') || acc' == acc
    ensures ps' == Open(ps, x)
    ensures acc'.Valid() && Walking(ps', res', prob, acc'.isSum, acc'.history)
  {
    acc', res', ps' := acc, res, ps;
    if x == '+' || x == '*' {
      OpenKeeps(ps, res, prob, acc.isSum, acc.history, x);
      res' := res + prob;
      acc' := new Accumulator([x]);
      assert acc'.isSum == (x == '+') && acc'.history == [];
    }
    assert !IsOp(x) ==> Open(ps, x) == ps;
    ps' := Open(ps, x);
  }

  /** The number half of a column: a non-blank column's number is applied to the accumulator. */
  method FeedColumn(rows: array<string>, ghost g: seq<string>, width: nat, c: nat,
                    acc: Accumulator, res: int, prob: int, ghost ps: seq<Problem>)
    returns (acc': Accumulator, prob': int, ghost ps': seq<Problem>)
    requires rows[..] == g && Readable(g, width) && c < width
    requires acc.Valid() && Walking(ps, res, prob, acc.isSum, acc.history)
    modifies acc
    ensures acc' == acc
    ensures ReadCol(g, width, c).num.None? ==> ps' == ps
    ensures ReadCol(g, width, c).num.Some? ==> ps' == Feed(ps, ReadCol(g, width, c).num.value)
    ensures acc'.Valid() && Walking(ps', res, prob', acc'.isSum, acc'.history)
  {
    ghost var col := ReadCol(g, width, c);
    acc', prob', ps' := acc, prob, ps;
    var num := ReadColumn(rows, g, width, c);
    var t := Trim(num);
    assert col.num == if t == "" then None else Some(RepeatedIds.DecimalValue(t));
    if t != "" {
      var v := RepeatedIds.DecimalValue(t);
      FeedKeeps(ps, res, prob, acc.isSum, acc.history, v);
      ps' := Feed(ps, v);
      prob' := acc.Apply(v);
    }
  }

  /** The column walk of part2 over rows already padded to width; the last problem is added after the loop. */
  method WalkColumns(rows: array<string>, width: nat) returns (res: int)
    requires Readable(rows[..], width)
    ensures res == Total(Problems(Cols(rows[..], width, width)))
  {
    ghost var g := rows[..];
    ghost var ps := Problems([]);
    res := 0;
    var prob := 0;
    var acc := new Accumulator("+");
    for c := 0 to |rows[0]|
      invariant rows[..] == g
      invariant fresh(acc) && acc.Valid()
      invariant ps == Problems(Cols(g, width, c))
      invariant Walking(ps, res, prob, acc.isSum, acc.history)
    {
      NextColumn(g, width, c);
      acc, res, prob, ps := WalkColumn(rows, g, width, c, acc, res, prob, ps);
    }
    assert Carried(ps) == Carried(ps)[..|ps| - 1] + [prob];
    SumSnoc(Carried(ps)[..|ps| - 1], prob);
    res := res + prob;
  }

  /** part2: pad every row in place to the longest row's width, then walk the columns. */
  method Part2(rows: array<string>) returns (res: int)
    requires rows.Length >= 1
    requires Readable(Padded(rows[..], MaxLen(rows[..])), MaxLen(rows[..]))
    modifies rows
    ensures rows[..] == Padded(old(rows[..]), MaxLen(old(rows[..])))
    ensures res == Total(Problems(Cols(rows[..], MaxLen(old(rows[..])), MaxLen(old(rows[..])))))
  {
    var width := MaxLen(rows[..]);
    PadRows(rows, width);
    res := WalkColumns(rows, width);
  }
}
