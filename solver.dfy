/** The main solver: pencil the puzzle in, alternate simple elimination and
    csp rounds until nothing is left to remove or a round removes nothing,
    then fall back on backtracking; and the 81-character line interface. */
module Solver {
  import opened Basics
  import opened Board
  import opened Elimination
  import opened CspElimination
  import opened Backtracking

  // ---------------------------------------------------------------------
  // the propagation loop

  /** One round of the loop: simple elimination, then csp when every method
      runs each round (`allAtOnce`) or simple elimination removed nothing.
      Returns the new grid and r_step, the candidates removed. */
  function Round(g: Grid, allAtOnce: bool): (r: (Grid, int))
    requires |g| == 81
    ensures |r.0| == 81
  {
    var g1 := SimplePass(g);
    if allAtOnce || Total(g1) == Total(g) then (CspPass(g1), Total(g) - Total(CspPass(g1)))
    else (g1, Total(g) - Total(g1))
  }

  /** The while loop of solve, from grid g: stop when n_to_remove is 0,
      otherwise run a round and stop after it if it removed nothing. */
  function Propagate(g: Grid, allAtOnce: bool): (r: Grid)
    requires |g| == 81
    ensures |r| == 81
    decreases Total(g)
  {
    if NToRemove(g) == 0 then g
    else
      var r := Round(g, allAtOnce);
      RoundProgress(g, allAtOnce);
      if r.1 == 0 then r.0 else Propagate(r.0, allAtOnce)
  }

  /** A round only removes candidates, r_step is the number it removed, and
      every round that lets the loop go on removes at least one, so the
      candidate count falls strictly from round to round. Simple elimination
      alone decides the round unless it removed nothing or every method runs
      each round. */
  lemma RoundProgress(g: Grid, allAtOnce: bool)
    requires |g| == 81
    ensures var r := Round(g, allAtOnce);
      Shrunk(g, r.0) && r.1 == Total(g) - Total(r.0) && 0 <= r.1 &&
      (WellFormed(g) ==> WellFormed(r.0))
    ensures !allAtOnce && Total(SimplePass(g)) < Total(g) ==> Round(g, allAtOnce).0 == SimplePass(g)
    ensures allAtOnce || Total(SimplePass(g)) == Total(g) ==> Round(g, allAtOnce).0 == CspPass(SimplePass(g))
  {
    SimplePassShrinks(g);
    var g1 := SimplePass(g);
    CspPassShrinks(g1);
    ShrunkTransitive(g, g1, CspPass(g1));
  }

  /** A round that removes nothing from a well-formed grid changes nothing:
      the grid is a fixpoint of both passes. */
  lemma RoundFixpoint(g: Grid, allAtOnce: bool)
    requires WellFormed(g) && Round(g, allAtOnce).1 == 0
    ensures Round(g, allAtOnce).0 == g
    ensures SimplePass(g) == g && CspPass(g) == g
  {
    SimplePassShrinks(g);
    var g1 := SimplePass(g);
    CspPassShrinks(g1);
    assert Total(g1) == Total(g);
    SimplePassNoRemoval(g);
    assert Round(g, allAtOnce).0 == CspPass(g);
    CspPassShrinks(g);
    CspPassNoRemoval(g);
  }

  /** On exit from the loop nothing is left to remove, or the last round
      removed nothing, and then neither pass can change the grid. The grid
      only lost candidates on the way and stayed well formed. */
  lemma {:induction false} PropagateExit(g: Grid, allAtOnce: bool)
    requires WellFormed(g)
    decreases Total(g)
    ensures var p := Propagate(g, allAtOnce);
      WellFormed(p) && Shrunk(g, p) &&
      (NToRemove(p) == 0 || (SimplePass(p) == p && CspPass(p) == p))
  {
    if NToRemove(g) != 0 {
      var r := Round(g, allAtOnce);
      RoundProgress(g, allAtOnce);
      if r.1 == 0 {
        RoundFixpoint(g, allAtOnce);
      } else {
        PropagateExit(r.0, allAtOnce);
      }
    }
  }

  /** The loop never removes the digit of a valid completion the grid
      allowed. */
  lemma {:induction false} PropagateSound(g: Grid, allAtOnce: bool, fill: seq<int>)
    requires |g| == 81 && ValidFill(fill) && Admits(g, fill)
    decreases Total(g)
    ensures Admits(Propagate(g, allAtOnce), fill)
  {
    if NToRemove(g) != 0 {
      SimplePassSound(g, fill);
      CspPassSound(SimplePass(g), fill);
      var r := Round(g, allAtOnce);
      RoundProgress(g, allAtOnce);
      if r.1 != 0 {
        PropagateSound(r.0, allAtOnce, fill);
      }
    }
  }

  // ---------------------------------------------------------------------
  // solve

  /** What solve hands back: the grid, or the exception that escaped the
      search. */
  datatype SolveResult = Done(grid: Grid) | Crashed

  /** solve: backtracking runs only when candidates are left to remove. */
  function SolveRun(puzzle: seq<int>, allAtOnce: bool): SolveResult
    requires |puzzle| == 81
  {
    var p := Propagate(PencilIn(puzzle), allAtOnce);
    if NToRemove(p) > 0 then
      match BruteForceRun(p)
      case Raised => Crashed
      case Finished(grid, _) => Done(grid)
    else Done(p)
  }

  /** One pass of solve's while loop on the grid in place; returns r_step. */
  method RunRound(puzzle: array<Cands>, allAtOnce: bool) returns (rStep: int)
    requires puzzle.Length == 81
    modifies puzzle
    ensures puzzle[..] == Round(old(puzzle[..]), allAtOnce).0
    ensures rStep == Round(old(puzzle[..]), allAtOnce).1
  {
    rStep := SimpleElimination(puzzle);
    if allAtOnce || rStep == 0 {
      var r2 := Csp(puzzle);
      rStep := rStep + r2;
    }
  }

  /** solve, with the flag that selects the schedule: False in
      sudoku_v1.1.py, True in solver.py. */
  method Solve(originalPuzzle: seq<int>, allAtOnce: bool) returns (r: SolveResult)
    requires |originalPuzzle| == 81
    ensures r == SolveRun(originalPuzzle, allAtOnce)
  {
    var g0 := PencilIn(originalPuzzle);
    var puzzle := new Cands[81](k requires 0 <= k < 81 => g0[k]);
    assert puzzle[..] == g0;
    var toRemove := NToRemove(puzzle[..]);
    while toRemove != 0
      invariant Propagate(puzzle[..], allAtOnce) == Propagate(g0, allAtOnce)
      invariant toRemove == NToRemove(puzzle[..])
      decreases Total(puzzle[..])
    {
      ghost var before := puzzle[..];
      var rStep := RunRound(puzzle, allAtOnce);
      RoundProgress(before, allAtOnce);
      toRemove := NToRemove(puzzle[..]);
      if rStep == 0 {
        assert puzzle[..] == Propagate(g0, allAtOnce);
        break;
      }
    }
    var result := puzzle[..];
    if toRemove > 0 {
      var bf := BruteForce(result);
      match bf
      case Raised => return Crashed;
      case Finished(grid, _) => result := grid;
    }
    return Done(result);
  }

  /** The clue of every cell the puzzle gives agrees with `fill`. */
  predicate Agrees(puzzle: seq<int>, fill: seq<int>) {
    |puzzle| == 81 && |fill| == 81 && forall k :: 0 <= k < 81 && puzzle[k] != 0 ==> fill[k] == puzzle[k]
  }

  lemma PencilInAdmits(puzzle: seq<int>, fill: seq<int>)
    requires |puzzle| == 81 && ValidFill(fill) && Agrees(puzzle, fill)
    ensures Admits(PencilIn(puzzle), fill)
  {
    PencilInAt(puzzle);
    forall k | 0 <= k < 81 ensures fill[k] in PencilIn(puzzle)[k] {
      InAllDigits(fill[k]);
    }
  }

  /** After the loop the grid is well formed, still allows every valid
      completion that keeps the clues, and so has no empty cell and no two
      equal singletons in a house. */
  lemma PropagateAdmits(puzzle: seq<int>, allAtOnce: bool, fill: seq<int>)
    requires |puzzle| == 81 && IsDigits(puzzle)
    requires ValidFill(fill) && Agrees(puzzle, fill)
    ensures var p := Propagate(PencilIn(puzzle), allAtOnce);
      WellFormed(p) && Shrunk(PencilIn(puzzle), p) && Admits(p, fill) &&
      NoEmpty(p) && Consistent(p)
  {
    var g0 := PencilIn(puzzle);
    PencilInAdmits(puzzle, fill);
    PencilInWellFormed(puzzle);
    PropagateSound(g0, allAtOnce, fill);
    PropagateExit(g0, allAtOnce);
    var p := Propagate(g0, allAtOnce);
    assert NoEmpty(p) by {
      forall k | 0 <= k < 81 ensures |p[k]| != 0 { assert fill[k] in p[k]; }
    }
    AdmitsConsistent(p, fill);
  }

  /** A solved grid reached from the pencilled-in puzzle keeps its clues. */
  lemma SolvedAgrees(puzzle: seq<int>, g: Grid)
    requires |puzzle| == 81 && IsDigits(puzzle) && |g| == 81 && AllSingletons(g)
    requires Shrunk(PencilIn(puzzle), g) && Consistent(g)
    ensures ValidFill(Digits(g)) && Agrees(puzzle, Digits(g))
  {
    PencilInWellFormed(puzzle);
    PencilInAt(puzzle);
    SolvedIsFill(PencilIn(puzzle), g);
  }

  /** solve is correct on every puzzle of digits that has a valid
      completion: it raises nothing and returns a fully solved grid whose
      digits form a valid completion keeping every clue. */
  lemma SolveCorrect(puzzle: seq<int>, allAtOnce: bool, fill: seq<int>)
    requires |puzzle| == 81 && IsDigits(puzzle)
    requires ValidFill(fill) && Agrees(puzzle, fill)
    ensures SolveRun(puzzle, allAtOnce).Done?
    ensures var g := SolveRun(puzzle, allAtOnce).grid;
      |g| == 81 && AllSingletons(g) && ValidFill(Digits(g)) && Agrees(puzzle, Digits(g))
  {
    var g0 := PencilIn(puzzle);
    PropagateAdmits(puzzle, allAtOnce, fill);
    var p := Propagate(g0, allAtOnce);
    var g := p;
    if NToRemove(p) > 0 {
      BruteForceComplete(p, fill);
      BruteForceSound(p);
      g := BruteForceRun(p).grid;
      ShrunkTransitive(g0, p, g);
    } else {
      NothingToRemove(p);
    }
    assert SolveRun(puzzle, allAtOnce) == Done(g);
    SolvedAgrees(puzzle, g);
  }

  /** When the clues allow exactly one valid completion, solve returns it. */
  lemma SolveUnique(puzzle: seq<int>, allAtOnce: bool, fill: seq<int>)
    requires |puzzle| == 81 && IsDigits(puzzle)
    requires ValidFill(fill) && Agrees(puzzle, fill)
    requires forall other :: ValidFill(other) && Agrees(puzzle, other) ==> other == fill
    ensures SolveRun(puzzle, allAtOnce).Done?
    ensures |SolveRun(puzzle, allAtOnce).grid| == 81 && AllSingletons(SolveRun(puzzle, allAtOnce).grid)
    ensures Digits(SolveRun(puzzle, allAtOnce).grid) == fill
  {
    SolveCorrect(puzzle, allAtOnce, fill);
  }

  // ---------------------------------------------------------------------
  // the line interface

  function DigitChar(d: int): char
    requires 0 <= d <= 9
  {
    (48 + d) as char
  }

  /** Python's str() of a non-negative integer. */
  function NatStr(n: nat): (r: string)
    ensures |r| >= 1
  {
    if n < 10 then [DigitChar(n)] else NatStr(n / 10) + [DigitChar(n % 10)]
  }

  /** Python's str() of an integer. */
  function Str(n: int): string {
    if n < 0 then "-" + NatStr(-n) else NatStr(n)
  }

  /** line_from_solution: the first candidate of every cell, row by row;
      an empty cell raises IndexError, modelled as None. */
  function LineFromSolution(sol: Grid): (r: Option<string>)
  {
    if sol == [] then Some("")
    else if |sol[0]| == 0 then None
    else match LineFromSolution(sol[1..])
      case None => None
      case Some(rest) => Some(Str(sol[0][0]) + rest)
  }

  /** On a solved grid of digits the line holds the digit of cell (i, j) at
      position 9 * i + j; it fails exactly when some cell is empty. */
  lemma {:induction false} LineFromSolutionAt(sol: Grid)
    ensures LineFromSolution(sol).None? <==> exists k :: 0 <= k < |sol| && |sol[k]| == 0
    ensures AllSingletons(sol) && (forall k :: 0 <= k < |sol| ==> 0 <= sol[k][0] <= 9) ==>
      LineFromSolution(sol).Some? && |LineFromSolution(sol).value| == |sol| &&
      forall k :: 0 <= k < |sol| ==> LineFromSolution(sol).value[k] == DigitChar(sol[k][0])
  {
    if sol != [] {
      var t := sol[1..];
      LineFromSolutionAt(t);
      assert forall k :: 1 <= k < |sol| ==> sol[k] == t[k - 1];
      if exists k :: 0 <= k < |sol| && |sol[k]| == 0 {
        var k :| 0 <= k < |sol| && |sol[k]| == 0;
        assert k == 0 || |t[k - 1]| == 0;
      }
      if AllSingletons(sol) && (forall k :: 0 <= k < |sol| ==> 0 <= sol[k][0] <= 9) {
        assert AllSingletons(t);
        assert forall k :: 0 <= k < |t| ==> 0 <= t[k][0] <= 9;
        var rest := LineFromSolution(t).value;
        assert Str(sol[0][0]) == [DigitChar(sol[0][0])];
        assert LineFromSolution(sol) == Some([DigitChar(sol[0][0])] + rest);
      }
    }
  }

  predicate IsDigitChar(ch: char) {
    '0' <= ch <= '9'
  }

  /** The row-major parse of the first 81 characters: character k becomes
      the clue of cell (k / 9, k % 9), that is flat position k. */
  function ParseLine(line: string): (puzzle: seq<int>)
    requires |line| >= 81 && forall k :: 0 <= k < 81 ==> IsDigitChar(line[k])
    ensures |puzzle| == 81 && IsDigits(puzzle)
  {
    assert forall k :: 0 <= k < 81 ==> 48 <= line[k] as int <= 57 by {
      forall k | 0 <= k < 81 ensures 48 <= line[k] as int <= 57 {
        assert IsDigitChar(line[k]);
        assert '0' as int == 48 && '9' as int == 57;
      }
    }
    seq(81, k requires 0 <= k < 81 => line[k] as int - 48)
  }

  /** solve_from_line; None when an exception escapes. */
  function SolveFromLine(line: string, allAtOnce: bool): Option<string>
    requires |line| >= 81 && forall k :: 0 <= k < 81 ==> IsDigitChar(line[k])
  {
    match SolveRun(ParseLine(line), allAtOnce)
    case Crashed => None
    case Done(grid) => LineFromSolution(grid)
  }

  /** A line without zeros pencils in to a solved grid that prints back as
      the line itself. */
  lemma LineRoundTrip(line: string)
    requires |line| >= 81 && forall k :: 0 <= k < 81 ==> IsDigitChar(line[k]) && line[k] != '0'
    ensures AllSingletons(PencilIn(ParseLine(line)))
    ensures LineFromSolution(PencilIn(ParseLine(line))) == Some(line[..81])
  {
    var puzzle := ParseLine(line);
    var g := PencilIn(puzzle);
    PencilInAt(puzzle);
    forall k | 0 <= k < 81 ensures g[k] == [puzzle[k]] && DigitChar(puzzle[k]) == line[k] {
      assert puzzle[k] == line[k] as int - 48;
      assert '0' as int == 48;
    }
    LineFromSolutionAt(g);
    var text := LineFromSolution(g).value;
    assert forall k :: 0 <= k < 81 ==> text[k] == line[..81][k];
    assert text == line[..81];
  }

  /** A line without zeros needs no solving: solve_from_line hands it back
      as given, whatever its digits. */
  lemma SolveFromLineFull(line: string, allAtOnce: bool)
    requires |line| >= 81 && forall k :: 0 <= k < 81 ==> IsDigitChar(line[k]) && line[k] != '0'
    ensures SolveFromLine(line, allAtOnce) == Some(line[..81])
  {
    var g := PencilIn(ParseLine(line));
    LineRoundTrip(line);
    NothingToRemove(g);
    assert Propagate(g, allAtOnce) == g;
  }

  /** The line of a completed grid. */
  function FillLine(fill: seq<int>): (line: string)
    requires ValidFill(fill)
    ensures |line| == 81
  {
    seq(81, k requires 0 <= k < 81 => DigitChar(fill[k]))
  }

  /** A line whose clues allow exactly one valid completion is solved to
      the line of that completion. */
  lemma SolveFromLineUnique(line: string, allAtOnce: bool, fill: seq<int>)
    requires |line| >= 81 && forall k :: 0 <= k < 81 ==> IsDigitChar(line[k])
    requires ValidFill(fill) && Agrees(ParseLine(line), fill)
    requires forall other :: ValidFill(other) && Agrees(ParseLine(line), other) ==> other == fill
    ensures SolveFromLine(line, allAtOnce) == Some(FillLine(fill))
  {
    var puzzle := ParseLine(line);
    SolveUnique(puzzle, allAtOnce, fill);
    var g := SolveRun(puzzle, allAtOnce).grid;
    LineFromSolutionAt(g);
    assert forall k :: 0 <= k < 81 ==> g[k][0] == fill[k];
    var text := LineFromSolution(g).value;
    assert forall k :: 0 <= k < 81 ==> text[k] == FillLine(fill)[k];
    assert text == FillLine(fill);
  }
}
