/** The candidate grid: 81 ordered candidate lists, created from the puzzle
    by pencilling in, and its two measures (solved cells and candidates
    left to remove). */
module Board {
  import opened Basics
  import opened Houses

  /** The candidate list of one cell, in the order the source keeps it. */
  type Cands = seq<int>
  /** Cell (i, j) of the 9x9 grid is at position 9 * i + j. */
  type Grid = seq<Cands>

  /** The list an unknown cell starts with. */
  const AllDigits: Cands := [1, 2, 3, 4, 5, 6, 7, 8, 9]

  lemma InAllDigits(d: int)
    ensures d in AllDigits <==> 1 <= d <= 9
  {
  }

  function At(g: Grid, c: Cell): Cands
    requires |g| == 81 && InRange(c)
  {
    g[Index(c)]
  }

  /** What a cell starts with: the clue alone, or every digit when it is 0. */
  function Initial(v: int): Cands {
    if v != 0 then [v] else AllDigits
  }

  /** The grid after the first |cells| steps of the pencilling-in loop, which
      names each pair it visits (j, i) and fills cell (i, j). Cells not yet
      visited hold `[]`, standing in for the unset entries of the object
      array the source allocates; no later code reads them, since the loop
      visits every cell. */
  function PencilSteps(puzzle: seq<int>, cells: seq<Cell>): (g: Grid)
    requires |puzzle| == 81
    requires forall p :: p in cells ==> InRange(p)
    ensures |g| == 81
  {
    if cells == [] then seq(81, k => [])
    else
      var p := cells[|cells| - 1];
      assert p in cells && InRange(p);
      var (j, i) := (p.0, p.1);
      PencilSteps(puzzle, cells[..|cells| - 1])[Index((i, j)) := Initial(puzzle[Index((i, j))])]
  }

  /** pencil_in_numbers: the puzzle is read row by row, 0 marking an unknown. */
  function PencilIn(puzzle: seq<int>): (g: Grid)
    requires |puzzle| == 81
    ensures |g| == 81
  {
    Range2Board();
    PencilSteps(puzzle, Range2(9, 9))
  }

  /** A visited cell holds its initial list; the others are still empty. */
  lemma {:induction false} PencilStepsAt(puzzle: seq<int>, cells: seq<Cell>, k: int)
    requires |puzzle| == 81
    requires forall p :: p in cells ==> InRange(p)
    requires 0 <= k < 81
    ensures PencilSteps(puzzle, cells)[k] ==
      if (CellAt(k).1, CellAt(k).0) in cells then Initial(puzzle[k]) else []
  {
    if cells != [] {
      var last := cells[|cells| - 1];
      assert last in cells;
      var front := cells[..|cells| - 1];
      assert forall p :: p in cells <==> p in front || p == last;
      PencilStepsAt(puzzle, front, k);
      var (j, i) := (last.0, last.1);
      if Index((i, j)) == k {
        IndexInjective((i, j), CellAt(k));
      }
    }
  }

  /** Every one of the 81 cells holds `[v]` for a clue v and the digits 1 to
      9, ascending, for a 0. */
  lemma PencilInAt(puzzle: seq<int>)
    requires |puzzle| == 81
    ensures forall k :: 0 <= k < 81 ==>
      PencilIn(puzzle)[k] == (if puzzle[k] != 0 then [puzzle[k]] else [1, 2, 3, 4, 5, 6, 7, 8, 9])
  {
    Range2Board();
    forall k | 0 <= k < 81
      ensures PencilIn(puzzle)[k] == Initial(puzzle[k])
    {
      PencilStepsAt(puzzle, Range2(9, 9), k);
      assert InRange((CellAt(k).1, CellAt(k).0));
    }
  }

  // ---------------------------------------------------------------------
  // measures

  /** n_solved: how many cells hold exactly one candidate. */
  function NSolved(g: Grid): (n: nat)
    ensures n <= |g|
  {
    if g == [] then 0 else (if |g[0]| == 1 then 1 else 0) + NSolved(g[1..])
  }

  /** n_to_remove: the sum of (length - 1) over all cells; an empty cell
      counts -1. */
  function NToRemove(g: Grid): int {
    if g == [] then 0 else (|g[0]| - 1) + NToRemove(g[1..])
  }

  /** The number of candidates left on the grid. */
  function Total(g: Grid): nat {
    if g == [] then 0 else |g[0]| + Total(g[1..])
  }

  predicate AllSingletons(g: Grid) {
    forall k :: 0 <= k < |g| ==> |g[k]| == 1
  }

  predicate NoEmpty(g: Grid) {
    forall k :: 0 <= k < |g| ==> |g[k]| != 0
  }

  lemma {:induction false} NToRemoveTotal(g: Grid)
    ensures NToRemove(g) == Total(g) - |g|
  {
    if g != [] { NToRemoveTotal(g[1..]); }
  }

  /** Every cell is solved exactly when n_solved reaches the cell count. */
  lemma {:induction false} NSolvedAll(g: Grid)
    ensures NSolved(g) == |g| <==> AllSingletons(g)
  {
    if g != [] {
      NSolvedAll(g[1..]);
      assert forall k :: 1 <= k < |g| ==> g[k] == g[1..][k - 1];
    }
  }

  /** Without empty cells, nothing is left to remove exactly when every cell
      is solved. */
  lemma {:induction false} NothingToRemove(g: Grid)
    requires NoEmpty(g)
    ensures NToRemove(g) >= 0
    ensures NToRemove(g) == 0 <==> AllSingletons(g)
  {
    if g != [] {
      assert forall k :: 1 <= k < |g| ==> g[k] == g[1..][k - 1];
      NothingToRemove(g[1..]);
    }
  }

  /** An empty cell can hide behind an unsolved one: n_to_remove is 0 on a
      grid that is not solved. */
  lemma EmptyCellOffsetsUnsolved()
    ensures var g := [[], [1, 2]] + seq(79, k => [5]);
      |g| == 81 && NToRemove(g) == 0 && !AllSingletons(g)
  {
    var g := [[], [1, 2]] + seq(79, k => [5]);
    NToRemoveTotal(g);
    assert g[2..] == seq(79, k => [5]);
    TotalOfSingletons(g[2..]);
    assert !AllSingletons(g) by { assert |g[0]| == 0; }
  }

  lemma {:induction false} TotalOfSingletons(g: Grid)
    requires AllSingletons(g)
    ensures Total(g) == |g|
  {
    if g != [] {
      assert forall k :: 1 <= k < |g| ==> g[k] == g[1..][k - 1];
      TotalOfSingletons(g[1..]);
    }
  }

  /** Replacing one cell changes the candidate count by the difference of
      the two lengths. */
  lemma {:induction false} TotalUpdate(g: Grid, k: int, v: Cands)
    requires 0 <= k < |g|
    ensures Total(g[k := v]) == Total(g) - |g[k]| + |v|
  {
    if k > 0 {
      assert g[k := v][1..] == g[1..][k - 1 := v];
      TotalUpdate(g[1..], k - 1, v);
    } else {
      assert g[k := v][1..] == g[1..];
    }
  }

  /** Each cell of `g1` is no longer than the same cell of `g0`. */
  predicate NoLonger(g0: Grid, g1: Grid) {
    |g0| == |g1| && forall k :: 0 <= k < |g0| ==> |g1[k]| <= |g0[k]|
  }

  lemma {:induction false} TotalNoLonger(g0: Grid, g1: Grid)
    requires NoLonger(g0, g1)
    ensures Total(g1) <= Total(g0)
    ensures Total(g1) == Total(g0) ==> forall k :: 0 <= k < |g0| ==> |g1[k]| == |g0[k]|
  {
    if g0 != [] {
      assert forall k :: 1 <= k < |g0| ==> g0[k] == g0[1..][k - 1] && g1[k] == g1[1..][k - 1];
      TotalNoLonger(g0[1..], g1[1..]);
    }
  }

  // ---------------------------------------------------------------------
  // invariants of the solver's states

  /** Every candidate of `g1` was already a candidate of the same cell in `g0`. */
  predicate Shrunk(g0: Grid, g1: Grid) {
    |g0| == |g1| && forall k, d :: 0 <= k < |g1| && d in g1[k] ==> d in g0[k]
  }

  lemma ShrunkTransitive(g0: Grid, g1: Grid, g2: Grid)
    requires Shrunk(g0, g1) && Shrunk(g1, g2)
    ensures Shrunk(g0, g2)
  {
  }

  /** The shape every list of the solver has: 81 cells, each an ascending
      list of digits 1 to 9. */
  predicate WellFormed(g: Grid) {
    |g| == 81 &&
    forall k :: 0 <= k < 81 ==> StrictlyAscending(g[k]) && forall d :: d in g[k] ==> 1 <= d <= 9
  }

  /** A completed grid: a digit 1 to 9 in every cell and never the same
      digit in two peer cells. */
  predicate ValidFill(sol: seq<int>) {
    |sol| == 81 &&
    (forall k :: 0 <= k < 81 ==> 1 <= sol[k] <= 9) &&
    forall k, l :: 0 <= k < 81 && 0 <= l < 81 && Peers(CellAt(k), CellAt(l)) ==> sol[k] != sol[l]
  }

  /** The candidate grid still allows the completion `sol`: every cell's
      digit is among that cell's candidates. */
  predicate Admits(g: Grid, sol: seq<int>) {
    |g| == 81 && |sol| == 81 && forall k :: 0 <= k < 81 ==> sol[k] in g[k]
  }

  predicate IsDigits(puzzle: seq<int>) {
    forall k :: 0 <= k < |puzzle| ==> 0 <= puzzle[k] <= 9
  }

  /** A puzzle of digits pencils in to a well-formed grid. */
  lemma PencilInWellFormed(puzzle: seq<int>)
    requires |puzzle| == 81 && IsDigits(puzzle)
    ensures WellFormed(PencilIn(puzzle))
  {
    PencilInAt(puzzle);
  }

  /** Within well-formed grids, a grid drawn from another that keeps the
      candidate count is the same grid. */
  lemma ShrunkSameTotal(g0: Grid, g1: Grid)
    requires WellFormed(g0) && WellFormed(g1) && Shrunk(g0, g1)
    requires Total(g1) == Total(g0)
    ensures g1 == g0
  {
    forall k | 0 <= k < 81 ensures |g1[k]| <= |g0[k]| {
      AscendingIsDistinct(g1[k]);
      DistinctSubsetShorter(g1[k], g0[k]);
    }
    TotalNoLonger(g0, g1);
    forall k | 0 <= k < 81 ensures g1[k] == g0[k] {
      AscendingSubsetSameLength(g1[k], g0[k]);
    }
  }
}
