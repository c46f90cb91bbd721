# A verified model of a logic-and-backtracking Sudoku engine

This project models the engine shared by `sudoku_v1.1.py` and `solver.py`.
`solver.py` is the same engine in camelCase and behaves identically
except for one line, the scheduling flag: `all_at_once = False`
(sudoku_v1.1.py:252) against `allAtOnce = True` (solver.py:227). The
engine is modelled once, with the flag as the `allAtOnce` parameter of
`Solver.Solve`.

The engine keeps a 9x9 grid of ordered candidate lists (`Board.Grid`: 81
lists, cell (i, j) at position 9i+j). It works in five stages:

- **pencil in**: a clue v becomes `[v]` and a 0 becomes `[1..9]`.
- **simple elimination**: each single candidate is removed, in place, from
  the other cells of its houses (the pass walks all 27). A house is a
  column, row or block; the source names the tables "columns", "rows" and
  "blocks".
- **csp**: per house, it enumerates every pick of one candidate per cell,
  keeps the picks without a repeated digit, and rewrites each cell to the
  digits those picks use.
- **propagation loop**: rounds of the two passes run until nothing is left
  to remove or a round removes nothing.
- **backtracking**: the first unsolved cell is forced to each of its
  candidates on a copy of the grid. A copy is rejected when a house of the
  forced cell holds two equal single candidates. The last grid with
  nothing left to remove is remembered.

The model's form follows the source:

- The in-place passes are methods on `array<seq<int>>`. Each one is proved
  equal to a fold function over the source's loops: `SimplePass`,
  `CspPass`, `Round`, `Propagate`.
- `brute_force`'s nonlocal `solution` is the field of class
  `Backtracking.Search`. Its recursive methods are proved against the
  functions `Iterate` and `Branches`.
- The pure helpers are functions with lemmas.

The main results:

- Both passes only remove candidates, and they never remove the digit of a
  valid completion that the grid still allows (`SimplePassSound`,
  `CspPassSound`).
- Every `remove` of simple elimination takes from a cell the digit that a
  peer holds alone at that moment (`SimplePassTrace`).
- csp keeps exactly the digits some repeat-free pick places there
  (`CspRefineMembers`).
- The loop terminates. It stops with nothing to remove or at a fixpoint of
  both passes.
- Backtracking is sound and complete for grids that allow a completion.
- For every puzzle of digits with a valid completion, `solve` returns a
  solved grid whose digits are a valid completion that keeps every clue
  (`SolveCorrect`). When that completion is unique, `solve` returns it
  (`SolveUnique`, `SolveFromLineUnique`).

| definition | sudoku_v1.1.py | solver.py |
|---|---|---|
| house tables | 12-23 | 5-15 |
| range2 | 30-35 | 18-23 |
| pencil in | 39-46 | 27-34 |
| n_solved / n_to_remove | 50-63 | 37-49 |
| simple elimination | 94-103 | 78-87 |
| csp_list / csp | 109-152 | 91-133 |
| cellInHouse / next cell to force | 162-174 | 138-150 |
| brute_force | 177-232 | 153-208 |
| solve | 237-292 | 212-267 |
| line_from_solution / solve_from_line | 297-312 | 270-283 |

## Model

| member | source | states |
|---|---|---|
| `Houses.AllColumns` | sudoku_v1.1.py:12 | The table the source calls "columns": house k lists (k, 0), ..., (k, 8) in that order; `HouseMembership` states which cells it holds. |
| `Houses.AllRows` | sudoku_v1.1.py:15 | The table the source calls "rows": house k lists (0, k), ..., (8, k) in that order. |
| `Houses.AllBlocks` | sudoku_v1.1.py:19-20 | Block k lists the nine cells of 3x3 block k in the comprehension's order; `HouseMembership` shows they are exactly the cells of that block. |
| `Houses.AllHouses` | sudoku_v1.1.py:23 | The 27 houses: the columns, then the rows, then the blocks (facts in `HouseTables` and `HouseFacts`). |
| `Houses.HouseTables` | sudoku_v1.1.py:12-23 | There are 27 houses, each of 9 different cells of the board (solver.py:5-15). |
| `Houses.HouseMembership` | sudoku_v1.1.py:12-23 | A cell is in house n exactly when it is on the board and has first coordinate n (n < 9), second coordinate n-9 (n < 18), or lies in block n-18. |
| `Houses.HouseFacts` | sudoku_v1.1.py:12-23 | Every house holds 9 different board cells, and any two different cells of a house are peers. |
| `Houses.SharedHouse` | sudoku_v1.1.py:12-23 | Two different cells lie together in some house exactly when they share a column, row or block. |
| `Houses.Range2` | sudoku_v1.1.py:30-35 | range2(a, b) holds a * b pairs; their order is stated by `Range2At`. |
| `Houses.Range2At` | sudoku_v1.1.py:30-35 | Position k of range2(a, b) is (k mod a, k div a): the second coordinate is the outer loop. |
| `Houses.Range2Board` | sudoku_v1.1.py:30-35 | range2(9, 9) lists every board cell exactly once and nothing else. |
| `Houses.CellInHouse` | sudoku_v1.1.py:162-169 | The cell-to-houses table: (-1, -1) maps to no house and each board cell to the houses that contain it, in table order; stated by the three rows below. |
| `Houses.CellInHouseAt` | sudoku_v1.1.py:162-169 | Every board cell maps to exactly three houses, its column, row and block, in table order (solver.py:138-145). |
| `Houses.CellInHouseNoCell` | sudoku_v1.1.py:163 | The default cell (-1, -1) maps to no house. |
| `Houses.CellInHouseKeys` | sudoku_v1.1.py:162-169 | The table's keys are exactly the 81 board cells and (-1, -1). |
| `Houses.HousesOfFacts` | sudoku_v1.1.py:162-169 | Each house of a cell contains it and holds 9 different board cells; the peers of a cell are exactly the other cells of its houses. |
| `Board.PencilIn` | sudoku_v1.1.py:39-46 | pencil_in_numbers yields 81 cells, filled by the loop over range2(9, 9) with its (j, i) swap; contents in `PencilInAt`. |
| `Board.PencilStepsAt` | sudoku_v1.1.py:41-45 | After the loop has visited some pairs (j, i), each visited cell holds its initial list and every other cell is still empty. |
| `Board.PencilInAt` | sudoku_v1.1.py:39-46 | Every one of the 81 cells holds `[v]` for a clue v != 0, and `[1, ..., 9]` ascending for 0. |
| `Board.PencilInWellFormed` | sudoku_v1.1.py:39-46 | A puzzle of digits pencils in to 81 ascending lists of digits 1 to 9. |
| `Board.NSolved` | sudoku_v1.1.py:50-55 | The count of solved cells never exceeds the number of cells. |
| `Board.NSolvedAll` | sudoku_v1.1.py:50-55 | n_solved equals the cell count exactly when every cell holds one candidate. |
| `Board.NToRemove` | sudoku_v1.1.py:59-63 | The sum over the cells of length minus one; `NToRemoveTotal` relates it to the candidate count. |
| `Board.NToRemoveTotal` | sudoku_v1.1.py:59-63 | n_to_remove is the candidate count minus the cell count, so an empty cell counts -1. |
| `Board.NothingToRemove` | sudoku_v1.1.py:59-63 | With no empty cell, n_to_remove is at least 0, and it is 0 exactly when every cell is solved. |
| `Board.EmptyCellOffsetsUnsolved` | sudoku_v1.1.py:59-63 | A grid with one empty cell and one two-candidate cell has n_to_remove 0 yet is not solved. |
| `Basics.DistinctIffSetSize` | sudoku_v1.1.py:126 | The duplicate test `len(p) != len(set(p))` holds exactly when some value occurs twice (also at line 190). |
| `Elimination.RemoveFirst` | sudoku_v1.1.py:101 | list.remove(x) shortens the list by one and removes exactly one x, counted as a multiset. |
| `Elimination.RemoveFirstFacts` | sudoku_v1.1.py:101 | remove(x) keeps every other value, adds nothing, and keeps an ascending list ascending without x. |
| `Elimination.EliminateFrom` | sudoku_v1.1.py:99-102 | The inner loop leaves the grid as the fold over the house's cells prescribes; its counter equals the drop in candidate count. |
| `Elimination.EliminateHouse` | sudoku_v1.1.py:97-102 | The loop over one house leaves the grid as the fold prescribes; its counter equals the drop in candidate count. |
| `Elimination.SimplePass` | sudoku_v1.1.py:94-103 | The pass over all 27 houses (nested folds over the three loops) yields 81 cells, each a list drawn from the old one and no longer. |
| `Elimination.SimpleElimination` | sudoku_v1.1.py:94-103 | The pass leaves the grid as `SimplePass` prescribes; the returned count equals the number of candidates removed (solver.py:78-87). |
| `Elimination.SimplePassShrinks` | sudoku_v1.1.py:94-103 | The pass only removes candidates: no list grows, and every digit left was there before. The count never rises, and well-formed grids stay well formed. |
| `Elimination.SimplePassNoRemoval` | sudoku_v1.1.py:94-103 | On a well-formed grid, a pass that removes nothing leaves the grid unchanged. |
| `Elimination.SimplePassJustified` | sudoku_v1.1.py:98-101 | Every digit a cell loses was in the list of a peer of that cell (never the cell itself, by the `cell2 != cell` guard) at the start, and that peer ends the pass holding nothing but that digit, or nothing at all. |
| `Elimination.SimplePassTrace` | sudoku_v1.1.py:94-103 | The pass is a sequence of `list.remove` calls: each takes from a cell the digit that a peer (never the cell itself) holds alone at that very moment, and the number of calls equals the number of candidates the pass removes. |
| `Elimination.SimplePassSound` | sudoku_v1.1.py:94-103 | A valid completion the grid allows is still allowed after the pass. |
| `CspElimination.AppendPermutations` | sudoku_v1.1.py:114-122 | The recursion appends to `perm` exactly the extensions of `sofar`, in the enumeration order. |
| `CspElimination.ExtensionsFromMembers` | sudoku_v1.1.py:114-120 | A list is appended exactly when it extends `sofar` with one candidate per later position, drawing the next position's from the loop's current index on. |
| `CspElimination.ProductMembers` | sudoku_v1.1.py:114-122 | The enumeration lists exactly the picks of one candidate per position. |
| `CspElimination.KeepDistinct` | sudoku_v1.1.py:125-127 | The kept picks are exactly the picks without a repeated digit. |
| `CspElimination.DropRepeats` | sudoku_v1.1.py:125-127 | The backward loop with `del` leaves exactly the repeat-free picks, in their original order. |
| `CspElimination.OccurringBelowMembers` | sudoku_v1.1.py:133-136 | The collected list is ascending, and holds exactly the digits below n that some pick places at the position. |
| `CspElimination.CollectPosition` | sudoku_v1.1.py:133-136 | The loops over n and the picks build the ascending list of digits 0 to 9 that the picks place at one position. |
| `CspElimination.CollectAll` | sudoku_v1.1.py:130-137 | `out` gets one such list per position. |
| `CspElimination.CspRefine` | sudoku_v1.1.py:109-137 | csp_list's result: one list per input position; its contents are stated by the three rows below. |
| `CspElimination.CspList` | sudoku_v1.1.py:109-137 | csp_list as written (enumerate, filter backwards, collect) returns the refinement `CspRefine` (solver.py:91-119). |
| `CspElimination.CspRefineMembers` | sudoku_v1.1.py:109-137 | d is in out[i] exactly when d is a digit 0 to 9 that some repeat-free pick of the house's lists places at i. |
| `CspElimination.CspRefineShrinks` | sudoku_v1.1.py:109-137 | Each output list is ascending, drawn from the input list at the same position, and no longer than it. |
| `CspElimination.CspRefineNoAssignment` | sudoku_v1.1.py:109-137 | With no repeat-free pick (for instance an empty input list), every output list is empty. |
| `CspElimination.CspRefineUnique` | solver.py:91-119 | When exactly one repeat-free pick of digits exists, every output list is the singleton of that pick's digit. |
| `CspElimination.ReadHouse` | sudoku_v1.1.py:143-145 | `house` holds the lists of the group's cells, in group order. |
| `CspElimination.WriteHouse` | sudoku_v1.1.py:148-151 | The write-back loop leaves the grid as `WriteBack` prescribes; the count equals the drop in candidate count. |
| `CspElimination.WriteBackAt` | sudoku_v1.1.py:148-151 | The cells written back hold their refined lists, and every other cell keeps its list. |
| `CspElimination.CspHouse` | sudoku_v1.1.py:143-151 | One house is refined and written back when it changed; the count equals the drop in candidate count. |
| `CspElimination.RefineHouseAt` | sudoku_v1.1.py:143-151 | Each cell of the house gets the refined list of its position; the 72 other cells keep theirs. |
| `CspElimination.CspPass` | sudoku_v1.1.py:140-152 | csp over the 27 houses in table order, each refined and written back, yields 81 cells. |
| `CspElimination.Csp` | sudoku_v1.1.py:140-152 | csp leaves the grid as `CspPass` prescribes and returns the number of candidates removed (solver.py:121-133). |
| `CspElimination.CspPassShrinks` | sudoku_v1.1.py:140-152 | csp never adds a candidate or lengthens a list, so the count never rises; well-formed grids stay well formed. |
| `CspElimination.CspPassNoRemoval` | sudoku_v1.1.py:140-152 | On a well-formed grid, a csp pass that removes nothing changes nothing. |
| `CspElimination.RefineHouseSound` | sudoku_v1.1.py:143-151 | Refining one house keeps every valid completion the grid allows. |
| `CspElimination.CspPassSound` | sudoku_v1.1.py:140-152 | A valid completion the grid allows is still allowed after csp. |
| `Backtracking.IsBroken` | sudoku_v1.1.py:184-192 | is_broken: scans the houses that `CellInHouse` gives the last forced cell; stated by `IsBrokenIff`. |
| `Backtracking.SingletonDigitsMembers` | sudoku_v1.1.py:186-189 | d is in house_data exactly when some cell of the house holds [d]. |
| `Backtracking.SingletonDigitsRepeat` | sudoku_v1.1.py:186-190 | house_data repeats a digit exactly when two different cells of the house hold the same single candidate. |
| `Backtracking.HousesBrokenIff` | sudoku_v1.1.py:185-192 | The loop over the houses reports broken exactly when some house's data has a repeat. |
| `Backtracking.IsBrokenIff` | sudoku_v1.1.py:184-192 | is_broken(s, c) holds exactly when some house containing c has two cells with the same single candidate (solver.py:160-168). |
| `Backtracking.NoCellNotBroken` | sudoku_v1.1.py:184-192 | The first call's default cell (-1, -1) is never broken. |
| `Backtracking.SolvedPrefix` | sudoku_v1.1.py:171-174 | The loop's stopping index: every cell before it has at most one candidate, and the cell at it has more. |
| `Backtracking.NextCellToForce` | sudoku_v1.1.py:171-174 | The answer, when there is one, is a board cell with more than one candidate; it is None exactly when no cell has more than one. |
| `Backtracking.NextCellToForceFirst` | sudoku_v1.1.py:171-174 | Every cell before the answer in range2 order (smaller second coordinate, or equal second and smaller first) has at most one candidate (solver.py:147-150). |
| `Backtracking.ForceDecreases` | sudoku_v1.1.py:216-219 | Forcing the chosen cell to one of its candidates changes only that cell and lowers n_to_remove by its length minus 1 (at least 1). |
| `Backtracking.Iterate` | sudoku_v1.1.py:194-221 | iteration: -1 on a broken grid, 1 and the grid recorded when nothing is left to remove, the KeyError when no cell can be forced, else the candidate loop; stated by the `Iterate*` rows below. |
| `Backtracking.Branches` | sudoku_v1.1.py:216-221 | The candidate loop from the k-th candidate on, each child on a copy with the cell forced; stated by the `Branches*` rows below. |
| `Backtracking.Search.constructor` | sudoku_v1.1.py:178 | The search starts with no solution recorded. |
| `Backtracking.Search.Iteration` | sudoku_v1.1.py:194-221 | The recursive method returns, and leaves `solution` as, the specification `Iterate` prescribes. |
| `Backtracking.Search.TryCandidates` | sudoku_v1.1.py:216-221 | The candidate loop returns, and leaves `solution` as, `Branches` prescribes: a child's 1 ends the loop with None. |
| `Backtracking.BruteForceRun` | sudoku_v1.1.py:223-232 | brute_force's result after the first call from (-1, -1): the recorded solution, else the input grid flagged not found, or the escaping exception. |
| `Backtracking.BruteForce` | sudoku_v1.1.py:177-232 | brute_force returns the recorded solution, or the input grid with the not-found flag, or the escaping exception (solver.py:153-208). |
| `Backtracking.BranchesReturn` | sudoku_v1.1.py:216-221 | The candidate loop only ever returns None (or lets an exception through); a child's 1 or -1 is never passed on. |
| `Backtracking.IterateReturn` | sudoku_v1.1.py:203-210 | iteration returns -1 exactly on a broken grid, and 1 exactly on an unbroken grid with nothing to remove, which it records as the solution. |
| `Backtracking.NotBrokenConsistent` | sudoku_v1.1.py:184-192 | A grid that passes is_broken at the forced cell, and had no conflict elsewhere, has no conflict at all. |
| `Backtracking.ForceAway` | sudoku_v1.1.py:217-218 | Forcing one cell of a conflict-free grid can only create conflicts that involve that cell. |
| `Backtracking.IterateFinds` | sudoku_v1.1.py:194-221 | Anything iteration records is drawn from its grid, has nothing to remove and no empty cell if the grid had none, and has no conflict when the grid had none away from the last cell. |
| `Backtracking.BranchesFinds` | sudoku_v1.1.py:216-221 | The same for the candidate loop: sibling branches only record grids drawn from the parent grid. |
| `Backtracking.IterateNoRaise` | sudoku_v1.1.py:212-216 | Without empty cells no exception is raised: while something is left to remove, a cell to force exists. |
| `Backtracking.BranchesNoRaise` | sudoku_v1.1.py:216-221 | The candidate loop raises nothing on a grid without empty cells. |
| `Backtracking.AdmitsNotBroken` | sudoku_v1.1.py:184-192 | A grid that allows a valid completion is never broken. |
| `Backtracking.IterateComplete` | sudoku_v1.1.py:194-221 | From a grid that allows a valid completion, iteration records some solution. |
| `Backtracking.BranchesComplete` | sudoku_v1.1.py:216-221 | If the completion's digit is among the candidates still to try, the loop records some solution. |
| `Backtracking.BruteForceSound` | sudoku_v1.1.py:177-232 | On a grid with no empty cell and no conflict: nothing raises; a found grid is solved, drawn from the input and conflict-free; otherwise the input comes back unchanged. |
| `Backtracking.BruteForceComplete` | sudoku_v1.1.py:177-232 | When the grid allows a valid completion, brute_force reports a solution found. |
| `Solver.Round` | sudoku_v1.1.py:255-263 | One round yields 81 cells and r_step: simple elimination, then csp when the flag is set or simple elimination removed nothing. |
| `Solver.Propagate` | sudoku_v1.1.py:254-271 | The while loop yields 81 cells, stopping when n_to_remove is 0 or a round removes nothing. |
| `Solver.RoundProgress` | sudoku_v1.1.py:255-263 | A round only removes candidates, and r_step is the number removed. With the flag off, csp runs only when simple elimination removed nothing; with it on, both passes run (solver.py:230-238). |
| `Solver.RoundFixpoint` | sudoku_v1.1.py:255-271 | A round that removes nothing from a well-formed grid changes nothing, and the grid is a fixpoint of both passes. |
| `Solver.PropagateExit` | sudoku_v1.1.py:254-271 | The loop terminates (every continuing round removes at least one candidate); on exit nothing is left to remove, or neither pass can change the grid (solver.py:229-246). |
| `Solver.PropagateSound` | sudoku_v1.1.py:254-271 | The loop never removes the digit of a valid completion the grid allowed. |
| `Solver.SolveRun` | sudoku_v1.1.py:237-292 | solve's result: the propagated grid, or brute_force's grid when candidates are left, or the escaping exception; stated by `SolveCorrect` and `SolveUnique`. |
| `Solver.RunRound` | sudoku_v1.1.py:255-267 | One pass of the while loop changes the grid in place as `Round` prescribes and returns r_step. |
| `Solver.Solve` | sudoku_v1.1.py:237-292 | solve returns what `SolveRun` prescribes: the propagated grid, handed to brute_force only when something is left to remove (solver.py:212-267). |
| `Solver.PencilInAdmits` | sudoku_v1.1.py:39-46 | The pencilled-in grid allows every valid completion that keeps the clues. |
| `Solver.PropagateAdmits` | sudoku_v1.1.py:241-271 | After the loop the grid is well formed, allows every valid completion that keeps the clues, and has no empty cell and no conflict. |
| `Solver.SolveCorrect` | sudoku_v1.1.py:237-292 | On a puzzle of digits with a valid completion, solve raises nothing and returns a solved grid whose digits are a valid completion keeping every clue. |
| `Solver.SolveUnique` | sudoku_v1.1.py:237-292 | When the clues allow exactly one valid completion, solve returns it. |
| `Solver.LineFromSolution` | sudoku_v1.1.py:297-302 | The string of each cell's first candidate, row by row, None when a cell is empty; stated by `LineFromSolutionAt`. |
| `Solver.LineFromSolutionAt` | sudoku_v1.1.py:297-302 | The line fails exactly when some cell is empty; on a solved grid of digits, character 9i+j is the digit of cell (i, j). |
| `Solver.ParseLine` | sudoku_v1.1.py:305-311 | The first 81 digit characters become an 81-cell puzzle of digits, read row by row. |
| `Solver.LineRoundTrip` | solver.py:270-283 | A line without zeros pencils in to a solved grid that prints back as the line itself. |
| `Solver.SolveFromLineFull` | solver.py:276-283 | A line without zeros comes back from solve_from_line unchanged. |
| `Solver.SolveFromLine` | sudoku_v1.1.py:305-312 | solve_from_line: parse the first 81 characters, solve, print; None when an exception escapes. |
| `Solver.SolveFromLineUnique` | sudoku_v1.1.py:305-312 | A line whose clues allow exactly one valid completion is solved to the line of that completion. |

## Left out

- Console output is not modelled: `print_sudoku`, the verbose prints, the `iter_counter` progress print and the "puzzle appears to be broken" message. The message is modelled as the `found` flag of `BruteResult`.
- `time.time()` and the `report` array are not modelled. They feed only the prints.
- n_solved is modelled (`Board.NSolved`), but solve does not use it, because in the source it only feeds the prints.
- The `verbose` parameter is dropped.
- The numpy buffers become sequences and arrays: `np.empty` is a fresh grid, and `s.copy()` is the value `s[Index(c) := [n]]`. Value semantics are exact because no code path mutates a list that two cells or two grids share.
- Solver.ParseLine: requires 81 digit characters. What `np.fromstring` does with other text, or a shorter line, is numpy's behaviour and is not modelled.
- Exceptions are modelled as values, not raised:
  - `cellHouse[None]`: `get_next_cell_to_force` finds no cell while `n_to_remove != 0`, which needs an empty cell. This is `Raises`/`Raised`/`Crashed`.
  - `b[0]` on an empty cell in `line_from_solution`: this is `None`.
- The `__main__` demo puzzles are not modelled. Solving particular puzzles is a matter of running the program.
- The running time of csp_list's full-product enumeration is not modelled. The model is exact about its result.
- Solver.LineFromSolutionAt: states characters only for grids of single digits 0 to 9, the only values a pencilled-in grid of a digit line holds. `Str` gives Python's decimal form of any integer, but where its characters fall in a longer line is not stated.
