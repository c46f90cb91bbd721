/** Backtracking ("brute force"): force the first unsolved cell to each of
    its candidates in turn on a copy of the grid, reject a copy as soon as a
    house of the forced cell holds two equal singletons, and remember the
    last grid reached with nothing left to remove. */
module Backtracking {
  import opened Basics
  import opened Houses
  import opened Board

  // ---------------------------------------------------------------------
  // is_broken

  /** house_data: the digits of the singleton cells of h, in house order. */
  function SingletonDigits(s: Grid, h: seq<Cell>): seq<int>
    requires |s| == 81 && forall c :: c in h ==> InRange(c)
  {
    if h == [] then []
    else (if |At(s, h[0])| == 1 then [At(s, h[0])[0]] else []) + SingletonDigits(s, h[1..])
  }

  /** The loop over the houses: some house's singleton digits repeat, tested
      as the source tests it, by comparing a list's length with its set's. */
  predicate HousesBroken(s: Grid, houses: seq<House>)
    requires |s| == 81 && forall h, c :: h in houses && c in h ==> InRange(c)
  {
    houses != [] &&
    var data := SingletonDigits(s, houses[0]);
    (|data| != |Elements(data)| || HousesBroken(s, houses[1..]))
  }

  /** is_broken: looks up the houses of the last forced cell (none for
      `NoCell`, the first call's default) and checks each of them. */
  predicate IsBroken(s: Grid, last: Cell)
    requires |s| == 81 && (InRange(last) || last == NoCell)
  {
    CellInHouseCells(last);
    HousesBroken(s, CellInHouse()[last])
  }

  /** The digit d is among the house data exactly when some cell of h holds
      [d] alone. */
  lemma {:induction false} SingletonDigitsMembers(s: Grid, h: seq<Cell>, d: int)
    requires |s| == 81 && forall c :: c in h ==> InRange(c)
    ensures d in SingletonDigits(s, h) <==> exists c :: c in h && At(s, c) == [d]
  {
    if h != [] {
      SingletonDigitsMembers(s, h[1..], d);
      if exists c :: c in h && At(s, c) == [d] {
        var c :| c in h && At(s, c) == [d];
        if c != h[0] { assert c in h[1..]; }
      }
    }
  }

  /** Two different cells that hold the same single candidate. */
  predicate SameSingleton(s: Grid, x: Cell, y: Cell)
    requires |s| == 81
  {
    InRange(x) && InRange(y) && x != y && |At(s, x)| == 1 && At(s, x) == At(s, y)
  }

  /** Two different cells of h holding the same single candidate either
      involve the head of h or both lie in its tail. */
  lemma SameSingletonCons(s: Grid, h: seq<Cell>)
    requires |s| == 81 && h != [] && forall a, b :: 0 <= a < b < |h| ==> h[a] != h[b]
    ensures (exists x, y :: x in h && y in h && SameSingleton(s, x, y)) <==>
      (exists y :: y in h[1..] && SameSingleton(s, h[0], y)) ||
      (exists x, y :: x in h[1..] && y in h[1..] && SameSingleton(s, x, y))
  {
    var t := h[1..];
    assert forall x :: x in h && x != h[0] ==> x in t;
    if exists x, y :: x in h && y in h && SameSingleton(s, x, y) {
      var x, y :| x in h && y in h && SameSingleton(s, x, y);
      if x == h[0] {
        assert y in t;
      } else if y == h[0] {
        assert x in t && SameSingleton(s, y, x);
      } else {
        assert x in t && y in t;
      }
    }
    if exists y :: y in t && SameSingleton(s, h[0], y) {
      var y :| y in t && SameSingleton(s, h[0], y);
      assert h[0] in h && y in h;
    }
    if exists x, y :: x in t && y in t && SameSingleton(s, x, y) {
      var x, y :| x in t && y in t && SameSingleton(s, x, y);
      assert x in h && y in h;
    }
  }

  /** A head holding d alone has a twin further down the house exactly when
      d is among the tail's house data. */
  lemma HeadTwin(s: Grid, h: seq<Cell>, d: int)
    requires |s| == 81 && h != [] && forall c :: c in h ==> InRange(c)
    requires forall a, b :: 0 <= a < b < |h| ==> h[a] != h[b]
    requires At(s, h[0]) == [d]
    ensures (exists y :: y in h[1..] && SameSingleton(s, h[0], y)) <==> d in SingletonDigits(s, h[1..])
  {
    var t := h[1..];
    SingletonDigitsMembers(s, t, d);
    if d in SingletonDigits(s, t) {
      var y :| y in t && At(s, y) == [d];
      var j :| 0 <= j < |t| && t[j] == y;
      assert h[j + 1] == y;
      assert SameSingleton(s, h[0], y);
    }
  }

  /** Over a house of different cells, the house data repeats a digit
      exactly when two different cells hold the same single candidate. */
  lemma {:induction false} SingletonDigitsRepeat(s: Grid, h: seq<Cell>)
    requires |s| == 81 && forall c :: c in h ==> InRange(c)
    requires forall a, b :: 0 <= a < b < |h| ==> h[a] != h[b]
    ensures !Distinct(SingletonDigits(s, h)) <==>
      exists x, y :: x in h && y in h && SameSingleton(s, x, y)
  {
    if h != [] {
      var t := h[1..];
      var rest := SingletonDigits(s, t);
      SingletonDigitsRepeat(s, t);
      SameSingletonCons(s, h);
      if |At(s, h[0])| == 1 {
        var d := At(s, h[0])[0];
        assert SingletonDigits(s, h) == [d] + rest;
        DistinctCons(d, rest);
        HeadTwin(s, h, d);
      } else {
        assert SingletonDigits(s, h) == rest;
      }
    }
  }

  lemma {:induction false} HousesBrokenIff(s: Grid, houses: seq<House>)
    requires |s| == 81 && forall h, c :: h in houses && c in h ==> InRange(c)
    ensures HousesBroken(s, houses) <==> exists h :: h in houses && !Distinct(SingletonDigits(s, h))
  {
    if houses != [] {
      HousesBrokenIff(s, houses[1..]);
      DistinctIffSetSize(SingletonDigits(s, houses[0]));
      if exists h :: h in houses && !Distinct(SingletonDigits(s, h)) {
        var h :| h in houses && !Distinct(SingletonDigits(s, h));
        if h != houses[0] { assert h in houses[1..]; }
      }
    }
  }

  /** is_broken(s, c) holds exactly when some house containing c has two
      different cells holding the same single candidate. */
  lemma IsBrokenIff(s: Grid, c: Cell)
    requires |s| == 81 && InRange(c)
    ensures IsBroken(s, c) <==>
      exists h, x, y :: h in HousesOf(c) && x in h && y in h && SameSingleton(s, x, y)
  {
    CellInHouseAt(c);
    HousesOfFacts(c);
    HousesBrokenIff(s, HousesOf(c));
    forall h | h in HousesOf(c)
      ensures !Distinct(SingletonDigits(s, h)) <==>
        exists x, y :: x in h && y in h && SameSingleton(s, x, y)
    {
      SingletonDigitsRepeat(s, h);
    }
  }

  /** The first call's cell, `NoCell`, has no houses: nothing is broken. */
  lemma NoCellNotBroken(s: Grid)
    requires |s| == 81
    ensures !IsBroken(s, NoCell)
  {
    CellInHouseNoCell();
  }

  // ---------------------------------------------------------------------
  // get_next_cell_to_force

  /** How many cells at the front of `cells` hold at most one candidate:
      the position of the first cell with more than one, if there is one. */
  function SolvedPrefix(s: Grid, cells: seq<Cell>): (k: nat)
    requires |s| == 81 && forall c :: c in cells ==> InRange(c)
    ensures k <= |cells|
    ensures forall j :: 0 <= j < k ==> |At(s, cells[j])| <= 1
    ensures k < |cells| ==> |At(s, cells[k])| > 1
  {
    if cells == [] || |At(s, cells[0])| > 1 then 0
    else
      var k := SolvedPrefix(s, cells[1..]);
      assert forall j :: 0 < j <= k ==> cells[j] == cells[1..][j - 1];
      1 + k
  }

  /** get_next_cell_to_force: the first cell in range2 order (second
      coordinate outermost) with more than one candidate, or None. */
  function NextCellToForce(s: Grid): (r: Option<Cell>)
    requires |s| == 81
    ensures r.Some? ==> InRange(r.value) && |At(s, r.value)| > 1
    ensures r.None? <==> forall c :: InRange(c) ==> |At(s, c)| <= 1
  {
    Range2Board();
    var k := SolvedPrefix(s, Range2(9, 9));
    if k == 81 then None else Some(Range2(9, 9)[k])
  }

  // ---------------------------------------------------------------------
  // iteration

  /** The values `iteration` returns: 1, -1, or Python's None. */
  datatype Ret = One | MinusOne | NoneRet
  /** A call either returns or raises (the KeyError that follows when no
      cell can be forced while candidates are left to remove). */
  datatype Outcome = Returns(ret: Ret) | Raises
  /** What a call returns, and the value of `solution` afterwards. */
  datatype Run = Run(out: Outcome, solution: Option<Grid>)

  /** iteration(s, last_cell) with `solution` = sol on entry. */
  function Iterate(s: Grid, last: Cell, sol: Option<Grid>): Run
    requires |s| == 81 && (InRange(last) || last == NoCell)
    decreases Total(s), 1
  {
    if IsBroken(s, last) then Run(Returns(MinusOne), sol)
    else if NToRemove(s) == 0 then Run(Returns(One), Some(s))
    else match NextCellToForce(s)
      case None => Run(Raises, sol)
      case Some(c) => Branches(s, c, 0, sol)
  }

  /** The loop over the candidates of cell c from the k-th on: each try
      works on a copy of s with c forced to that candidate; a child's 1 ends
      the loop with None, anything else moves on to the next candidate. */
  function Branches(s: Grid, c: Cell, k: nat, sol: Option<Grid>): Run
    requires |s| == 81 && InRange(c) && |At(s, c)| > 1 && k <= |At(s, c)|
    decreases Total(s), 0, |At(s, c)| - k
  {
    if k == |At(s, c)| then Run(Returns(NoneRet), sol)
    else
      var scopy := s[Index(c) := [At(s, c)[k]]];
      TotalUpdate(s, Index(c), [At(s, c)[k]]);
      var child := Iterate(scopy, c, sol);
      if child.out == Raises then child
      else if child.out == Returns(One) then Run(Returns(NoneRet), child.solution)
      else Branches(s, c, k + 1, child.solution)
  }

  /** One turn of the candidate loop, unfolded. */
  lemma BranchesStep(s: Grid, c: Cell, k: nat, sol: Option<Grid>)
    requires |s| == 81 && InRange(c) && |At(s, c)| > 1 && k < |At(s, c)|
    ensures var scopy := s[Index(c) := [At(s, c)[k]]];
      Total(scopy) < Total(s) &&
      var child := Iterate(scopy, c, sol);
      Branches(s, c, k, sol) ==
        if child.out == Raises then child
        else if child.out == Returns(One) then Run(Returns(NoneRet), child.solution)
        else Branches(s, c, k + 1, child.solution)
  {
    TotalUpdate(s, Index(c), [At(s, c)[k]]);
  }

  /** The state brute_force shares with its nested `iteration`. */
  class Search {
    var solution: Option<Grid>

    constructor ()
      ensures solution == None
    {
      solution := None;
    }

    /** iteration: returns -1 on a broken grid, records a grid with nothing
        left to remove and returns 1, or forces the next cell to each of its
        candidates in turn on a copy of the grid. */
    method Iteration(s: Grid, last: Cell) returns (out: Outcome)
      requires |s| == 81 && (InRange(last) || last == NoCell)
      modifies this
      decreases Total(s), 1
      ensures out == Iterate(s, last, old(solution)).out
      ensures solution == Iterate(s, last, old(solution)).solution
    {
      if IsBroken(s, last) {
        return Returns(MinusOne);
      }
      if NToRemove(s) == 0 {
        solution := Some(s);
        return Returns(One);
      }
      var nextCell := NextCellToForce(s);
      if nextCell.None? {
        return Raises;
      }
      out := TryCandidates(s, nextCell.value);
    }

    /** The candidate loop of iteration for the cell c it forces: each try
        runs on a copy of s with c forced to that candidate; a child's 1
        ends the loop with None, and an exception propagates. */
    method TryCandidates(s: Grid, c: Cell) returns (out: Outcome)
      requires |s| == 81 && InRange(c) && |At(s, c)| > 1
      modifies this
      decreases Total(s), 0
      ensures out == Branches(s, c, 0, old(solution)).out
      ensures solution == Branches(s, c, 0, old(solution)).solution
    {
      var cands := At(s, c);
      for k := 0 to |cands|
        invariant Branches(s, c, 0, old(solution)) == Branches(s, c, k, solution)
      {
        var scopy := s[Index(c) := [cands[k]]];
        BranchesStep(s, c, k, solution);
        var result := Iteration(scopy, c);
        if result == Raises {
          return Raises;
        }
        if result == Returns(One) {
          return Returns(NoneRet);
        }
      }
      return Returns(NoneRet);
    }
  }

  /** What brute_force hands back: the recorded solution, or the input grid
      with the "appears to be broken" flag, or the escaping exception. */
  datatype BruteResult = Finished(grid: Grid, found: bool) | Raised

  function BruteForceRun(s: Grid): BruteResult
    requires |s| == 81
  {
    var r := Iterate(s, NoCell, None);
    if r.out == Raises then Raised
    else match r.solution
      case Some(g) => Finished(g, true)
      case None => Finished(s, false)
  }

  /** brute_force: runs the search from `NoCell` and returns the recorded
      solution, or the grid it was given when none was recorded. */
  method BruteForce(s: Grid) returns (r: BruteResult)
    requires |s| == 81
    ensures r == BruteForceRun(s)
  {
    var search := new Search();
    var out := search.Iteration(s, NoCell);
    if out == Raises {
      return Raised;
    }
    if search.solution.Some? {
      return Finished(search.solution.value, true);
    }
    return Finished(s, false);
  }

  // ---------------------------------------------------------------------
  // the cell to force, and forcing it

  /** The cell chosen is the first unsolved one in range2 order: every cell
      with a smaller second coordinate, or the same second coordinate and a
      smaller first one, has at most one candidate. */
  lemma NextCellToForceFirst(s: Grid)
    requires |s| == 81 && NextCellToForce(s).Some?
    ensures var c := NextCellToForce(s).value;
      forall d :: InRange(d) && (d.1 < c.1 || (d.1 == c.1 && d.0 < c.0)) ==> |At(s, d)| <= 1
  {
    Range2Board();
    var cells := Range2(9, 9);
    var c := NextCellToForce(s).value;
    var k := SolvedPrefix(s, cells);
    Range2Position(c);
    assert k == 9 * c.1 + c.0;
    forall d | InRange(d) && (d.1 < c.1 || (d.1 == c.1 && d.0 < c.0)) ensures |At(s, d)| <= 1 {
      Range2Position(d);
    }
  }

  /** Where range2 lists a board cell. */
  lemma Range2Position(d: Cell)
    requires InRange(d)
    ensures 0 <= 9 * d.1 + d.0 < 81 && Range2(9, 9)[9 * d.1 + d.0] == d
  {
    Range2At(9, 9, 9 * d.1 + d.0);
    DivModUnique(9, d.1, d.0);
  }

  /** Forcing cell c, which has more than one candidate, to one of them n
      only narrows c, and lowers n_to_remove and the candidate count by
      |c| - 1 >= 1. */
  lemma ForceDecreases(s: Grid, c: Cell, n: int)
    requires |s| == 81 && InRange(c) && |At(s, c)| > 1 && n in At(s, c)
    ensures var s' := s[Index(c) := [n]];
      Shrunk(s, s') && At(s', c) == [n] &&
      (forall k :: 0 <= k < 81 && k != Index(c) ==> s'[k] == s[k]) &&
      NToRemove(s') == NToRemove(s) - (|At(s, c)| - 1) < NToRemove(s) &&
      Total(s') < Total(s)
  {
    var s' := s[Index(c) := [n]];
    TotalUpdate(s, Index(c), [n]);
    NToRemoveTotal(s);
    NToRemoveTotal(s');
  }

  // ---------------------------------------------------------------------
  // the return codes

  /** The loop over candidates returns None (or lets an exception through);
      it never passes a child's 1 or -1 on. */
  lemma {:induction false} BranchesReturn(s: Grid, c: Cell, k: nat, sol: Option<Grid>)
    requires |s| == 81 && InRange(c) && |At(s, c)| > 1 && k <= |At(s, c)|
    decreases |At(s, c)| - k
    ensures Branches(s, c, k, sol).out in {Returns(NoneRet), Raises}
  {
    if k < |At(s, c)| {
      TotalUpdate(s, Index(c), [At(s, c)[k]]);
      var child := Iterate(s[Index(c) := [At(s, c)[k]]], c, sol);
      if child.out != Raises && child.out != Returns(One) {
        BranchesReturn(s, c, k + 1, child.solution);
      }
    }
  }

  /** iteration returns -1 exactly on a broken grid and 1 exactly on an
      unbroken grid with nothing left to remove, which it then records;
      a success deeper down reaches its caller as None. */
  lemma IterateReturn(s: Grid, last: Cell, sol: Option<Grid>)
    requires |s| == 81 && (InRange(last) || last == NoCell)
    ensures var r := Iterate(s, last, sol);
      (r.out == Returns(MinusOne) <==> IsBroken(s, last)) &&
      (r.out == Returns(One) <==> !IsBroken(s, last) && NToRemove(s) == 0) &&
      (r.out == Returns(One) ==> r.solution == Some(s))
  {
    if !IsBroken(s, last) && NToRemove(s) != 0 && NextCellToForce(s).Some? {
      BranchesReturn(s, NextCellToForce(s).value, 0, sol);
    }
  }

  // ---------------------------------------------------------------------
  // what the search records

  /** No two peer cells hold the same single candidate. */
  predicate Consistent(g: Grid)
    requires |g| == 81
  {
    forall k, l :: 0 <= k < 81 && 0 <= l < 81 && Peers(CellAt(k), CellAt(l)) && |g[k]| == 1 ==> g[k] != g[l]
  }

  /** The same, for the pairs of cells that do not involve c. */
  predicate ConsistentAway(g: Grid, c: Cell)
    requires |g| == 81
  {
    forall k, l ::
      (0 <= k < 81 && 0 <= l < 81 && CellAt(k) != c && CellAt(l) != c &&
       Peers(CellAt(k), CellAt(l)) && |g[k]| == 1) ==> g[k] != g[l]
  }

  /** A grid that passes is_broken at the last forced cell, and had no
      conflict elsewhere, has no conflict at all. */
  lemma NotBrokenConsistent(s: Grid, last: Cell)
    requires |s| == 81 && (InRange(last) || last == NoCell)
    requires ConsistentAway(s, last) && !IsBroken(s, last)
    ensures Consistent(s)
  {
    if last != NoCell {
      IsBrokenIff(s, last);
      HousesOfFacts(last);
      forall k, l | 0 <= k < 81 && 0 <= l < 81 && Peers(CellAt(k), CellAt(l)) && |s[k]| == 1
        ensures s[k] != s[l]
      {
        if CellAt(k) == last || CellAt(l) == last {
          var other := if CellAt(k) == last then CellAt(l) else CellAt(k);
          assert Peers(last, other);
          var h :| h in HousesOf(last) && other in h;
          assert !SameSingleton(s, CellAt(k), CellAt(l));
        }
      }
    }
  }

  /** Forcing one cell of a consistent grid can only create conflicts that
      involve that cell. */
  lemma ForceAway(s: Grid, c: Cell, n: int)
    requires |s| == 81 && InRange(c) && Consistent(s)
    ensures ConsistentAway(s[Index(c) := [n]], c)
  {
    forall k | 0 <= k < 81 && CellAt(k) != c ensures k != Index(c) {
      if k == Index(c) { IndexInjective(c, CellAt(k)); }
    }
  }

  /** What a recorded solution satisfies with respect to the grid s the
      search was started on: drawn from s, nothing left to remove, and no
      empty cell if s had none. */
  predicate Found(s: Grid, g: Grid) {
    |s| == 81 && |g| == 81 && Shrunk(s, g) && NToRemove(g) == 0 && (NoEmpty(s) ==> NoEmpty(g))
  }

  /** What a search from a forced copy of s records, a search from s may
      record too. */
  lemma FoundThroughForce(s: Grid, c: Cell, n: int, g: Grid)
    requires |s| == 81 && InRange(c) && |At(s, c)| > 1 && n in At(s, c)
    requires Found(s[Index(c) := [n]], g)
    ensures Found(s, g)
  {
    var s' := s[Index(c) := [n]];
    ForceDecreases(s, c, n);
    ShrunkTransitive(s, s', g);
    if NoEmpty(s) {
      forall k | 0 <= k < 81 ensures |s'[k]| != 0 {
        if k != Index(c) { assert s'[k] == s[k]; }
      }
    }
  }

  lemma {:induction false} IterateFinds(s: Grid, last: Cell, sol: Option<Grid>)
    requires |s| == 81 && (InRange(last) || last == NoCell)
    decreases Total(s), 1
    ensures var r := Iterate(s, last, sol);
      r.solution == sol ||
      (r.solution.Some? && Found(s, r.solution.value) &&
       (ConsistentAway(s, last) ==> Consistent(r.solution.value)))
  {
    if !IsBroken(s, last) {
      if ConsistentAway(s, last) { NotBrokenConsistent(s, last); }
      if NToRemove(s) != 0 && NextCellToForce(s).Some? {
        BranchesFinds(s, NextCellToForce(s).value, 0, sol);
      }
    }
  }

  lemma {:induction false} BranchesFinds(s: Grid, c: Cell, k: nat, sol: Option<Grid>)
    requires |s| == 81 && InRange(c) && |At(s, c)| > 1 && k <= |At(s, c)|
    decreases Total(s), 0, |At(s, c)| - k
    ensures var r := Branches(s, c, k, sol);
      r.solution == sol ||
      (r.solution.Some? && Found(s, r.solution.value) &&
       (Consistent(s) ==> Consistent(r.solution.value)))
  {
    if k < |At(s, c)| {
      var n := At(s, c)[k];
      var scopy := s[Index(c) := [n]];
      BranchesStep(s, c, k, sol);
      IterateFinds(scopy, c, sol);
      if Consistent(s) { ForceAway(s, c, n); }
      var child := Iterate(scopy, c, sol);
      if child.solution != sol { FoundThroughForce(s, c, n, child.solution.value); }
      if child.out != Raises && child.out != Returns(One) {
        BranchesFinds(s, c, k + 1, child.solution);
      }
    }
  }

  /** Without empty cells nothing raises: while candidates are left to
      remove, some cell has two of them to force. */
  lemma {:induction false} IterateNoRaise(s: Grid, last: Cell, sol: Option<Grid>)
    requires |s| == 81 && (InRange(last) || last == NoCell) && NoEmpty(s)
    decreases Total(s), 1
    ensures Iterate(s, last, sol).out != Raises
  {
    if !IsBroken(s, last) && NToRemove(s) != 0 {
      if NextCellToForce(s).None? {
        forall k | 0 <= k < 81 ensures |s[k]| == 1 {
          assert |At(s, CellAt(k))| <= 1;
        }
        NothingToRemove(s);
        assert false;
      }
      BranchesNoRaise(s, NextCellToForce(s).value, 0, sol);
    }
  }

  lemma {:induction false} BranchesNoRaise(s: Grid, c: Cell, k: nat, sol: Option<Grid>)
    requires |s| == 81 && InRange(c) && |At(s, c)| > 1 && k <= |At(s, c)| && NoEmpty(s)
    decreases Total(s), 0, |At(s, c)| - k
    ensures Branches(s, c, k, sol).out != Raises
  {
    if k < |At(s, c)| {
      var n := At(s, c)[k];
      var scopy := s[Index(c) := [n]];
      ForceDecreases(s, c, n);
      BranchesStep(s, c, k, sol);
      IterateNoRaise(scopy, c, sol);
      var child := Iterate(scopy, c, sol);
      if child.out != Returns(One) {
        BranchesNoRaise(s, c, k + 1, child.solution);
      }
    }
  }

  /** Two peers cannot hold the same single candidate in a grid that
      allows a valid completion. */
  lemma AdmitsPeersDiffer(s: Grid, fill: seq<int>, x: Cell, y: Cell)
    requires |s| == 81 && ValidFill(fill) && Admits(s, fill) && Peers(x, y)
    ensures !SameSingleton(s, x, y)
  {
    var a, b := Index(x), Index(y);
    assert CellAt(a) == x by { IndexInjective(x, CellAt(a)); }
    assert CellAt(b) == y by { IndexInjective(y, CellAt(b)); }
    assert fill[a] != fill[b];
    assert fill[a] in s[a] && fill[b] in s[b];
  }

  /** A grid that allows a valid completion has no two peers holding the
      same single candidate. */
  lemma AdmitsConsistent(s: Grid, fill: seq<int>)
    requires |s| == 81 && ValidFill(fill) && Admits(s, fill)
    ensures Consistent(s)
  {
    forall k, l | 0 <= k < 81 && 0 <= l < 81 && Peers(CellAt(k), CellAt(l)) && |s[k]| == 1
      ensures s[k] != s[l]
    {
      AdmitsPeersDiffer(s, fill, CellAt(k), CellAt(l));
    }
  }

  /** A grid that allows a valid completion has no conflict anywhere. */
  lemma AdmitsNotBroken(s: Grid, last: Cell, fill: seq<int>)
    requires |s| == 81 && (InRange(last) || last == NoCell)
    requires ValidFill(fill) && Admits(s, fill)
    ensures !IsBroken(s, last)
  {
    if last == NoCell {
      NoCellNotBroken(s);
    } else {
      IsBrokenIff(s, last);
      HousesOfFacts(last);
      forall h, x, y | h in HousesOf(last) && x in h && y in h ensures !SameSingleton(s, x, y) {
        if x != y { AdmitsPeersDiffer(s, fill, x, y); }
      }
    }
  }

  /** Forcing a cell keeps every cell non-empty, and forcing it to the
      completion's digit keeps the completion allowed. */
  lemma ForceKeeps(s: Grid, c: Cell, n: int, fill: seq<int>)
    requires |s| == 81 && InRange(c) && ValidFill(fill) && Admits(s, fill)
    ensures NoEmpty(s[Index(c) := [n]])
    ensures n == fill[Index(c)] ==> Admits(s[Index(c) := [n]], fill)
  {
    var scopy := s[Index(c) := [n]];
    forall k | 0 <= k < 81 ensures |scopy[k]| != 0 {
      if k != Index(c) { assert fill[k] in s[k]; }
    }
  }

  lemma {:induction false} IterateComplete(s: Grid, last: Cell, sol: Option<Grid>, fill: seq<int>)
    requires |s| == 81 && (InRange(last) || last == NoCell)
    requires ValidFill(fill) && Admits(s, fill)
    decreases Total(s), 1
    ensures Iterate(s, last, sol).solution.Some?
  {
    AdmitsNotBroken(s, last, fill);
    if NToRemove(s) != 0 {
      IterateNoRaise(s, last, sol);
      var c := NextCellToForce(s).value;
      assert At(s, c)[0..] == At(s, c);
      BranchesComplete(s, c, 0, sol, fill);
    }
  }

  lemma {:induction false} BranchesComplete(s: Grid, c: Cell, k: nat, sol: Option<Grid>, fill: seq<int>)
    requires |s| == 81 && InRange(c) && |At(s, c)| > 1 && k < |At(s, c)|
    requires ValidFill(fill) && Admits(s, fill) && fill[Index(c)] in At(s, c)[k..]
    decreases Total(s), 0, |At(s, c)| - k
    ensures Branches(s, c, k, sol).solution.Some?
  {
    var n := At(s, c)[k];
    var scopy := s[Index(c) := [n]];
    BranchesStep(s, c, k, sol);
    ForceKeeps(s, c, n, fill);
    var child := Iterate(scopy, c, sol);
    if n == fill[Index(c)] {
      IterateComplete(scopy, c, sol, fill);
      if child.out != Raises && child.out != Returns(One) {
        BranchesFinds(s, c, k + 1, child.solution);
      }
    } else {
      IterateReturn(scopy, c, sol);
      IterateNoRaise(scopy, c, sol);
      if child.out != Returns(One) {
        var j :| 0 <= j < |At(s, c)[k..]| && At(s, c)[k..][j] == fill[Index(c)];
        assert j != 0;
        assert At(s, c)[k + 1..][j - 1] == fill[Index(c)];
        BranchesComplete(s, c, k + 1, child.solution, fill);
      }
    }
  }

  // ---------------------------------------------------------------------
  // brute_force

  /** The digit of each cell of a fully solved grid. */
  function Digits(g: Grid): (d: seq<int>)
    requires AllSingletons(g)
    ensures |d| == |g|
  {
    seq(|g|, k requires 0 <= k < |g| => g[k][0])
  }

  /** On a grid without empty cells and without conflicts, brute_force
      raises nothing; what it reports as found is solved, drawn from the
      grid and conflict-free; otherwise it hands the grid back unchanged. */
  lemma BruteForceSound(s: Grid)
    requires |s| == 81 && NoEmpty(s) && Consistent(s)
    ensures BruteForceRun(s).Finished?
    ensures var r := BruteForceRun(s);
      r.found ==> AllSingletons(r.grid) && Shrunk(s, r.grid) && Consistent(r.grid)
    ensures !BruteForceRun(s).found ==> BruteForceRun(s).grid == s
  {
    IterateNoRaise(s, NoCell, None);
    IterateFinds(s, NoCell, None);
    var r := Iterate(s, NoCell, None);
    if r.solution.Some? {
      NothingToRemove(r.solution.value);
    }
  }

  /** A solved, conflict-free grid drawn from a well-formed grid spells out
      a valid completion that the grid allows. */
  lemma SolvedIsFill(s: Grid, g: Grid)
    requires WellFormed(s) && |g| == 81 && Shrunk(s, g) && AllSingletons(g) && Consistent(g)
    ensures ValidFill(Digits(g)) && Admits(s, Digits(g))
  {
    var d := Digits(g);
    forall k | 0 <= k < 81 ensures d[k] in s[k] {
      assert d[k] == g[k][0];
      assert g[k] == [d[k]];
      assert d[k] in g[k];
    }
    forall k, l | 0 <= k < 81 && 0 <= l < 81 && Peers(CellAt(k), CellAt(l)) ensures d[k] != d[l] {
      assert d[k] == g[k][0] && d[l] == g[l][0];
      assert g[k] == [d[k]] && g[l] == [d[l]];
    }
  }

  /** Completeness: when the grid allows a valid completion, brute_force
      finds a solution (not necessarily that one). */
  lemma BruteForceComplete(s: Grid, fill: seq<int>)
    requires |s| == 81 && ValidFill(fill) && Admits(s, fill)
    ensures BruteForceRun(s).Finished? && BruteForceRun(s).found
  {
    assert NoEmpty(s) by {
      forall k | 0 <= k < 81 ensures |s[k]| != 0 { assert fill[k] in s[k]; }
    }
    IterateNoRaise(s, NoCell, None);
    IterateComplete(s, NoCell, None, fill);
  }
}
