/** Simple elimination: for every house, every cell of it that holds a single
    candidate has that digit removed from the other cells of the house, in
    place, one `list.remove` at a time. */
module Elimination {
  import opened Basics
  import opened Houses
  import opened Board

  /** Where `list.remove(x)` strikes: the first occurrence of x. */
  function FirstIndex(s: Cands, x: int): (k: nat)
    requires x in s
    ensures k < |s| && s[k] == x && x !in s[..k]
  {
    if s[0] == x then 0
    else
      assert x in s[1..];
      var k := 1 + FirstIndex(s[1..], x);
      assert s[..k] == [s[0]] + s[1..][..k - 1];
      k
  }

  /** Python's `list.remove(x)`: drops the first occurrence of x and keeps
      the order of the rest. */
  function RemoveFirst(s: Cands, x: int): (r: Cands)
    requires x in s
    ensures |r| == |s| - 1
    ensures multiset(r) + multiset{x} == multiset(s)
  {
    var k := FirstIndex(s, x);
    assert s == s[..k] + [x] + s[k + 1..];
    s[..k] + s[k + 1..]
  }

  /** Only x leaves the list, and an ascending list stays ascending. */
  lemma RemoveFirstFacts(s: Cands, x: int)
    requires x in s
    ensures forall d :: d in s && d != x ==> d in RemoveFirst(s, x)
    ensures forall d :: d in RemoveFirst(s, x) ==> d in s
    ensures StrictlyAscending(s) ==> StrictlyAscending(RemoveFirst(s, x)) && x !in RemoveFirst(s, x)
  {
    var r := RemoveFirst(s, x);
    var k := FirstIndex(s, x);
    assert forall i :: 0 <= i < k ==> r[i] == s[i];
    assert forall i :: k <= i < |r| ==> r[i] == s[i + 1];
    forall d | d in s && d != x ensures d in r {
      var i :| 0 <= i < |s| && s[i] == d;
      if i < k { assert r[i] == d; } else { assert r[i - 1] == d; }
    }
    if StrictlyAscending(s) {
      forall a, b | 0 <= a < b < |r| ensures r[a] < r[b] {
        var a' := if a < k then a else a + 1;
        var b' := if b < k then b else b + 1;
        assert r[a] == s[a'] && r[b] == s[b'];
      }
    }
  }

  predicate IsHouse(h: House) {
    |h| == 9 && forall a :: 0 <= a < 9 ==> InRange(h[a])
  }

  lemma AllHousesAreHouses()
    ensures |AllHouses()| == 27
    ensures forall n :: 0 <= n < 27 ==> IsHouse(AllHouses()[n])
  {
    HouseTables();
  }

  /** Every candidate list only lost elements, one `remove` at a time, so
      each list is no longer and its digits were there before. */
  predicate Drawn(g0: Grid, g: Grid) {
    Shrunk(g0, g) && NoLonger(g0, g)
  }

  // ---------------------------------------------------------------------
  // the pass, as three nested folds over the loops of the source

  /** The innermost loop: the first m cells of house h, as targets of the
      singleton cell `src`. */
  function Targets(g: Grid, h: House, src: Cell, m: nat): (r: Grid)
    requires |g| == 81 && IsHouse(h) && InRange(src) && |At(g, src)| == 1 && m <= 9
    ensures |r| == 81 && At(r, src) == At(g, src)
    ensures Drawn(g, r)
    ensures Total(r) <= Total(g)
  {
    if m == 0 then g
    else
      var g' := Targets(g, h, src, m - 1);
      var t := h[m - 1];
      var x := At(g', src)[0];
      if x in At(g', t) && t != src then
        var r := g'[Index(t) := RemoveFirst(At(g', t), x)];
        TotalUpdate(g', Index(t), RemoveFirst(At(g', t), x));
        assert Index(t) != Index(src) by {
          if Index(t) == Index(src) { IndexInjective(t, src); }
        }
        r
      else g'
  }

  /** The middle loop: the first m cells of house h, each used as a source
      when it holds a single candidate at the moment it is reached. */
  function Sources(g: Grid, h: House, m: nat): (r: Grid)
    requires |g| == 81 && IsHouse(h) && m <= 9
    ensures |r| == 81
    ensures Drawn(g, r)
    ensures Total(r) <= Total(g)
  {
    if m == 0 then g
    else
      var g' := Sources(g, h, m - 1);
      var src := h[m - 1];
      if |At(g', src)| == 1 then Targets(g', h, src, 9) else g'
  }

  /** The outer loop: the first n houses of the table. */
  function HousesUpTo(g: Grid, n: nat): (r: Grid)
    requires |g| == 81 && n <= 27
    ensures |r| == 81
    ensures Drawn(g, r)
    ensures Total(r) <= Total(g)
  {
    if n == 0 then g
    else
      AllHousesAreHouses();
      Sources(HousesUpTo(g, n - 1), AllHouses()[n - 1], 9)
  }

  /** One full simple-elimination pass over all 27 houses. */
  function SimplePass(g: Grid): (r: Grid)
    requires |g| == 81
    ensures |r| == 81 && Drawn(g, r)
  {
    HousesUpTo(g, 27)
  }

  // ---------------------------------------------------------------------
  // the method

  /** The innermost loop: removes the digit of the singleton `cell` from the
      other cells of `group` that hold it, counting the removals. */
  method EliminateFrom(sudoku: array<Cands>, group: House, cell: Cell) returns (removed: int)
    requires sudoku.Length == 81 && IsHouse(group) && InRange(cell) && |sudoku[Index(cell)]| == 1
    modifies sudoku
    ensures sudoku[..] == Targets(old(sudoku[..]), group, cell, 9)
    ensures removed == Total(old(sudoku[..])) - Total(sudoku[..])
  {
    ghost var mid := sudoku[..];
    removed := 0;
    for b := 0 to 9
      invariant sudoku[..] == Targets(mid, group, cell, b)
      invariant removed == Total(mid) - Total(sudoku[..])
    {
      var cell2 := group[b];
      if sudoku[Index(cell)][0] in sudoku[Index(cell2)] && cell2 != cell {
        ghost var cur := sudoku[..];
        sudoku[Index(cell2)] := RemoveFirst(sudoku[Index(cell2)], sudoku[Index(cell)][0]);
        TotalUpdate(cur, Index(cell2), sudoku[Index(cell2)]);
        removed := removed + 1;
      }
    }
  }

  /** The middle loop: every singleton cell of `group` in turn eliminates
      its digit from the rest of the group. */
  method EliminateHouse(sudoku: array<Cands>, group: House) returns (removed: int)
    requires sudoku.Length == 81 && IsHouse(group)
    modifies sudoku
    ensures sudoku[..] == Sources(old(sudoku[..]), group, 9)
    ensures removed == Total(old(sudoku[..])) - Total(sudoku[..])
  {
    ghost var before := sudoku[..];
    removed := 0;
    for a := 0 to 9
      invariant sudoku[..] == Sources(before, group, a)
      invariant removed == Total(before) - Total(sudoku[..])
    {
      var cell := group[a];
      if |sudoku[Index(cell)]| == 1 {
        var r := EliminateFrom(sudoku, group, cell);
        removed := removed + r;
      }
    }
  }

  /** simple_elimination: removes the singletons' digits from their houses in
      place and returns the number of removals. */
  method SimpleElimination(sudoku: array<Cands>) returns (count: int)
    requires sudoku.Length == 81
    modifies sudoku
    ensures sudoku[..] == SimplePass(old(sudoku[..]))
    ensures count == Total(old(sudoku[..])) - Total(sudoku[..])
  {
    ghost var g0 := sudoku[..];
    AllHousesAreHouses();
    count := 0;
    var houses := AllHouses();
    for n := 0 to 27
      invariant sudoku[..] == HousesUpTo(g0, n)
      invariant count == Total(g0) - Total(sudoku[..])
    {
      var r := EliminateHouse(sudoku, houses[n]);
      count := count + r;
    }
  }

  // ---------------------------------------------------------------------
  // what a pass removes

  /** The pass only removes candidates: no list grows, every digit left was
      there before, and an ascending list of digits stays one. */
  lemma SimplePassShrinks(g: Grid)
    requires |g| == 81
    ensures Shrunk(g, SimplePass(g)) && NoLonger(g, SimplePass(g))
    ensures Total(SimplePass(g)) <= Total(g)
    ensures WellFormed(g) ==> WellFormed(SimplePass(g))
  {
    if WellFormed(g) { HousesUpToWellFormed(g, 27); }
  }

  lemma {:induction false} TargetsWellFormed(g: Grid, h: House, src: Cell, m: nat)
    requires WellFormed(g) && IsHouse(h) && InRange(src) && |At(g, src)| == 1 && m <= 9
    ensures WellFormed(Targets(g, h, src, m))
  {
    if m > 0 {
      TargetsWellFormed(g, h, src, m - 1);
      var g' := Targets(g, h, src, m - 1);
      var t := h[m - 1];
      var x := At(g', src)[0];
      if x in At(g', t) && t != src {
        RemoveFirstFacts(At(g', t), x);
      }
    }
  }

  lemma {:induction false} SourcesWellFormed(g: Grid, h: House, m: nat)
    requires WellFormed(g) && IsHouse(h) && m <= 9
    ensures WellFormed(Sources(g, h, m))
  {
    if m > 0 {
      SourcesWellFormed(g, h, m - 1);
      var g' := Sources(g, h, m - 1);
      if |At(g', h[m - 1])| == 1 { TargetsWellFormed(g', h, h[m - 1], 9); }
    }
  }

  lemma {:induction false} HousesUpToWellFormed(g: Grid, n: nat)
    requires WellFormed(g) && n <= 27
    ensures WellFormed(HousesUpTo(g, n))
  {
    AllHousesAreHouses();
    if n > 0 {
      HousesUpToWellFormed(g, n - 1);
      SourcesWellFormed(HousesUpTo(g, n - 1), AllHouses()[n - 1], 9);
    }
  }

  /** On a well-formed grid, a pass that removes nothing leaves the grid as
      it was. */
  lemma SimplePassNoRemoval(g: Grid)
    requires WellFormed(g)
    requires Total(SimplePass(g)) == Total(g)
    ensures SimplePass(g) == g
  {
    SimplePassShrinks(g);
    ShrunkSameTotal(g, SimplePass(g));
  }

  /** `l` holds nothing but d (it is [d] or empty). */
  predicate Within(l: Cands, d: int) {
    forall e :: e in l ==> e == d
  }

  /** Every digit d that a cell lost between g0 and g was taken away because
      of a peer that held d in g0 and now holds nothing but d. */
  ghost predicate Justified(g0: Grid, g: Grid)
    requires |g0| == 81 && |g| == 81
  {
    forall k, d :: 0 <= k < 81 && d in g0[k] && d !in g[k] ==>
      exists s :: 0 <= s < 81 && Peers(CellAt(k), CellAt(s)) && d in g0[s] && Within(g[s], d)
  }

  lemma JustifiedExtend(g0: Grid, g: Grid, g': Grid)
    requires |g0| == 81 && Drawn(g0, g) && Drawn(g, g') && Justified(g0, g)
    requires forall k, d :: 0 <= k < 81 && d in g[k] && d !in g'[k] ==>
      exists s :: 0 <= s < 81 && Peers(CellAt(k), CellAt(s)) && d in g0[s] && Within(g'[s], d)
    ensures Justified(g0, g')
  {
    forall k, d | 0 <= k < 81 && d in g0[k] && d !in g'[k]
      ensures exists s :: 0 <= s < 81 && Peers(CellAt(k), CellAt(s)) && d in g0[s] && Within(g'[s], d)
    {
      if d !in g[k] {
        var s :| 0 <= s < 81 && Peers(CellAt(k), CellAt(s)) && d in g0[s] && Within(g[s], d);
        assert Within(g'[s], d);
      }
    }
  }

  /** One `remove` of x from t, caused by the singleton peer src. */
  lemma RemovalJustified(g0: Grid, g: Grid, t: Cell, src: Cell, x: int)
    requires |g0| == 81 && Drawn(g0, g)
    requires Peers(t, src) && At(g, src) == [x] && x in At(g, t)
    ensures var r := g[Index(t) := RemoveFirst(At(g, t), x)];
      Drawn(g, r) &&
      forall k, d :: 0 <= k < 81 && d in g[k] && d !in r[k] ==>
        exists s :: 0 <= s < 81 && Peers(CellAt(k), CellAt(s)) && d in g0[s] && Within(r[s], d)
  {
    var r := g[Index(t) := RemoveFirst(At(g, t), x)];
    RemoveFirstFacts(At(g, t), x);
    var s := Index(src);
    assert CellAt(Index(t)) == t by { IndexInjective(t, CellAt(Index(t))); }
    assert CellAt(s) == src by { IndexInjective(src, CellAt(s)); }
    assert s != Index(t);
    assert r[s] == [x] && x in g0[s];
    forall k, d | 0 <= k < 81 && d in g[k] && d !in r[k]
      ensures exists s :: 0 <= s < 81 && Peers(CellAt(k), CellAt(s)) && d in g0[s] && Within(r[s], d)
    {
      assert k == Index(t) && d == x;
      assert Within(r[s], d);
    }
  }

  lemma {:induction false} TargetsJustified(g0: Grid, g: Grid, n: int, src: Cell, m: nat)
    requires |g0| == 81 && |g| == 81 && 0 <= n < 27 && m <= 9
    requires IsHouse(AllHouses()[n]) && src in AllHouses()[n] && InRange(src)
    requires |At(g, src)| == 1 && Drawn(g0, g) && Justified(g0, g)
    ensures Justified(g0, Targets(g, AllHouses()[n], src, m))
  {
    var h := AllHouses()[n];
    if m > 0 {
      TargetsJustified(g0, g, n, src, m - 1);
      var g' := Targets(g, h, src, m - 1);
      var t := h[m - 1];
      var x := At(g', src)[0];
      if x in At(g', t) && t != src {
        assert At(g', src) == [x];
        SharedHouse(t, src);
        RemovalJustified(g0, g', t, src, x);
        JustifiedExtend(g0, g', Targets(g, h, src, m));
      }
    }
  }

  lemma {:induction false} SourcesJustified(g0: Grid, g: Grid, n: int, m: nat)
    requires |g0| == 81 && |g| == 81 && 0 <= n < 27 && m <= 9
    requires IsHouse(AllHouses()[n])
    requires Drawn(g0, g) && Justified(g0, g)
    ensures Justified(g0, Sources(g, AllHouses()[n], m))
  {
    if m > 0 {
      var h := AllHouses()[n];
      SourcesJustified(g0, g, n, m - 1);
      var g' := Sources(g, h, m - 1);
      var src := h[m - 1];
      if |At(g', src)| == 1 {
        TargetsJustified(g0, g', n, src, 9);
      }
    }
  }

  lemma {:induction false} HousesUpToJustified(g: Grid, n: nat)
    requires |g| == 81 && n <= 27
    ensures Justified(g, HousesUpTo(g, n))
  {
    AllHousesAreHouses();
    if n > 0 {
      HousesUpToJustified(g, n - 1);
      SourcesJustified(g, HousesUpTo(g, n - 1), n - 1, 9);
    }
  }

  /** Each digit the pass removes from a cell was held at the start by a
      peer of that cell (never the cell itself), and that peer ends the pass
      holding nothing but that digit, or nothing at all; `SimplePassTrace`
      states the moment of each removal. */
  lemma SimplePassJustified(g: Grid)
    requires |g| == 81
    ensures Justified(g, SimplePass(g))
  {
    HousesUpToJustified(g, 27);
  }

  // ---------------------------------------------------------------------
  // the pass as the sequence of its `remove` calls

  /** One `list.remove` of the pass: `target` loses the digit that its peer
      `source` holds alone at that moment. */
  datatype Removal = Removal(target: Cell, source: Cell)

  predicate RemovalStep(g: Grid, g': Grid, e: Removal)
    requires |g| == 81
  {
    Peers(e.target, e.source) && |At(g, e.source)| == 1 &&
    At(g, e.source)[0] in At(g, e.target) &&
    g' == g[Index(e.target) := RemoveFirst(At(g, e.target), At(g, e.source)[0])]
  }

  /** gs[0], ..., gs[|log|] are the grids before, between and after the
      removals of log, in the order they happen. */
  predicate Replays(gs: seq<Grid>, log: seq<Removal>) {
    |gs| == |log| + 1 && (forall i :: 0 <= i < |gs| ==> |gs[i]| == 81) &&
    forall i :: 0 <= i < |log| ==> RemovalStep(gs[i], gs[i + 1], log[i])
  }

  lemma ReplaysAppend(gs1: seq<Grid>, log1: seq<Removal>, gs2: seq<Grid>, log2: seq<Removal>)
    requires Replays(gs1, log1) && Replays(gs2, log2) && gs1[|log1|] == gs2[0]
    ensures Replays(gs1 + gs2[1..], log1 + log2)
    ensures (gs1 + gs2[1..])[0] == gs1[0]
    ensures (gs1 + gs2[1..])[|log1 + log2|] == gs2[|log2|]
  {
    var gs, log := gs1 + gs2[1..], log1 + log2;
    assert forall i :: 0 <= i < |gs1| ==> gs[i] == gs1[i];
    assert forall i :: |gs1| <= i < |gs| ==> gs[i] == gs2[i - |log1|];
    forall i | 0 <= i < |log| ensures RemovalStep(gs[i], gs[i + 1], log[i]) {
      if i < |log1| {
        assert gs[i] == gs1[i] && gs[i + 1] == gs1[i + 1] && log[i] == log1[i];
      } else {
        var j := i - |log1|;
        assert gs[i] == gs2[j] && gs[i + 1] == gs2[j + 1] && log[i] == log2[j];
      }
    }
  }

  /** Each removal takes exactly one candidate away. */
  lemma {:induction false} ReplaysTotal(gs: seq<Grid>, log: seq<Removal>)
    requires Replays(gs, log)
    ensures Total(gs[|log|]) == Total(gs[0]) - |log|
  {
    if log != [] {
      var n := |log| - 1;
      var gs', log' := gs[..n + 1], log[..n];
      forall i | 0 <= i < |log'| ensures RemovalStep(gs'[i], gs'[i + 1], log'[i]) {
        assert gs'[i] == gs[i] && gs'[i + 1] == gs[i + 1] && log'[i] == log[i];
      }
      ReplaysTotal(gs', log');
      var e := log[n];
      assert RemovalStep(gs[n], gs[n + 1], e);
      TotalUpdate(gs[n], Index(e.target), RemoveFirst(At(gs[n], e.target), At(gs[n], e.source)[0]));
    }
  }

  lemma {:induction false} TargetsTrace(g: Grid, n: int, src: Cell, m: nat)
    returns (gs: seq<Grid>, log: seq<Removal>)
    requires |g| == 81 && 0 <= n < 27 && m <= 9
    requires IsHouse(AllHouses()[n]) && src in AllHouses()[n] && InRange(src)
    requires |At(g, src)| == 1
    ensures Replays(gs, log) && gs[0] == g && gs[|log|] == Targets(g, AllHouses()[n], src, m)
  {
    var h := AllHouses()[n];
    if m == 0 {
      gs, log := [g], [];
    } else {
      gs, log := TargetsTrace(g, n, src, m - 1);
      var g' := Targets(g, h, src, m - 1);
      var t := h[m - 1];
      var x := At(g', src)[0];
      if x in At(g', t) && t != src {
        SharedHouse(t, src);
        var e := Removal(t, src);
        var r := g'[Index(t) := RemoveFirst(At(g', t), x)];
        assert RemovalStep(g', r, e);
        ReplaysAppend(gs, log, [g', r], [e]);
        gs, log := gs + [r], log + [e];
      }
    }
  }

  lemma {:induction false} SourcesTrace(g: Grid, n: int, m: nat)
    returns (gs: seq<Grid>, log: seq<Removal>)
    requires |g| == 81 && 0 <= n < 27 && m <= 9
    requires IsHouse(AllHouses()[n])
    ensures Replays(gs, log) && gs[0] == g && gs[|log|] == Sources(g, AllHouses()[n], m)
  {
    var h := AllHouses()[n];
    if m == 0 {
      gs, log := [g], [];
    } else {
      gs, log := SourcesTrace(g, n, m - 1);
      var g' := Sources(g, h, m - 1);
      var src := h[m - 1];
      if |At(g', src)| == 1 {
        var gs2, log2 := TargetsTrace(g', n, src, 9);
        ReplaysAppend(gs, log, gs2, log2);
        gs, log := gs + gs2[1..], log + log2;
      }
    }
  }

  lemma {:induction false} HousesUpToTrace(g: Grid, n: nat)
    returns (gs: seq<Grid>, log: seq<Removal>)
    requires |g| == 81 && n <= 27
    ensures Replays(gs, log) && gs[0] == g && gs[|log|] == HousesUpTo(g, n)
  {
    AllHousesAreHouses();
    if n == 0 {
      gs, log := [g], [];
    } else {
      gs, log := HousesUpToTrace(g, n - 1);
      var gs2, log2 := SourcesTrace(HousesUpTo(g, n - 1), n - 1, 9);
      ReplaysAppend(gs, log, gs2, log2);
      gs, log := gs + gs2[1..], log + log2;
    }
  }

  /** A pass is a sequence of `remove` calls, each taking from a cell the
      digit that a peer (never the cell itself) holds alone at that moment;
      their number is the number of candidates the pass removes. */
  lemma SimplePassTrace(g: Grid) returns (gs: seq<Grid>, log: seq<Removal>)
    requires |g| == 81
    ensures Replays(gs, log) && gs[0] == g && gs[|log|] == SimplePass(g)
    ensures |log| == Total(g) - Total(SimplePass(g))
  {
    gs, log := HousesUpToTrace(g, 27);
    ReplaysTotal(gs, log);
  }

  // ---------------------------------------------------------------------
  // soundness

  /** Removing the digit of a singleton from one of its peers keeps every
      valid completion the grid allowed. */
  lemma RemovalSound(g: Grid, t: Cell, src: Cell, sol: seq<int>)
    requires |g| == 81 && Peers(t, src) && |At(g, src)| == 1 && At(g, src)[0] in At(g, t)
    requires ValidFill(sol) && Admits(g, sol)
    ensures Admits(g[Index(t) := RemoveFirst(At(g, t), At(g, src)[0])], sol)
  {
    var x := At(g, src)[0];
    RemoveFirstFacts(At(g, t), x);
    assert CellAt(Index(t)) == t by { IndexInjective(t, CellAt(Index(t))); }
    assert CellAt(Index(src)) == src by { IndexInjective(src, CellAt(Index(src))); }
    assert sol[Index(src)] == x;
    assert sol[Index(t)] != x;
  }

  lemma {:induction false} TargetsSound(g: Grid, n: int, src: Cell, m: nat, sol: seq<int>)
    requires |g| == 81 && 0 <= n < 27 && m <= 9
    requires IsHouse(AllHouses()[n]) && src in AllHouses()[n] && InRange(src)
    requires |At(g, src)| == 1 && ValidFill(sol) && Admits(g, sol)
    ensures Admits(Targets(g, AllHouses()[n], src, m), sol)
  {
    var h := AllHouses()[n];
    if m > 0 {
      TargetsSound(g, n, src, m - 1, sol);
      var g' := Targets(g, h, src, m - 1);
      var t := h[m - 1];
      var x := At(g', src)[0];
      if x in At(g', t) && t != src {
        assert t in h;
        SharedHouse(t, src);
        RemovalSound(g', t, src, sol);
      }
    }
  }

  lemma {:induction false} SourcesSound(g: Grid, n: int, m: nat, sol: seq<int>)
    requires |g| == 81 && 0 <= n < 27 && m <= 9
    requires IsHouse(AllHouses()[n])
    requires ValidFill(sol) && Admits(g, sol)
    ensures Admits(Sources(g, AllHouses()[n], m), sol)
  {
    if m > 0 {
      var h := AllHouses()[n];
      SourcesSound(g, n, m - 1, sol);
      var g' := Sources(g, h, m - 1);
      if |At(g', h[m - 1])| == 1 {
        TargetsSound(g', n, h[m - 1], 9, sol);
      }
    }
  }

  lemma {:induction false} HousesUpToSound(g: Grid, n: nat, sol: seq<int>)
    requires |g| == 81 && n <= 27
    requires ValidFill(sol) && Admits(g, sol)
    ensures Admits(HousesUpTo(g, n), sol)
  {
    AllHousesAreHouses();
    if n > 0 {
      HousesUpToSound(g, n - 1, sol);
      SourcesSound(HousesUpTo(g, n - 1), n - 1, 9, sol);
    }
  }

  /** Soundness: a pass never removes the digit a valid completion puts in a
      cell, as long as the grid allowed that completion. */
  lemma SimplePassSound(g: Grid, sol: seq<int>)
    requires |g| == 81 && ValidFill(sol) && Admits(g, sol)
    ensures Admits(SimplePass(g), sol)
  {
    HousesUpToSound(g, 27, sol);
  }
}
