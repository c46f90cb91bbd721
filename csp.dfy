/** Subset elimination ("CSP"): for one house, enumerate every way of
    picking one candidate per cell, keep the picks with no repeated digit,
    and keep at each position exactly the digits some such pick uses there.
    `csp` applies this to the 27 houses in turn and writes back the cells
    that changed. */
module CspElimination {
  import opened Basics
  import opened Houses
  import opened Board
  import opened Elimination

  /** One candidate picked per position. */
  predicate Choice(inp: seq<Cands>, p: seq<int>) {
    |p| == |inp| && forall j :: 0 <= j < |inp| ==> p[j] in inp[j]
  }

  /** A pick that could fill the house: no digit twice. */
  predicate Assignment(inp: seq<Cands>, p: seq<int>) {
    Choice(inp, p) && Distinct(p)
  }

  // ---------------------------------------------------------------------
  // enumeration: append_permutations

  /** What `append_permutations(sofar)` appends, from the m-th candidate of
      the next position on: complete picks in lexicographic order of
      candidate positions. */
  function ExtensionsFrom(inp: seq<Cands>, sofar: seq<int>, m: nat): (r: seq<seq<int>>)
    requires |sofar| < |inp| && m <= |inp[|sofar|]|
    decreases |inp| - |sofar|, |inp[|sofar|]| - m
  {
    if m == |inp[|sofar|]| then []
    else
      var n := inp[|sofar|][m];
      (if |sofar| == |inp| - 1 then [sofar + [n]] else ExtensionsFrom(inp, sofar + [n], 0))
      + ExtensionsFrom(inp, sofar, m + 1)
  }

  /** Every pick of one candidate per position, as the recursion lists them. */
  function Product(inp: seq<Cands>): seq<seq<int>>
    requires |inp| >= 1
  {
    ExtensionsFrom(inp, [], 0)
  }

  /** The picks that start with `sofar` and complete every later position
      with one of its candidates. */
  predicate Completes(inp: seq<Cands>, sofar: seq<int>, p: seq<int>)
    requires |sofar| <= |inp|
  {
    |p| == |inp| && p[..|sofar|] == sofar &&
    forall j :: |sofar| <= j < |inp| ==> p[j] in inp[j]
  }

  /** The extensions are exactly the picks that start with `sofar` and take
      the next position's candidate from index m on. */
  lemma {:induction false} ExtensionsFromMembers(inp: seq<Cands>, sofar: seq<int>, m: nat, p: seq<int>)
    requires |sofar| < |inp| && m <= |inp[|sofar|]|
    decreases |inp| - |sofar|, |inp[|sofar|]| - m
    ensures p in ExtensionsFrom(inp, sofar, m) <==>
      Completes(inp, sofar, p) && p[|sofar|] in inp[|sofar|][m..]
  {
    var i := |sofar|;
    if m < |inp[i]| {
      var n := inp[i][m];
      ExtensionsFromMembers(inp, sofar, m + 1, p);
      assert inp[i][m..] == [n] + inp[i][m + 1..];
      FirstMembers(inp, sofar, n, p);
    }
  }

  /** The part appended for the m-th candidate n: the picks that start with
      `sofar + [n]`. */
  lemma {:induction false} FirstMembers(inp: seq<Cands>, sofar: seq<int>, n: int, p: seq<int>)
    requires |sofar| < |inp| && n in inp[|sofar|]
    decreases |inp| - |sofar|, 0
    ensures p in (if |sofar| == |inp| - 1 then [sofar + [n]] else ExtensionsFrom(inp, sofar + [n], 0)) <==>
      Completes(inp, sofar, p) && p[|sofar|] == n
  {
    var i := |sofar|;
    if |p| == |inp| && p[..i] == sofar && p[i] == n {
      assert p[..i + 1] == sofar + [n];
    }
    if |p| == |inp| && p[..i + 1] == sofar + [n] {
      assert p[..i] == (sofar + [n])[..i];
    }
    if i == |inp| - 1 {
      if Completes(inp, sofar, p) && p[i] == n {
        assert p == p[..i + 1];
      }
    } else {
      ExtensionsFromMembers(inp, sofar + [n], 0, p);
      assert inp[i + 1][0..] == inp[i + 1];
    }
  }

  /** The enumeration lists exactly the picks of one candidate per position. */
  lemma ProductMembers(inp: seq<Cands>, p: seq<int>)
    requires |inp| >= 1
    ensures p in Product(inp) <==> Choice(inp, p)
  {
    ExtensionsFromMembers(inp, [], 0, p);
    assert inp[0][0..] == inp[0];
    if |p| == |inp| { assert p[..0] == []; }
    assert Choice(inp, p) ==> Completes(inp, [], p);
  }

  // ---------------------------------------------------------------------
  // filtering and collecting

  /** The picks without a repeated digit, in their original order. */
  function KeepDistinct(perm: seq<seq<int>>): (r: seq<seq<int>>)
    ensures forall p :: p in r <==> p in perm && Distinct(p)
  {
    if perm == [] then []
    else (if Distinct(perm[0]) then [perm[0]] else []) + KeepDistinct(perm[1..])
  }

  /** Whether some pick puts digit n at position i. */
  predicate Occurs(perm: seq<seq<int>>, i: int, n: int) {
    exists p :: p in perm && 0 <= i < |p| && p[i] == n
  }

  /** The digits below n, ascending, that some pick puts at position i. */
  function OccurringBelow(perm: seq<seq<int>>, i: int, n: nat): (r: Cands)
  {
    if n == 0 then []
    else OccurringBelow(perm, i, n - 1) + (if Occurs(perm, i, n - 1) then [n - 1] else [])
  }

  /** The collected list is ascending and holds exactly the digits below n
      found at position i. */
  lemma {:induction false} OccurringBelowMembers(perm: seq<seq<int>>, i: int, n: nat)
    ensures StrictlyAscending(OccurringBelow(perm, i, n))
    ensures forall d :: d in OccurringBelow(perm, i, n) <==> 0 <= d < n && Occurs(perm, i, d)
  {
    if n > 0 {
      var r := OccurringBelow(perm, i, n - 1);
      OccurringBelowMembers(perm, i, n - 1);
      assert forall a :: 0 <= a < |r| ==> r[a] in r;
    }
  }

  /** csp_list: per position, the digits 0 to 9 that a pick with no repeated
      digit uses there, ascending. */
  function CspRefine(inp: seq<Cands>): (out: seq<Cands>)
    requires |inp| >= 1
    ensures |out| == |inp|
  {
    var perm := KeepDistinct(Product(inp));
    seq(|inp|, i => OccurringBelow(perm, i, 10))
  }

  // ---------------------------------------------------------------------
  // what csp_list returns

  /** d survives at position i exactly when it is a digit 0 to 9 that some
      assignment of the house places there: every digit of such an
      assignment is kept, and nothing else is. */
  lemma CspRefineMembers(inp: seq<Cands>, i: int, d: int)
    requires |inp| >= 1 && 0 <= i < |inp|
    ensures d in CspRefine(inp)[i] <==>
      0 <= d <= 9 && exists p :: Assignment(inp, p) && p[i] == d
  {
    var perm := KeepDistinct(Product(inp));
    assert CspRefine(inp)[i] == OccurringBelow(perm, i, 10);
    OccurringBelowMembers(perm, i, 10);
    if Occurs(perm, i, d) {
      var p :| p in perm && 0 <= i < |p| && p[i] == d;
      ProductMembers(inp, p);
      assert Assignment(inp, p);
    }
    if exists p :: Assignment(inp, p) && p[i] == d {
      var p :| Assignment(inp, p) && p[i] == d;
      ProductMembers(inp, p);
      assert p in perm;
    }
  }

  /** Each output list is ascending, duplicate-free and drawn from the input
      list at the same position. */
  lemma CspRefineShrinks(inp: seq<Cands>)
    requires |inp| >= 1
    ensures forall i :: 0 <= i < |inp| ==> StrictlyAscending(CspRefine(inp)[i])
    ensures forall i, d :: 0 <= i < |inp| && d in CspRefine(inp)[i] ==> d in inp[i]
    ensures forall i :: 0 <= i < |inp| ==> |CspRefine(inp)[i]| <= |inp[i]|
  {
    forall i, d | 0 <= i < |inp| && d in CspRefine(inp)[i] ensures d in inp[i] {
      CspRefineMembers(inp, i, d);
    }
    forall i | 0 <= i < |inp| ensures StrictlyAscending(CspRefine(inp)[i]) {
      OccurringBelowMembers(KeepDistinct(Product(inp)), i, 10);
    }
    forall i | 0 <= i < |inp| ensures |CspRefine(inp)[i]| <= |inp[i]| {
      AscendingIsDistinct(CspRefine(inp)[i]);
      DistinctSubsetShorter(CspRefine(inp)[i], inp[i]);
    }
  }

  /** With no assignment at all (for instance when some input list is empty)
      every output list is empty. */
  lemma CspRefineNoAssignment(inp: seq<Cands>)
    requires |inp| >= 1
    requires forall p :: !Assignment(inp, p)
    ensures forall i :: 0 <= i < |inp| ==> CspRefine(inp)[i] == []
  {
    forall i | 0 <= i < |inp| ensures CspRefine(inp)[i] == [] {
      if CspRefine(inp)[i] != [] {
        CspRefineMembers(inp, i, CspRefine(inp)[i][0]);
      }
    }
  }

  lemma EmptyInputNoAssignment(inp: seq<Cands>, j: int)
    requires 0 <= j < |inp| && inp[j] == []
    ensures forall p :: !Assignment(inp, p)
  {
  }

  /** When exactly one assignment of digits fills the house, every position
      is reduced to the single digit that assignment puts there. */
  lemma CspRefineUnique(inp: seq<Cands>, p: seq<int>)
    requires |inp| >= 1 && Assignment(inp, p)
    requires forall j :: 0 <= j < |p| ==> 0 <= p[j] <= 9
    requires forall q :: Assignment(inp, q) ==> q == p
    ensures forall i :: 0 <= i < |inp| ==> CspRefine(inp)[i] == [p[i]]
  {
    forall i | 0 <= i < |inp| ensures CspRefine(inp)[i] == [p[i]] {
      var o := CspRefine(inp)[i];
      forall d ensures d in o <==> d == p[i] {
        CspRefineMembers(inp, i, d);
      }
      CspRefineShrinks(inp);
      AscendingSingleton(o, p[i]);
    }
  }

  /** An ascending list whose only element value is x is [x]. */
  lemma AscendingSingleton(o: Cands, x: int)
    requires StrictlyAscending(o)
    requires forall d :: d in o <==> d == x
    ensures o == [x]
  {
    assert x in o;
    assert o[0] in o && o[|o| - 1] in o;
  }

  // ---------------------------------------------------------------------
  // the imperative csp_list

  /** append_permutations: appends the extensions of `sofar` to `perm`. */
  method AppendPermutations(inp: seq<Cands>, sofar: seq<int>, perm: seq<seq<int>>) returns (res: seq<seq<int>>)
    requires |sofar| < |inp|
    ensures res == perm + ExtensionsFrom(inp, sofar, 0)
    decreases |inp| - |sofar|
  {
    res := perm;
    var cands := inp[|sofar|];
    for m := 0 to |cands|
      invariant res + ExtensionsFrom(inp, sofar, m) == perm + ExtensionsFrom(inp, sofar, 0)
    {
      var n := cands[m];
      ghost var rest := ExtensionsFrom(inp, sofar, m + 1);
      if |sofar| == |inp| - 1 {
        assert res + ExtensionsFrom(inp, sofar, m) == (res + [sofar + [n]]) + rest;
        res := res + [sofar + [n]];
      } else {
        ghost var before := res;
        res := AppendPermutations(inp, sofar + [n], res);
        assert before + ExtensionsFrom(inp, sofar, m)
            == before + (ExtensionsFrom(inp, sofar + [n], 0) + rest);
      }
    }
  }

  lemma KeepDistinctStep(all: seq<seq<int>>, i: int)
    requires 0 <= i < |all|
    ensures KeepDistinct(all[i..]) ==
      (if Distinct(all[i]) then [all[i]] else []) + KeepDistinct(all[i + 1..])
  {
    assert all[i..][0] == all[i] && all[i..][1..] == all[i + 1..];
  }

  /** One step of the backward loop: keeping pick i, or deleting it when it
      repeats a digit, extends the filtered tail by that pick. */
  lemma DropStep(all: seq<seq<int>>, i: int, perm: seq<seq<int>>)
    requires 0 <= i < |all| && perm == all[..i + 1] + KeepDistinct(all[i + 1..])
    ensures i < |perm| && perm[i] == all[i]
    ensures Distinct(all[i]) ==> perm == all[..i] + KeepDistinct(all[i..])
    ensures !Distinct(all[i]) ==> perm[..i] + perm[i + 1..] == all[..i] + KeepDistinct(all[i..])
  {
    KeepDistinctStep(all, i);
    assert all[..i + 1] == all[..i] + [all[i]];
    assert perm[..i] == all[..i] && perm[i + 1..] == KeepDistinct(all[i + 1..]);
  }

  /** Scanning one more pick finds n at position i when that pick has it. */
  lemma OccursStep(perm: seq<seq<int>>, k: int, i: int, n: int)
    requires 0 <= k < |perm|
    ensures Occurs(perm[..k + 1], i, n) <==>
      Occurs(perm[..k], i, n) || (0 <= i < |perm[k]| && perm[k][i] == n)
  {
    assert perm[..k + 1] == perm[..k] + [perm[k]];
    if Occurs(perm[..k + 1], i, n) {
      var p :| p in perm[..k + 1] && 0 <= i < |p| && p[i] == n;
      if p != perm[k] { assert p in perm[..k]; }
    }
    if Occurs(perm[..k], i, n) {
      var p :| p in perm[..k] && 0 <= i < |p| && p[i] == n;
      assert p in perm[..k + 1];
    }
    if 0 <= i < |perm[k]| && perm[k][i] == n {
      assert perm[k] in perm[..k + 1];
    }
  }

  /** The backward filtering loop of csp_list: deletes, from the last pick
      to the first, every pick whose digit set is smaller than the pick. */
  method DropRepeats(all: seq<seq<int>>) returns (perm: seq<seq<int>>)
    ensures perm == KeepDistinct(all)
  {
    perm := all;
    var i := |perm|;
    while i > 0
      invariant 0 <= i <= |all|
      invariant perm == all[..i] + KeepDistinct(all[i..])
    {
      i := i - 1;
      DropStep(all, i, perm);
      DistinctIffSetSize(perm[i]);
      if |Elements(perm[i])| != |perm[i]| {
        perm := perm[..i] + perm[i + 1..];
      }
    }
    assert all[0..] == all;
  }

  /** The collecting loops of csp_list for one position: for each digit 0 to
      9 in turn, scan the picks and append the digit once it is seen. */
  method CollectPosition(perm: seq<seq<int>>, pos: nat) returns (found: Cands)
    requires forall p :: p in perm ==> |p| > pos
    ensures found == OccurringBelow(perm, pos, 10)
  {
    found := [];
    for n := 0 to 10
      invariant found == OccurringBelow(perm, pos, n)
    {
      for k := 0 to |perm|
        invariant found == OccurringBelow(perm, pos, n) + (if Occurs(perm[..k], pos, n) then [n] else [])
      {
        OccursStep(perm, k, pos, n);
        OccurringBelowMembers(perm, pos, n);
        assert perm[k] in perm;
        if perm[k][pos] == n && n !in found {
          found := found + [n];
        }
      }
      assert perm[..|perm|] == perm;
      assert perm[..0] == [] && !Occurs(perm[..0], pos, n);
    }
  }

  /** Every surviving pick has one entry per position. */
  lemma PicksComplete(inp: seq<Cands>)
    requires |inp| >= 1
    ensures forall p :: p in KeepDistinct(Product(inp)) ==> |p| == |inp|
  {
    forall p | p in KeepDistinct(Product(inp)) ensures |p| == |inp| {
      ProductMembers(inp, p);
    }
  }

  /** The collecting loop of csp_list: one list per position, the digits the
      surviving picks put there. */
  method CollectAll(perm: seq<seq<int>>, len: nat) returns (out: seq<Cands>)
    requires forall p :: p in perm ==> |p| == len
    ensures |out| == len
    ensures forall q :: 0 <= q < len ==> out[q] == OccurringBelow(perm, q, 10)
  {
    out := [];
    for pos := 0 to len
      invariant |out| == pos
      invariant forall q :: 0 <= q < pos ==> out[q] == OccurringBelow(perm, q, 10)
    {
      var found := CollectPosition(perm, pos);
      out := out + [found];
    }
  }

  /** csp_list, as written: enumerate, drop the picks with a repeated digit
      walking backwards, then collect the surviving digits per position. */
  method CspList(inp: seq<Cands>) returns (out: seq<Cands>)
    requires |inp| >= 1
    ensures out == CspRefine(inp)
  {
    var all := AppendPermutations(inp, [], []);
    assert all == Product(inp);
    var perm := DropRepeats(all);
    PicksComplete(inp);
    out := CollectAll(perm, |inp|);
    assert forall q :: 0 <= q < |inp| ==> out[q] == CspRefine(inp)[q];
  }

  // ---------------------------------------------------------------------
  // the grid pass: csp

  /** The candidate lists of the cells of house h, in the house's order. */
  function HouseLists(g: Grid, h: House): (house: seq<Cands>)
    requires |g| == 81 && IsHouse(h)
  {
    seq(9, a requires 0 <= a < 9 => At(g, h[a]))
  }

  /** The write-back loop over the first m cells of the house: a cell is
      rewritten when its list differs from the refined one. */
  function WriteBack(g: Grid, h: House, refined: seq<Cands>, m: nat): (r: Grid)
    requires |g| == 81 && IsHouse(h) && |refined| == 9 && m <= 9
    ensures |r| == 81
  {
    if m == 0 then g
    else
      var g' := WriteBack(g, h, refined, m - 1);
      if At(g', h[m - 1]) != refined[m - 1] then g'[Index(h[m - 1]) := refined[m - 1]] else g'
  }

  /** One iteration of the loop over houses: refine the house and write it
      back when the refined lists differ from the house's lists. */
  function RefineHouse(g: Grid, h: House): (r: Grid)
    requires |g| == 81 && IsHouse(h)
    ensures |r| == 81
  {
    var house := HouseLists(g, h);
    var refined := CspRefine(house);
    if refined != house then WriteBack(g, h, refined, 9) else g
  }

  /** The first n houses of the table, refined in order. */
  function CspHousesUpTo(g: Grid, n: nat): (r: Grid)
    requires |g| == 81 && n <= 27
    ensures |r| == 81
  {
    if n == 0 then g
    else
      AllHousesAreHouses();
      RefineHouse(CspHousesUpTo(g, n - 1), AllHouses()[n - 1])
  }

  /** One full csp pass over the 27 houses. */
  function CspPass(g: Grid): (r: Grid)
    requires |g| == 81
    ensures |r| == 81
  {
    CspHousesUpTo(g, 27)
  }

  /** The body of csp's loop for one house: collect its lists, refine them
      and write back the cells that changed, counting removed candidates. */
  method CspHouse(s: array<Cands>, group: House) returns (removed: int)
    requires s.Length == 81 && IsHouse(group)
    modifies s
    ensures s[..] == RefineHouse(old(s[..]), group)
    ensures removed == Total(old(s[..])) - Total(s[..])
  {
    var house := ReadHouse(s, group);
    var houseCsp := CspList(house);
    removed := 0;
    if houseCsp != house {
      removed := WriteHouse(s, group, houseCsp);
    }
  }

  /** The lists of the cells of the group, in the group's order. */
  method ReadHouse(s: array<Cands>, group: House) returns (house: seq<Cands>)
    requires s.Length == 81 && IsHouse(group)
    ensures house == HouseLists(s[..], group)
  {
    ghost var g := s[..];
    house := [];
    for a := 0 to 9
      invariant house == seq(a, b requires 0 <= b < a => At(g, group[b]))
    {
      house := house + [s[Index(group[a])]];
    }
    assert house == HouseLists(g, group);
  }

  /** The write-back loop: every cell of the group whose list differs from
      the refined one gets the refined list. */
  method WriteHouse(s: array<Cands>, group: House, houseCsp: seq<Cands>) returns (removed: int)
    requires s.Length == 81 && IsHouse(group) && |houseCsp| == 9
    modifies s
    ensures s[..] == WriteBack(old(s[..]), group, houseCsp, 9)
    ensures removed == Total(old(s[..])) - Total(s[..])
  {
    ghost var before := s[..];
    removed := 0;
    for i := 0 to 9
      invariant s[..] == WriteBack(before, group, houseCsp, i)
      invariant removed == Total(before) - Total(s[..])
    {
      var cell := group[i];
      if s[Index(cell)] != houseCsp[i] {
        ghost var cur := s[..];
        removed := removed + |s[Index(cell)]| - |houseCsp[i]|;
        s[Index(cell)] := houseCsp[i];
        TotalUpdate(cur, Index(cell), houseCsp[i]);
      }
    }
  }

  /** csp: refines every house in turn, writes back the cells whose list
      changed and returns the number of candidates removed. */
  method Csp(s: array<Cands>) returns (count: int)
    requires s.Length == 81
    modifies s
    ensures s[..] == CspPass(old(s[..]))
    ensures count == Total(old(s[..])) - Total(s[..])
  {
    ghost var g0 := s[..];
    AllHousesAreHouses();
    count := 0;
    var houses := AllHouses();
    for n := 0 to 27
      invariant s[..] == CspHousesUpTo(g0, n)
      invariant count == Total(g0) - Total(s[..])
    {
      var removed := CspHouse(s, houses[n]);
      count := count + removed;
    }
  }

  // ---------------------------------------------------------------------
  // what a csp pass does to the grid

  /** The first m cells of h are rewritten to their refined lists; every
      other cell keeps its list. */
  lemma {:induction false} WriteBackAt(g: Grid, h: House, refined: seq<Cands>, m: nat)
    requires |g| == 81 && IsHouse(h) && |refined| == 9 && m <= 9
    requires forall a, b :: 0 <= a < b < 9 ==> h[a] != h[b]
    ensures forall a :: 0 <= a < m ==> At(WriteBack(g, h, refined, m), h[a]) == refined[a]
    ensures forall k :: 0 <= k < 81 && (forall a :: 0 <= a < m ==> Index(h[a]) != k) ==>
      WriteBack(g, h, refined, m)[k] == g[k]
  {
    if m > 0 {
      WriteBackAt(g, h, refined, m - 1);
      forall a | 0 <= a < m - 1 ensures Index(h[a]) != Index(h[m - 1]) {
        if Index(h[a]) == Index(h[m - 1]) { IndexInjective(h[a], h[m - 1]); }
      }
    }
  }

  /** Refining house n of the table gives each of its cells the refined
      list of its position and leaves the other 72 cells alone. */
  lemma RefineHouseAt(g: Grid, n: int)
    requires |g| == 81 && 0 <= n < 27
    ensures IsHouse(AllHouses()[n])
    ensures var h := AllHouses()[n];
      forall a :: 0 <= a < 9 ==> At(RefineHouse(g, h), h[a]) == CspRefine(HouseLists(g, h))[a]
    ensures forall k :: 0 <= k < 81 && CellAt(k) !in AllHouses()[n] ==> RefineHouse(g, AllHouses()[n])[k] == g[k]
  {
    HouseTables();
    AllHousesAreHouses();
    var h := AllHouses()[n];
    var house := HouseLists(g, h);
    WriteBackAt(g, h, CspRefine(house), 9);
    forall k | 0 <= k < 81 && CellAt(k) !in h ensures forall a :: 0 <= a < 9 ==> Index(h[a]) != k {
      forall a | 0 <= a < 9 ensures Index(h[a]) != k {
        if Index(h[a]) == k { IndexInjective(h[a], CellAt(k)); }
      }
    }
  }

  /** What refining one house does to one cell. */
  lemma RefineHouseCell(g: Grid, n: int, k: int)
    requires |g| == 81 && 0 <= n < 27 && 0 <= k < 81
    ensures IsHouse(AllHouses()[n])
    ensures var r := RefineHouse(g, AllHouses()[n]);
      (forall d :: d in r[k] ==> d in g[k]) && |r[k]| <= |g[k]| &&
      (StrictlyAscending(g[k]) ==> StrictlyAscending(r[k]))
  {
    RefineHouseAt(g, n);
    var h := AllHouses()[n];
    if CellAt(k) in h {
      var a :| 0 <= a < 9 && h[a] == CellAt(k);
      var house := HouseLists(g, h);
      CspRefineShrinks(house);
      assert house[a] == g[k];
    }
  }

  /** A refined house only loses candidates, keeps each list ascending and
      within the digits, and never lengthens a list. */
  lemma RefineHouseShrinks(g: Grid, n: int)
    requires |g| == 81 && 0 <= n < 27
    ensures IsHouse(AllHouses()[n])
    ensures var r := RefineHouse(g, AllHouses()[n]);
      Shrunk(g, r) && NoLonger(g, r) && (WellFormed(g) ==> WellFormed(r))
  {
    HouseTables();
    AllHousesAreHouses();
    var r := RefineHouse(g, AllHouses()[n]);
    forall k | 0 <= k < 81
      ensures (forall d :: d in r[k] ==> d in g[k]) && |r[k]| <= |g[k]|
      ensures StrictlyAscending(g[k]) ==> StrictlyAscending(r[k])
    {
      RefineHouseCell(g, n, k);
    }
  }

  lemma {:induction false} CspHousesUpToShrinks(g: Grid, n: nat)
    requires |g| == 81 && n <= 27
    ensures var r := CspHousesUpTo(g, n);
      Shrunk(g, r) && NoLonger(g, r) && (WellFormed(g) ==> WellFormed(r))
  {
    if n > 0 {
      CspHousesUpToShrinks(g, n - 1);
      RefineHouseShrinks(CspHousesUpTo(g, n - 1), n - 1);
    }
  }

  /** A csp pass never adds a candidate nor lengthens a list, so the
      candidate count never grows, and it keeps the grid well formed. */
  lemma CspPassShrinks(g: Grid)
    requires |g| == 81
    ensures Shrunk(g, CspPass(g)) && NoLonger(g, CspPass(g))
    ensures Total(CspPass(g)) <= Total(g)
    ensures WellFormed(g) ==> WellFormed(CspPass(g))
  {
    CspHousesUpToShrinks(g, 27);
    TotalNoLonger(g, CspPass(g));
  }

  /** A pass that removes nothing changes nothing. */
  lemma CspPassNoRemoval(g: Grid)
    requires WellFormed(g)
    requires Total(CspPass(g)) == Total(g)
    ensures CspPass(g) == g
  {
    CspPassShrinks(g);
    ShrunkSameTotal(g, CspPass(g));
  }

  /** A valid completion, read off the cells of a house, is an assignment
      of the house's lists. */
  lemma HouseAssignment(g: Grid, n: int, sol: seq<int>) returns (p: seq<int>)
    requires |g| == 81 && 0 <= n < 27
    requires ValidFill(sol) && Admits(g, sol)
    ensures IsHouse(AllHouses()[n])
    ensures Assignment(HouseLists(g, AllHouses()[n]), p)
    ensures forall a :: 0 <= a < 9 ==> p[a] == sol[Index(AllHouses()[n][a])]
  {
    HouseTables();
    AllHousesAreHouses();
    var h := AllHouses()[n];
    p := seq(9, a requires 0 <= a < 9 => sol[Index(h[a])]);
    forall a, b | 0 <= a < b < 9 ensures p[a] != p[b] {
      SharedHouse(h[a], h[b]);
      assert CellAt(Index(h[a])) == h[a] by { IndexInjective(CellAt(Index(h[a])), h[a]); }
      assert CellAt(Index(h[b])) == h[b] by { IndexInjective(CellAt(Index(h[b])), h[b]); }
    }
  }

  /** A completion the grid allows fills every house with an assignment of
      that house's lists, so refining a house keeps its digits. */
  lemma RefineHouseSound(g: Grid, n: int, sol: seq<int>)
    requires |g| == 81 && 0 <= n < 27
    requires ValidFill(sol) && Admits(g, sol)
    ensures IsHouse(AllHouses()[n])
    ensures Admits(RefineHouse(g, AllHouses()[n]), sol)
  {
    RefineHouseAt(g, n);
    var p := HouseAssignment(g, n, sol);
    var h := AllHouses()[n];
    var house := HouseLists(g, h);
    var r := RefineHouse(g, h);
    forall k | 0 <= k < 81 ensures sol[k] in r[k] {
      if CellAt(k) in h {
        var a :| 0 <= a < 9 && h[a] == CellAt(k);
        CspRefineMembers(house, a, p[a]);
      }
    }
  }

  lemma {:induction false} CspHousesUpToSound(g: Grid, n: nat, sol: seq<int>)
    requires |g| == 81 && n <= 27
    requires ValidFill(sol) && Admits(g, sol)
    ensures Admits(CspHousesUpTo(g, n), sol)
  {
    if n > 0 {
      CspHousesUpToSound(g, n - 1, sol);
      RefineHouseSound(CspHousesUpTo(g, n - 1), n - 1, sol);
    }
  }

  /** Soundness: a csp pass never removes the digit a valid completion puts
      in a cell, as long as the grid allowed that completion. */
  lemma CspPassSound(g: Grid, sol: seq<int>)
    requires |g| == 81 && ValidFill(sol) && Admits(g, sol)
    ensures Admits(CspPass(g), sol)
  {
    CspHousesUpToSound(g, 27, sol);
  }
}
