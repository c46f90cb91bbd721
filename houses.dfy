/** The fixed geometry of the 9x9 board: the 27 houses (nine "columns",
    nine "rows" and nine 3x3 blocks, named as the source names them), the
    two-dimensional range helper and the cell-to-houses table used by the
    backtracking conflict check. */
module Houses {

  /** A cell (i, j); the board stores it at flat position 9 * i + j. */
  type Cell = (int, int)
  type House = seq<Cell>

  /** Table k of the "columns" holds the cells whose first coordinate is k. */
  function AllColumns(): seq<House> { seq(9, i => seq(9, j => (i, j))) }
  /** Table k of the "rows" holds the cells whose second coordinate is k. */
  function AllRows(): seq<House> { seq(9, j => seq(9, i => (i, j))) }
  /** Block k, walked left to right and top to bottom inside the block. */
  function AllBlocks(): seq<House> {
    seq(9, i => seq(9, j => ((i / 3) * 3 + j / 3, (i % 3) * 3 + j % 3)))
  }
  function AllHouses(): seq<House> { AllColumns() + AllRows() + AllBlocks() }

  /** The key the source uses for "no cell forced yet". */
  const NoCell: Cell := (-1, -1)

  predicate InRange(c: Cell) {
    0 <= c.0 < 9 && 0 <= c.1 < 9
  }

  function BlockOf(c: Cell): int {
    (c.0 / 3) * 3 + c.1 / 3
  }

  /** Flat, row-major position of a cell on the board. */
  function Index(c: Cell): (k: int)
    requires InRange(c)
    ensures 0 <= k < 81
  {
    9 * c.0 + c.1
  }

  function CellAt(k: int): (c: Cell)
    requires 0 <= k < 81
    ensures InRange(c) && Index(c) == k
  {
    (k / 9, k % 9)
  }

  lemma IndexInjective(c: Cell, d: Cell)
    requires InRange(c) && InRange(d) && Index(c) == Index(d)
    ensures c == d
  {
  }

  /** Two different cells that must hold different digits. */
  predicate Peers(c: Cell, d: Cell) {
    InRange(c) && InRange(d) && c != d &&
    (c.0 == d.0 || c.1 == d.1 || BlockOf(c) == BlockOf(d))
  }

  // ---------------------------------------------------------------------
  // range2

  /** All pairs (i, j) with i < a and j < b, the second coordinate outermost. */
  function Range2(a: nat, b: nat): (r: seq<Cell>)
    ensures |r| == a * b
  {
    if b == 0 then [] else Range2(a, b - 1) + seq(a, i => (i, b - 1))
  }

  lemma MulAtLeast(a: nat, d: int)
    requires d >= 1
    ensures a * d >= a
  {
    var e := d - 1;
    assert a * d == a * e + a;
  }

  lemma DivModUnique(a: nat, q: int, i: int)
    requires 0 <= i < a
    ensures (a * q + i) / a == q && (a * q + i) % a == i
  {
    var n := a * q + i;
    var q2, r2 := n / a, n % a;
    assert n == a * q2 + r2;
    assert a * (q - q2) == r2 - i;
    if q > q2 { MulAtLeast(a, q - q2); }
    else if q < q2 { MulAtLeast(a, q2 - q); }
  }

  /** Position k of `Range2(a, b)` is (k mod a, k div a): the first
      coordinate runs fastest. */
  lemma {:induction false} Range2At(a: nat, b: nat, k: int)
    requires 0 <= k < a * b
    ensures Range2(a, b)[k] == (k % a, k / a)
  {
    assert b > 0;
    if k < a * (b - 1) {
      Range2At(a, b - 1, k);
    } else {
      DivModUnique(a, b - 1, k - a * (b - 1));
    }
  }

  /** `Range2(9, 9)` lists every cell of the board exactly once. */
  lemma Range2Board()
    ensures forall k :: 0 <= k < 81 ==> InRange(Range2(9, 9)[k])
    ensures forall c :: c in Range2(9, 9) <==> InRange(c)
    ensures forall k, l :: 0 <= k < l < 81 ==> Range2(9, 9)[k] != Range2(9, 9)[l]
  {
    var r := Range2(9, 9);
    forall k | 0 <= k < 81 ensures r[k] == (k % 9, k / 9) && InRange(r[k]) {
      Range2At(9, 9, k);
    }
    forall k, l | 0 <= k < l < 81 ensures r[k] != r[l] {
      assert k == 9 * (k / 9) + k % 9 && l == 9 * (l / 9) + l % 9;
    }
    forall c | c in r ensures InRange(c) {
      var k :| 0 <= k < 81 && r[k] == c;
    }
    forall c | InRange(c) ensures c in r {
      DivModUnique(9, c.1, c.0);
      assert r[9 * c.1 + c.0] == c;
    }
  }

  // ---------------------------------------------------------------------
  // the house tables

  lemma ColumnMembership(c: Cell, i: int)
    requires 0 <= i < 9
    ensures c in AllColumns()[i] <==> InRange(c) && c.0 == i
  {
    if InRange(c) && c.0 == i { assert AllColumns()[i][c.1] == c; }
  }

  lemma RowMembership(c: Cell, j: int)
    requires 0 <= j < 9
    ensures c in AllRows()[j] <==> InRange(c) && c.1 == j
  {
    if InRange(c) && c.1 == j { assert AllRows()[j][c.0] == c; }
  }

  lemma BlockCell(b: int, k: int)
    requires 0 <= b < 9 && 0 <= k < 9
    ensures InRange(AllBlocks()[b][k]) && BlockOf(AllBlocks()[b][k]) == b
  {
    var c := ((b / 3) * 3 + k / 3, (b % 3) * 3 + k % 3);
    assert AllBlocks()[b][k] == c;
    DivModUnique(3, b / 3, k / 3);
    DivModUnique(3, b % 3, k % 3);
    assert c.0 / 3 == b / 3 && c.1 / 3 == b % 3;
  }

  lemma BlockMembership(c: Cell, b: int)
    requires 0 <= b < 9
    ensures c in AllBlocks()[b] <==> InRange(c) && BlockOf(c) == b
  {
    if c in AllBlocks()[b] {
      var k :| 0 <= k < 9 && AllBlocks()[b][k] == c;
      BlockCell(b, k);
    }
    if InRange(c) && BlockOf(c) == b {
      var k := (c.0 % 3) * 3 + c.1 % 3;
      DivModUnique(3, c.0 / 3, c.1 / 3);
      DivModUnique(3, c.0 % 3, c.1 % 3);
      assert b / 3 == c.0 / 3 && b % 3 == c.1 / 3;
      assert k / 3 == c.0 % 3 && k % 3 == c.1 % 3;
      assert AllBlocks()[b][k] == c;
    }
  }

  /** Membership in house n of the combined table. */
  lemma HouseMembership(c: Cell, n: int)
    requires 0 <= n < 27
    ensures c in AllHouses()[n] <==>
      InRange(c) &&
      (if n < 9 then c.0 == n else if n < 18 then c.1 == n - 9 else BlockOf(c) == n - 18)
  {
    if n < 9 {
      assert AllHouses()[n] == AllColumns()[n];
      ColumnMembership(c, n);
    } else if n < 18 {
      assert AllHouses()[n] == AllRows()[n - 9];
      RowMembership(c, n - 9);
    } else {
      assert AllHouses()[n] == AllBlocks()[n - 18];
      BlockMembership(c, n - 18);
    }
  }

  /** There are 27 houses; each holds 9 different cells of the board. */
  lemma HouseTables()
    ensures |AllHouses()| == 27
    ensures forall n :: 0 <= n < 27 ==> |AllHouses()[n]| == 9
    ensures forall n, k :: 0 <= n < 27 && 0 <= k < 9 ==> InRange(AllHouses()[n][k])
    ensures forall n, k, l :: 0 <= n < 27 && 0 <= k < l < 9 ==> AllHouses()[n][k] != AllHouses()[n][l]
  {
    forall n, k | 0 <= n < 27 && 0 <= k < 9 ensures InRange(AllHouses()[n][k]) {
      HouseMembership(AllHouses()[n][k], n);
    }
  }

  /** Two cells lie together in some house exactly when they are peers (or equal). */
  lemma {:induction false} SharedHouse(c: Cell, d: Cell)
    requires c != d
    ensures (exists n :: 0 <= n < 27 && c in AllHouses()[n] && d in AllHouses()[n]) <==> Peers(c, d)
  {
    if Peers(c, d) {
      var n;
      if c.0 == d.0 {
        n := c.0;
      } else if c.1 == d.1 {
        n := 9 + c.1;
      } else {
        n := 18 + BlockOf(c);
      }
      HouseMembership(c, n);
      HouseMembership(d, n);
      assert c in AllHouses()[n] && d in AllHouses()[n];
    }
    if exists n :: 0 <= n < 27 && c in AllHouses()[n] && d in AllHouses()[n] {
      var n :| 0 <= n < 27 && c in AllHouses()[n] && d in AllHouses()[n];
      HouseMembership(c, n);
      HouseMembership(d, n);
      assert Peers(c, d);
    }
  }

  // ---------------------------------------------------------------------
  // cellInHouse

  /** The houses of `hs` that contain `c`, in table order. */
  function HousesContaining(c: Cell, hs: seq<House>): (r: seq<House>)
    ensures forall h :: h in r ==> h in hs && c in h
    ensures |r| <= |hs|
  {
    if hs == [] then []
    else (if c in hs[0] then [hs[0]] else []) + HousesContaining(c, hs[1..])
  }

  lemma {:induction false} HousesContainingAppend(c: Cell, a: seq<House>, b: seq<House>)
    ensures HousesContaining(c, a + b) == HousesContaining(c, a) + HousesContaining(c, b)
  {
    if a != [] {
      assert (a + b)[0] == a[0] && (a + b)[1..] == a[1..] + b;
      HousesContainingAppend(c, a[1..], b);
      var x := if c in a[0] then [a[0]] else [];
      calc {
        HousesContaining(c, a + b);
        x + HousesContaining(c, a[1..] + b);
        x + (HousesContaining(c, a[1..]) + HousesContaining(c, b));
        (x + HousesContaining(c, a[1..])) + HousesContaining(c, b);
        HousesContaining(c, a) + HousesContaining(c, b);
      }
    } else {
      assert a + b == b;
    }
  }

  /** When exactly one table entry contains `c`, the filter keeps just that entry. */
  lemma {:induction false} HousesContainingOne(c: Cell, hs: seq<House>, m: int)
    requires 0 <= m < |hs|
    requires forall k :: 0 <= k < |hs| ==> (c in hs[k] <==> k == m)
    ensures HousesContaining(c, hs) == [hs[m]]
  {
    if m == 0 {
      HousesContainingNone(c, hs[1..]);
    } else {
      HousesContainingOne(c, hs[1..], m - 1);
    }
  }

  lemma {:induction false} HousesContainingNone(c: Cell, hs: seq<House>)
    requires forall k :: 0 <= k < |hs| ==> c !in hs[k]
    ensures HousesContaining(c, hs) == []
  {
    if hs != [] { HousesContainingNone(c, hs[1..]); }
  }

  /** The cell-to-houses table: every cell of the board, plus `NoCell`
      mapped to no house at all. */
  function CellInHouse(): map<Cell, seq<House>> {
    map c | c in Range2(9, 9) + [NoCell] ::
      if c == NoCell then [] else HousesContaining(c, AllHouses())
  }

  lemma ColumnsContaining(c: Cell)
    requires InRange(c)
    ensures HousesContaining(c, AllColumns()) == [AllColumns()[c.0]]
  {
    forall k | 0 <= k < 9 ensures c in AllColumns()[k] <==> k == c.0 { ColumnMembership(c, k); }
    HousesContainingOne(c, AllColumns(), c.0);
  }

  lemma RowsContaining(c: Cell)
    requires InRange(c)
    ensures HousesContaining(c, AllRows()) == [AllRows()[c.1]]
  {
    forall k | 0 <= k < 9 ensures c in AllRows()[k] <==> k == c.1 { RowMembership(c, k); }
    HousesContainingOne(c, AllRows(), c.1);
  }

  lemma BlocksContaining(c: Cell)
    requires InRange(c)
    ensures HousesContaining(c, AllBlocks()) == [AllBlocks()[BlockOf(c)]]
  {
    forall k | 0 <= k < 9 ensures c in AllBlocks()[k] <==> k == BlockOf(c) { BlockMembership(c, k); }
    HousesContainingOne(c, AllBlocks(), BlockOf(c));
  }

  /** The column, row and block tables' houses through `c`. */
  function HousesOf(c: Cell): (r: seq<House>)
    requires InRange(c)
    ensures |r| == 3
  {
    [AllColumns()[c.0], AllRows()[c.1], AllBlocks()[BlockOf(c)]]
  }

  /** A board cell lies in exactly one house of each table. */
  lemma HousesOfCell(c: Cell)
    requires InRange(c)
    ensures HousesContaining(c, AllHouses()) == HousesOf(c)
  {
    ColumnsContaining(c);
    RowsContaining(c);
    BlocksContaining(c);
    HousesContainingAppend(c, AllColumns(), AllRows());
    HousesContainingAppend(c, AllColumns() + AllRows(), AllBlocks());
  }

  lemma CellInHouseLookup(c: Cell)
    requires InRange(c)
    ensures c in CellInHouse() && CellInHouse()[c] == HousesContaining(c, AllHouses())
  {
    Range2Board();
  }

  /** `NoCell` lies in no house. */
  lemma CellInHouseNoCell()
    ensures NoCell in CellInHouse() && CellInHouse()[NoCell] == []
  {
    Range2Board();
  }

  /** Every cell of the board lies in exactly three houses, one from each
      table, in table order. */
  lemma CellInHouseAt(c: Cell)
    requires InRange(c)
    ensures c in CellInHouse()
    ensures CellInHouse()[c] == HousesOf(c)
  {
    CellInHouseLookup(c);
    HousesOfCell(c);
  }

  /** The keys of the table are exactly the board cells and `NoCell`. */
  lemma CellInHouseKeys()
    ensures forall c :: c in CellInHouse() <==> InRange(c) || c == NoCell
  {
    Range2Board();
  }

  /** Each house of the combined table holds 9 different board cells, any
      two of which are peers. */
  lemma HouseFacts(n: int)
    requires 0 <= n < 27
    ensures var h := AllHouses()[n];
      |h| == 9 && (forall x :: x in h ==> InRange(x)) &&
      (forall a, b :: 0 <= a < b < 9 ==> h[a] != h[b]) &&
      forall x, y :: x in h && y in h && x != y ==> Peers(x, y)
  {
    HouseTables();
    var h := AllHouses()[n];
    forall x | x in h ensures InRange(x) {
      HouseMembership(x, n);
    }
    forall x, y | x in h && y in h && x != y ensures Peers(x, y) {
      HouseMembership(x, n);
      HouseMembership(y, n);
    }
  }

  /** The three houses through a board cell come from the combined table:
      each holds 9 different board cells including `c`, any two different
      cells of one of them are peers, and every peer of `c` lies in one. */
  lemma HousesOfFacts(c: Cell)
    requires InRange(c)
    ensures forall h :: h in HousesOf(c) ==>
      |h| == 9 && c in h && (forall x :: x in h ==> InRange(x)) &&
      forall a, b :: 0 <= a < b < 9 ==> h[a] != h[b]
    ensures forall h, x, y :: h in HousesOf(c) && x in h && y in h && x != y ==> Peers(x, y)
    ensures forall d :: Peers(c, d) ==> exists h :: h in HousesOf(c) && d in h
  {
    HouseTables();
    var ns := [c.0, 9 + c.1, 18 + BlockOf(c)];
    assert HousesOf(c) == [AllHouses()[ns[0]], AllHouses()[ns[1]], AllHouses()[ns[2]]];
    forall m | 0 <= m < 3 ensures c in AllHouses()[ns[m]] {
      HouseMembership(c, ns[m]);
    }
    HouseFacts(ns[0]);
    HouseFacts(ns[1]);
    HouseFacts(ns[2]);
    forall d | Peers(c, d) ensures exists h :: h in HousesOf(c) && d in h {
      var m := if c.0 == d.0 then 0 else if c.1 == d.1 then 1 else 2;
      HouseMembership(d, ns[m]);
      assert AllHouses()[ns[m]] in HousesOf(c);
    }
  }

  /** The table has an entry for every board cell and for `NoCell`, and its
      houses hold only board cells. */
  lemma CellInHouseCells(c: Cell)
    requires InRange(c) || c == NoCell
    ensures c in CellInHouse()
    ensures forall h, x :: h in CellInHouse()[c] && x in h ==> InRange(x)
  {
    if c == NoCell {
      CellInHouseNoCell();
    } else {
      CellInHouseAt(c);
      HousesOfFacts(c);
    }
  }
}
