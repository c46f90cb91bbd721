/** Small vocabulary shared by the Sudoku modules: an optional value and
    facts about duplicate-free integer lists. */
module Basics {

  datatype Option<T> = None | Some(value: T)

  /** No value occurs twice in `p`. */
  predicate Distinct(p: seq<int>) {
    forall a, b :: 0 <= a < b < |p| ==> p[a] != p[b]
  }

  /** Every value is smaller than every value after it. */
  predicate StrictlyAscending(p: seq<int>) {
    forall a, b :: 0 <= a < b < |p| ==> p[a] < p[b]
  }

  function Elements(p: seq<int>): set<int> {
    set x | x in p
  }

  /** The source tests for duplicates with `len(p) != len(set(p))`; this is
      the same test as `!Distinct(p)`. */
  lemma {:induction false} DistinctIffSetSize(p: seq<int>)
    ensures Distinct(p) <==> |Elements(p)| == |p|
    ensures |Elements(p)| <= |p|
  {
    if p != [] {
      var t := p[1..];
      DistinctIffSetSize(t);
      assert Elements(p) == {p[0]} + Elements(t);
      if p[0] in t {
        assert Elements(p) == Elements(t);
        var b :| 0 <= b < |t| && t[b] == p[0];
        assert p[0] == p[b + 1];
      } else {
        assert |Elements(p)| == |Elements(t)| + 1;
        if Distinct(t) {
          forall a, b | 0 <= a < b < |p| ensures p[a] != p[b] {
            if a > 0 { assert p[a] == t[a - 1] && p[b] == t[b - 1]; }
            else { assert p[b] == t[b - 1]; }
          }
        } else {
          var a, b :| 0 <= a < b < |t| && t[a] == t[b];
          assert p[a + 1] == p[b + 1];
        }
      }
    }
  }

  /** A list headed by d is duplicate-free exactly when its tail is and
      does not hold d. */
  lemma DistinctCons(d: int, rest: seq<int>)
    ensures Distinct([d] + rest) <==> d !in rest && Distinct(rest)
  {
    var p := [d] + rest;
    if Distinct(p) {
      forall a, b | 0 <= a < b < |rest| ensures rest[a] != rest[b] {
        assert p[a + 1] == rest[a] && p[b + 1] == rest[b];
      }
      forall b | 0 <= b < |rest| ensures rest[b] != d {
        assert p[0] == d && p[b + 1] == rest[b];
      }
    }
    if d !in rest && Distinct(rest) {
      forall a, b | 0 <= a < b < |p| ensures p[a] != p[b] {
        if a == 0 { assert p[b] == rest[b - 1]; }
        else { assert p[a] == rest[a - 1] && p[b] == rest[b - 1]; }
      }
    }
  }

  /** A strictly ascending list has no duplicates. */
  lemma AscendingIsDistinct(p: seq<int>)
    requires StrictlyAscending(p)
    ensures Distinct(p)
  {
  }

  /** Two strictly ascending lists, one drawn from the other, are equal as
      soon as they have the same length. */
  lemma {:induction false} AscendingSubsetSameLength(x: seq<int>, y: seq<int>)
    requires StrictlyAscending(x) && StrictlyAscending(y)
    requires forall d :: d in x ==> d in y
    requires |x| == |y|
    ensures x == y
  {
    if x != [] {
      // y[0] is the least element of y, x[0] the least of x
      assert x[0] in x;
      var k :| 0 <= k < |y| && y[k] == x[0];
      if k > 0 {
        // y[0] < x[0], so y[0] is missing from x and x fits in y[1..]
        forall d | d in x ensures d in y[1..] {
          var i :| 0 <= i < |x| && x[i] == d;
          assert i == 0 || x[0] < x[i];
          var j :| 0 <= j < |y| && y[j] == d;
          assert j != 0;
        }
        AscendingIsDistinct(x);
        DistinctSubsetShorter(x, y[1..]);
        assert false;
      }
      forall d | d in x[1..] ensures d in y[1..] {
        var i :| 0 <= i < |x[1..]| && x[1..][i] == d;
        assert d > x[0] && d == x[i + 1];
        assert d in x;
        assert d in y;
        var j :| 0 <= j < |y| && y[j] == d;
        assert j != 0;
      }
      AscendingSubsetSameLength(x[1..], y[1..]);
      assert x == [x[0]] + x[1..] && y == [y[0]] + y[1..];
    }
  }

  /** A duplicate-free list whose elements all occur in `y` is no longer than `y`. */
  lemma {:induction false} DistinctSubsetShorter(x: seq<int>, y: seq<int>)
    requires Distinct(x)
    requires forall d :: d in x ==> d in y
    ensures |x| <= |y|
  {
    DistinctIffSetSize(x);
    DistinctIffSetSize(y);
    assert Elements(x) <= Elements(y);
    SubsetCard(Elements(x), Elements(y));
  }

  lemma SubsetCard(a: set<int>, b: set<int>)
    requires a <= b
    ensures |a| <= |b|
  {
    assert b == a + (b - a);
  }
}
