/** Year columns: ascending order, the sorted listing of a set of years
    (what `GROUP BY ... ORDER BY` yields) and the first row with a given year
    (what a scalar subquery or `.values[0]` picks). */
module Ordering {
  import opened Wrappers

  /** Every year is smaller than every later one: ascending, no duplicates. */
  predicate StrictlyIncreasing(s: seq<int>)
  {
    forall i, j :: 0 <= i < j < |s| ==> s[i] < s[j]
  }

  /** `sorted` with `y` added in its place, unless it is already there. */
  function Insert(sorted: seq<int>, y: int): (r: seq<int>)
    requires StrictlyIncreasing(sorted)
    ensures StrictlyIncreasing(r)
    ensures forall z :: z in r <==> z in sorted || z == y
  {
    if sorted == [] then [y]
    else if y < sorted[0] then
      AscendingCons(y, sorted);
      [y] + sorted
    else if y == sorted[0] then sorted
    else
      var tail := Insert(sorted[1..], y);
      AscendingCons(sorted[0], sorted[1..]);
      AscendingCons(sorted[0], tail);
      [sorted[0]] + tail
  }

  /** A year followed by a column is ascending exactly when the column is and
      the year precedes all of it. */
  lemma AscendingCons(a: int, rest: seq<int>)
    ensures StrictlyIncreasing([a] + rest) <==> StrictlyIncreasing(rest) && forall z :: z in rest ==> a < z
  {
    var s := [a] + rest;
    assert forall j :: 0 <= j < |rest| ==> s[j + 1] == rest[j];
    if StrictlyIncreasing(rest) && forall z :: z in rest ==> a < z {
      forall i, j | 0 <= i < j < |s| ensures s[i] < s[j] {
        assert rest[j - 1] in rest;
      }
    }
    if StrictlyIncreasing(s) {
      forall z | z in rest ensures a < z {
        var j :| 0 <= j < |rest| && rest[j] == z;
        assert s[0] == a && s[j + 1] == z;
        assert s[0] < s[j + 1];
      }
    }
  }

  /** The distinct years of a column in ascending order: the keys that a
      `GROUP BY` over that column yields, as its `ORDER BY` lists them. */
  function SortedDistinct(ys: seq<int>): (r: seq<int>)
    ensures StrictlyIncreasing(r)
    ensures forall z :: z in r <==> z in ys
  {
    if ys == [] then []
    else
      var init := ys[..|ys| - 1];
      assert ys == init + [ys[|ys| - 1]];
      Insert(SortedDistinct(init), ys[|ys| - 1])
  }

  /** An ascending sequence is determined by its elements. */
  lemma {:induction false} StrictlyIncreasingUnique(a: seq<int>, b: seq<int>)
    requires StrictlyIncreasing(a) && StrictlyIncreasing(b)
    requires forall y :: y in a <==> y in b
    ensures a == b
  {
    if a != [] {
      assert a[0] in a;
    }
    if b != [] {
      assert b[0] in b;
    }
    if a != [] {
      assert a[0] in b && b[0] in a;
      assert a[0] == b[0];
      forall y
        ensures y in a[1..] <==> y in b[1..]
      {
        if y in a[1..] {
          assert y in a && y != a[0];
        }
        if y in b[1..] {
          assert y in b && y != b[0];
        }
      }
      StrictlyIncreasingUnique(a[1..], b[1..]);
      assert a == [a[0]] + a[1..];
      assert b == [b[0]] + b[1..];
    }
  }

  /** Position of the first occurrence of `y`, or None when `y` is absent. */
  function FirstIndex(ys: seq<int>, y: int): (r: Option<nat>)
    ensures r.None? <==> y !in ys
    ensures r.Some? ==> r.value < |ys| && ys[r.value] == y
    ensures r.Some? ==> forall j :: 0 <= j < r.value ==> ys[j] != y
  {
    if ys == [] then None
    else if ys[0] == y then Some(0)
    else match FirstIndex(ys[1..], y)
      case None => None
      case Some(k) => Some(k + 1)
  }

  /** In an ascending sequence a year occurs only once, so its first
      occurrence is its only one. */
  lemma FirstIndexAscending(ys: seq<int>, i: nat)
    requires StrictlyIncreasing(ys) && i < |ys|
    ensures FirstIndex(ys, ys[i]) == Some(i)
  {
    assert forall j :: 0 <= j < i ==> ys[j] != ys[i];
  }

  /** The largest year of a non-empty column. */
  function MaxOf(ys: seq<int>): (m: int)
    requires |ys| > 0
    ensures m in ys && forall y :: y in ys ==> y <= m
  {
    if |ys| == 1 then ys[0]
    else
      var rest := MaxOf(ys[1..]);
      assert forall y :: y in ys ==> y == ys[0] || y in ys[1..];
      if ys[0] < rest then rest else ys[0]
  }

  /** In an ascending column the largest year is the last one. */
  lemma MaxOfAscendingIsLast(ys: seq<int>)
    requires StrictlyIncreasing(ys) && |ys| > 0
    ensures MaxOf(ys) == ys[|ys| - 1]
  {
    var m := MaxOf(ys);
    var k :| 0 <= k < |ys| && ys[k] == m;
    assert ys[|ys| - 1] in ys;
    assert k < |ys| - 1 ==> ys[k] < ys[|ys| - 1];
  }
}
