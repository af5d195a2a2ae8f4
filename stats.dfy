/** The arithmetic mean as SQL's AVG and pandas' `Series.mean` compute it:
    missing values (NULL, NaN) are skipped, and the mean of no values is
    itself missing. */
module Stats {
  import opened Wrappers

  /** A sequence split around one of its elements, and the multiset left
      after that element is taken out. */
  lemma RemoveOne<T>(s: seq<T>, i: nat)
    requires i < |s|
    ensures s == s[..i] + [s[i]] + s[i + 1..]
    ensures multiset(s[..i] + s[i + 1..]) == multiset(s) - multiset{s[i]}
  {
    assert s == s[..i] + [s[i]] + s[i + 1..];
  }

  /** Sum of the values that are present. */
  function SumPresent(vs: seq<Option<real>>): real
  {
    if vs == [] then 0.0
    else (if vs[0].Some? then vs[0].value else 0.0) + SumPresent(vs[1..])
  }

  /** Number of values that are present. */
  function CountPresent(vs: seq<Option<real>>): nat
  {
    if vs == [] then 0
    else (if vs[0].Some? then 1 else 0) + CountPresent(vs[1..])
  }

  predicate AnyPresent(vs: seq<Option<real>>)
  {
    exists i :: 0 <= i < |vs| && vs[i].Some?
  }

  /** Some value is counted exactly when some value is present. */
  lemma {:induction false} CountPresentPositive(vs: seq<Option<real>>)
    ensures CountPresent(vs) > 0 <==> AnyPresent(vs)
  {
    if vs != [] {
      CountPresentPositive(vs[1..]);
      if AnyPresent(vs[1..]) {
        var i :| 0 <= i < |vs[1..]| && vs[1..][i].Some?;
        assert vs[i + 1].Some?;
      }
      if AnyPresent(vs) && vs[0].None? {
        var i :| 0 <= i < |vs| && vs[i].Some?;
        assert vs[1..][i - 1].Some?;
      }
    }
  }

  /** SQL AVG / pandas mean with missing values skipped. */
  function Avg(vs: seq<Option<real>>): (r: Option<real>)
    ensures r.Some? <==> AnyPresent(vs)
  {
    CountPresentPositive(vs);
    var n := CountPresent(vs);
    if n == 0 then None else Some(SumPresent(vs) / n as real)
  }

  lemma {:induction false} SumCountAppend(a: seq<Option<real>>, b: seq<Option<real>>)
    ensures SumPresent(a + b) == SumPresent(a) + SumPresent(b)
    ensures CountPresent(a + b) == CountPresent(a) + CountPresent(b)
  {
    if a != [] {
      assert (a + b)[1..] == a[1..] + b;
      SumCountAppend(a[1..], b);
    } else {
      assert a + b == b;
    }
  }

  /** Every present value is at least `lo`, so the sum is at least `lo`
      times the count. */
  lemma {:induction false} SumAtLeast(vs: seq<Option<real>>, lo: real)
    requires forall i :: 0 <= i < |vs| && vs[i].Some? ==> lo <= vs[i].value
    ensures lo * CountPresent(vs) as real <= SumPresent(vs)
  {
    if vs != [] {
      var tail := vs[1..];
      forall i | 0 <= i < |tail| && tail[i].Some? ensures lo <= tail[i].value {
        assert tail[i] == vs[i + 1];
      }
      SumAtLeast(tail, lo);
      if vs[0].Some? {
        assert CountPresent(vs) == CountPresent(tail) + 1;
        assert SumPresent(vs) == vs[0].value + SumPresent(tail);
        StepAtLeast(vs[0].value, SumPresent(tail), CountPresent(tail) as real, lo);
      } else {
        assert CountPresent(vs) == CountPresent(tail);
        assert SumPresent(vs) == SumPresent(tail);
      }
    }
  }

  lemma StepAtLeast(x: real, s: real, n: real, lo: real)
    requires lo <= x && lo * n <= s
    ensures lo * (n + 1.0) <= x + s
  {
  }

  /** Every present value is at most `hi`, so the sum is at most `hi`
      times the count. */
  lemma {:induction false} SumAtMost(vs: seq<Option<real>>, hi: real)
    requires forall i :: 0 <= i < |vs| && vs[i].Some? ==> vs[i].value <= hi
    ensures SumPresent(vs) <= CountPresent(vs) as real * hi
  {
    if vs == [] {
      assert SumPresent(vs) == 0.0 && CountPresent(vs) == 0;
    } else {
      var tail := vs[1..];
      forall i | 0 <= i < |tail| && tail[i].Some? ensures tail[i].value <= hi {
        assert tail[i] == vs[i + 1];
      }
      SumAtMost(tail, hi);
      if vs[0].Some? {
        assert CountPresent(vs) == CountPresent(tail) + 1;
        assert SumPresent(vs) == vs[0].value + SumPresent(tail);
        StepAtMost(vs[0].value, SumPresent(tail), CountPresent(tail) as real, hi);
      } else {
        assert CountPresent(vs) == CountPresent(tail);
        assert SumPresent(vs) == SumPresent(tail);
      }
    }
  }

  lemma StepAtMost(x: real, s: real, n: real, hi: real)
    requires x <= hi && s <= n * hi
    ensures x + s <= (n + 1.0) * hi
  {
  }

  /** The mean lies between the smallest and the largest present value:
      in particular the mean of one value is that value. */
  lemma AvgBetween(vs: seq<Option<real>>, lo: real, hi: real)
    requires AnyPresent(vs)
    requires forall i :: 0 <= i < |vs| && vs[i].Some? ==> lo <= vs[i].value <= hi
    ensures lo <= Avg(vs).value <= hi
  {
    CountPresentPositive(vs);
    SumAtLeast(vs, lo);
    SumAtMost(vs, hi);
    var n := CountPresent(vs) as real;
    var s := SumPresent(vs);
    assert n > 0.0;
    assert Avg(vs).value == s / n;
    assert (s / n) * n == s;
    DivideBounds(s, n, lo, hi);
  }

  lemma DivideBounds(s: real, n: real, lo: real, hi: real)
    requires n > 0.0 && lo * n <= s <= hi * n
    ensures lo <= s / n <= hi
  {
    assert s / n * n == s;
  }

  /** The sum of present values, all positive, is positive once one is present. */
  lemma {:induction false} SumPositive(vs: seq<Option<real>>)
    requires forall i :: 0 <= i < |vs| && vs[i].Some? ==> vs[i].value > 0.0
    ensures SumPresent(vs) >= 0.0
    ensures AnyPresent(vs) ==> SumPresent(vs) > 0.0
  {
    if vs != [] {
      SumPositive(vs[1..]);
      if !vs[0].Some? && AnyPresent(vs) {
        var i :| 0 <= i < |vs| && vs[i].Some?;
        assert vs[1..][i - 1].Some?;
      }
    }
  }

  /** The mean of positive values is positive. */
  lemma AvgPositive(vs: seq<Option<real>>)
    requires AnyPresent(vs)
    requires forall i :: 0 <= i < |vs| && vs[i].Some? ==> vs[i].value > 0.0
    ensures Avg(vs).value > 0.0
  {
    SumPositive(vs);
  }

  /** Taking the `i`-th value out removes exactly its share of the sum and
      of the count. */
  lemma SumCountRemove(v: seq<Option<real>>, i: nat)
    requires i < |v|
    ensures SumPresent(v) == (if v[i].Some? then v[i].value else 0.0) + SumPresent(v[..i] + v[i + 1..])
    ensures CountPresent(v) == (if v[i].Some? then 1 else 0) + CountPresent(v[..i] + v[i + 1..])
  {
    var front, mid, back := v[..i], [v[i]] + v[i + 1..], v[i + 1..];
    assert v == front + mid;
    assert mid[1..] == back;
    SumCountAppend(front, mid);
    SumCountAppend(front, back);
  }

  /** Two sequences with the same elements still have the same elements
      once the first of one and a matching element of the other are taken
      out. */
  lemma MultisetTails<T>(u: seq<T>, v: seq<T>, i: nat)
    requires multiset(u) == multiset(v) && |u| > 0 && i < |v| && v[i] == u[0]
    ensures multiset(u[1..]) == multiset(v[..i] + v[i + 1..])
  {
    RemoveOne(v, i);
    assert u == [u[0]] + u[1..];
    assert multiset(u) == multiset{u[0]} + multiset(u[1..]);
  }

  /** Sum and count depend only on the multiset of values. */
  lemma {:induction false} SumCountPermutation(u: seq<Option<real>>, v: seq<Option<real>>)
    requires multiset(u) == multiset(v)
    ensures SumPresent(u) == SumPresent(v) && CountPresent(u) == CountPresent(v)
    decreases |u|
  {
    if u == [] {
      assert |v| == |multiset(v)| == 0;
    } else {
      var x := u[0];
      assert x in multiset(v);
      var i :| 0 <= i < |v| && v[i] == x;
      MultisetTails(u, v, i);
      SumCountPermutation(u[1..], v[..i] + v[i + 1..]);
      SumCountRemove(v, i);
    }
  }

  /** The mean does not depend on the order of the values. */
  lemma AvgPermutation(u: seq<Option<real>>, v: seq<Option<real>>)
    requires multiset(u) == multiset(v)
    ensures Avg(u) == Avg(v)
  {
    SumCountPermutation(u, v);
  }
}
