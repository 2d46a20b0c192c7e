/** Counting labels in a population, in the order in which Python's `Counter`
    and `dict` keep them: a key is listed where it first occurs. */
module Tally {

  /** True when no value occurs twice in `s`. */
  predicate NoDuplicates<T(==)>(s: seq<T>) {
    forall i, j :: 0 <= i < j < |s| ==> s[i] != s[j]
  }

  /** Number of occurrences of `x` in `s`. */
  function Count<T(==)>(s: seq<T>, x: T): (n: nat)
    ensures n <= |s|
    ensures n > 0 <==> x in s
  {
    if s == [] then 0
    else
      assert s == s[..|s| - 1] + [s[|s| - 1]];
      Count(s[..|s| - 1], x) + (if s[|s| - 1] == x then 1 else 0)
  }

  /** The distinct values of `s`, each listed at its first occurrence: the key
      order of a `Counter` or `dict` filled by a left-to-right pass over `s`. */
  function Distinct<T(==,!new)>(s: seq<T>): (d: seq<T>)
    ensures NoDuplicates(d)
    ensures forall x :: x in d <==> x in s
    ensures |d| <= |s|
  {
    if s == [] then []
    else
      assert s == s[..|s| - 1] + [s[|s| - 1]];
      var d := Distinct(s[..|s| - 1]);
      if s[|s| - 1] in d then d else d + [s[|s| - 1]]
  }

  /** The sum of the counts in `s` of the values listed in `keys`, as
      `sum(counts.values())` adds them up. */
  function SumCounts<T(==)>(keys: seq<T>, s: seq<T>): nat {
    if keys == [] then 0
    else SumCounts(keys[..|keys| - 1], s) + Count(s, keys[|keys| - 1])
  }

  lemma CountSnoc<T>(s: seq<T>, x: T, y: T)
    ensures Count(s + [x], y) == Count(s, y) + (if x == y then 1 else 0)
  {
    assert (s + [x])[..|s|] == s;
  }

  lemma {:induction false} CountAppend<T>(p: seq<T>, q: seq<T>, x: T)
    ensures Count(p + q, x) == Count(p, x) + Count(q, x)
  {
    if q != [] {
      var q' := q[..|q| - 1];
      assert p + q == (p + q') + [q[|q| - 1]];
      assert q == q' + [q[|q| - 1]];
      CountAppend(p, q', x);
      CountSnoc(p + q', q[|q| - 1], x);
      CountSnoc(q', q[|q| - 1], x);
    } else {
      assert p + q == p;
    }
  }

  /** Appending one individual adds one to the total exactly when its value
      is among the keys. */
  lemma {:induction false} SumCountsSnoc<T>(keys: seq<T>, s: seq<T>, x: T)
    requires NoDuplicates(keys)
    ensures SumCounts(keys, s + [x]) == SumCounts(keys, s) + (if x in keys then 1 else 0)
  {
    if keys != [] {
      var k' := keys[..|keys| - 1];
      var y := keys[|keys| - 1];
      assert keys == k' + [y];
      assert NoDuplicates(k');
      assert y !in k';
      SumCountsSnoc(k', s, x);
      CountSnoc(s, x, y);
      assert x in keys <==> x in k' || x == y;
    }
  }

  /** The counts of a population's distinct values add up to its size, as
      `total = sum(counts.values())` relies on. */
  lemma {:induction false} SumCountsOfDistinct<T(!new)>(s: seq<T>)
    ensures SumCounts(Distinct(s), s) == |s|
  {
    if s != [] {
      var p := s[..|s| - 1];
      var x := s[|s| - 1];
      assert s == p + [x];
      SumCountsOfDistinct(p);
      var d := Distinct(p);
      SumCountsSnoc(d, p, x);
      if x !in d {
        assert Distinct(s) == d + [x];
        assert (d + [x])[..|d|] == d;
        CountSnoc(p, x, x);
      }
    }
  }

  /** When every value is `a` or `b`, their two counts make up the whole
      population. */
  lemma {:induction false} CountTwoLabels<T>(s: seq<T>, a: T, b: T)
    requires a != b
    requires forall i :: 0 <= i < |s| ==> s[i] == a || s[i] == b
    ensures Count(s, a) + Count(s, b) == |s|
  {
    if s != [] {
      CountTwoLabels(s[..|s| - 1], a, b);
    }
  }

  /** A population of one repeated value has that value as its only key, and
      its count is the population size. */
  lemma {:induction false} DistinctOfConstant<T(!new)>(s: seq<T>, x: T)
    requires s != []
    requires forall i :: 0 <= i < |s| ==> s[i] == x
    ensures Distinct(s) == [x]
    ensures Count(s, x) == |s|
  {
    if |s| > 1 {
      DistinctOfConstant(s[..|s| - 1], x);
    }
  }

  /** The position of the first occurrence of `x` in `s`. */
  function IndexOf<T(==)>(s: seq<T>, x: T): (i: nat)
    requires x in s
    ensures i < |s| && s[i] == x && x !in s[..i]
  {
    if s[0] == x then 0
    else
      assert s == [s[0]] + s[1..];
      var j := IndexOf(s[1..], x);
      assert s[..j + 1] == [s[0]] + s[1..][..j];
      j + 1
  }

  /** `[f(0), …, f(n - 1)]`, built as a loop appending one value per step builds it. */
  function Tabulate<T>(f: nat --> T, n: nat): (s: seq<T>)
    requires forall i | 0 <= i < n :: f.requires(i)
    ensures |s| == n
  {
    if n == 0 then [] else Tabulate(f, n - 1) + [f(n - 1)]
  }

  /** Element `i` of the tabulation is `f(i)`. */
  lemma {:induction false} TabulateAt<T>(f: nat --> T, n: nat)
    requires forall i | 0 <= i < n :: f.requires(i)
    ensures forall i | 0 <= i < n :: Tabulate(f, n)[i] == f(i)
  {
    if n > 0 {
      TabulateAt(f, n - 1);
    }
  }

  /** `s` without the first occurrence of `x`, as `list.remove` leaves it. */
  function Remove<T(==)>(s: seq<T>, x: T): seq<T> {
    if x in s then s[..IndexOf(s, x)] + s[IndexOf(s, x) + 1..] else s
  }
}
