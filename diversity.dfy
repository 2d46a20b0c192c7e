/** The two diversity indices the simulations report over a population of
    haplotype labels: Shannon's index H = -Σ p·ln p and the haplotype
    diversity Hd = N/(N-1)·(1 - Σ p²), where p ranges over the frequencies of
    the labels present. Arithmetic is exact (`real`); the natural logarithm is
    the caller's `ln`, about which the lemmas assume only what they say. */
module Diversity {
  import opened Tally

  /** The frequency of a class of `c` individuals out of `n`. */
  function Frequency(c: nat, n: nat): real
    requires n > 0
  {
    c as real / n as real
  }

  /** p·ln p for one class, a class of frequency zero contributing nothing
      (the `if p > 0 else 0` guard, or numpy's `freqs[freqs > 0]` filter). */
  function EntropyTerm(c: nat, n: nat, ln: real -> real): real {
    if n == 0 then 0.0
    else
      var p := Frequency(c, n);
      if p > 0.0 then p * ln(p) else 0.0
  }

  /** Σ p·ln p over the classes `keys` of population `s`. */
  function EntropySum<T(==)>(keys: seq<T>, s: seq<T>, ln: real -> real): real {
    if keys == [] then 0.0
    else EntropySum(keys[..|keys| - 1], s, ln) + EntropyTerm(Count(s, keys[|keys| - 1]), |s|, ln)
  }

  /** Shannon's index of `s` over its distinct labels. */
  function Shannon<T(==,!new)>(s: seq<T>, ln: real -> real): real {
    -EntropySum(Distinct(s), s, ln)
  }

  /** Σ c² over the counts c of the classes `keys` of population `s`; the
      sum of the squared frequencies is this divided by N². */
  function SquaredCountSum<T(==)>(keys: seq<T>, s: seq<T>): nat {
    if keys == [] then 0
    else
      var c := Count(s, keys[|keys| - 1]);
      SquaredCountSum(keys[..|keys| - 1], s) + c * c
  }

  /** N/(N-1)·(1 - q/N²) for a population of N individuals whose class
      counts have squares summing to q. */
  function DiversityFormula(n: nat, q: nat): real
    requires n > 1
  {
    (n as real / (n - 1) as real) * (1.0 - q as real / (n * n) as real)
  }

  /** Nei's haplotype diversity, defined as 0 for populations of at most one. */
  function HaplotypeDiversity<T(==,!new)>(s: seq<T>): (hd: real)
    ensures |s| <= 1 ==> hd == 0.0
  {
    if |s| <= 1 then 0.0
    else DiversityFormula(|s|, SquaredCountSum(Distinct(s), s))
  }

  // ---------------------------------------------------------------------------
  // Shannon's index

  lemma ShannonOfEmpty<T(!new)>(s: seq<T>, ln: real -> real)
    requires s == []
    ensures Shannon(s, ln) == 0.0
  {
  }

  /** A monomorphic population has Shannon index 0 (its one frequency is 1). */
  lemma ShannonMonomorphic<T(!new)>(s: seq<T>, ln: real -> real)
    requires ln(1.0) == 0.0
    requires s != []
    requires forall i :: 0 <= i < |s| ==> s[i] == s[0]
    ensures Shannon(s, ln) == 0.0
  {
    DistinctOfConstant(s, s[0]);
    assert [s[0]][..0] == [];
    FrequencyOfAll(|s|);
    assert EntropyTerm(|s|, |s|, ln) == 1.0 * ln(1.0);
    assert EntropySum([s[0]], s, ln) == EntropyTerm(Count(s, s[0]), |s|, ln);
  }

  lemma FrequencyOfAll(n: nat)
    requires n > 0
    ensures Frequency(n, n) == 1.0
  {
  }

  lemma FrequencyAtMostOne(c: nat, n: nat)
    requires 0 < n && c <= n
    ensures 0.0 <= Frequency(c, n) <= 1.0
  {
    var p := Frequency(c, n);
    assert p * (n as real) == c as real;
  }

  lemma {:induction false} EntropySumNonPositive<T>(keys: seq<T>, s: seq<T>, ln: real -> real)
    requires forall p :: 0.0 < p <= 1.0 ==> ln(p) <= 0.0
    ensures EntropySum(keys, s, ln) <= 0.0
  {
    if keys != [] {
      EntropySumNonPositive(keys[..|keys| - 1], s, ln);
      var c := Count(s, keys[|keys| - 1]);
      if |s| > 0 {
        FrequencyAtMostOne(c, |s|);
        var p := Frequency(c, |s|);
        if p > 0.0 {
          assert ln(p) <= 0.0;
          assert p * ln(p) <= 0.0;
        }
      }
    }
  }

  /** With a logarithm that is non-positive on (0, 1], Shannon's index is
      non-negative. */
  lemma ShannonNonNegative<T(!new)>(s: seq<T>, ln: real -> real)
    requires forall p :: 0.0 < p <= 1.0 ==> ln(p) <= 0.0
    ensures Shannon(s, ln) >= 0.0
  {
    EntropySumNonPositive(Distinct(s), s, ln);
  }

  // ---------------------------------------------------------------------------
  // Haplotype diversity

  /** A monomorphic population has haplotype diversity 0. */
  lemma HaplotypeDiversityMonomorphic<T(!new)>(s: seq<T>)
    requires s != []
    requires forall i :: 0 <= i < |s| ==> s[i] == s[0]
    ensures HaplotypeDiversity(s) == 0.0
  {
    if |s| > 1 {
      DistinctOfConstant(s, s[0]);
      assert [s[0]][..0] == [];
      assert SquaredCountSum([s[0]], s) == |s| * |s|;
      DiversityFormulaOfOneClass(|s|);
    }
  }

  lemma DiversityFormulaOfOneClass(n: nat)
    requires n > 1
    ensures DiversityFormula(n, n * n) == 0.0
  {
    var n2 := (n * n) as real;
    assert n2 > 0.0;
    assert n2 / n2 == 1.0;
  }

  lemma DiversityFormulaNonNegative(n: nat, q: nat)
    requires n > 1 && q <= n * n
    ensures DiversityFormula(n, q) >= 0.0
  {
    var n2 := (n * n) as real;
    assert n2 > 0.0;
    assert q as real / n2 <= 1.0;
    var a := n as real / (n - 1) as real;
    assert a > 0.0;
    var b := 1.0 - q as real / n2;
    assert b >= 0.0;
    assert a * b >= 0.0;
  }

  lemma {:induction false} SquaredCountSumBound<T>(keys: seq<T>, s: seq<T>)
    ensures SquaredCountSum(keys, s) <= |s| * SumCounts(keys, s)
  {
    if keys != [] {
      var prefix := keys[..|keys| - 1];
      SquaredCountSumBound(prefix, s);
      SquaredStep(SquaredCountSum(prefix, s), SumCounts(prefix, s), Count(s, keys[|keys| - 1]), |s|);
    }
  }

  lemma SquaredStep(q: nat, t: nat, c: nat, n: nat)
    requires q <= n * t && c <= n
    ensures q + c * c <= n * (t + c)
  {
    assert c * c <= n * c;
    assert n * (t + c) == n * t + n * c;
  }

  /** The squared frequencies of a population's classes sum to at most 1, so
      Hd is never negative. */
  lemma HaplotypeDiversityNonNegative<T(!new)>(s: seq<T>)
    ensures HaplotypeDiversity(s) >= 0.0
  {
    var n := |s|;
    if n > 1 {
      var d := Distinct(s);
      SquaredCountSumBound(d, s);
      SumCountsOfDistinct(s);
      DiversityFormulaNonNegative(n, SquaredCountSum(d, s));
    }
  }

  /** The worked example of counts {A: 3, B: 1}: frequencies 3/4 and 1/4, so
      Hd = (4/3)·(1 - 10/16) = 1/2 and H = -(3/4·ln(3/4) + 1/4·ln(1/4)). */
  lemma ThreeToOneExample(ln: real -> real)
    ensures HaplotypeDiversity(["A", "A", "A", "B"]) == 0.5
    ensures Shannon(["A", "A", "A", "B"], ln) == -(0.75 * ln(0.75) + 0.25 * ln(0.25))
  {
    var s := ["A", "A", "A", "B"];
    assert s[..3] == ["A", "A", "A"];
    assert s[..3][..2] == ["A", "A"];
    assert s[..3][..2][..1] == ["A"];
    assert ["A"][..0] == [];
    assert Distinct(["A"]) == ["A"];
    assert Distinct(["A", "A"]) == ["A"];
    assert Distinct(["A", "A", "A"]) == ["A"];
    var d := Distinct(s);
    assert d == ["A", "B"];
    assert d[..1] == ["A"];
    assert Count(["A"], "A") == 1;
    assert Count(["A", "A"], "A") == 2;
    assert Count(["A", "A", "A"], "A") == 3;
    assert Count(s, "A") == 3;
    assert Count(["A", "A", "A"], "B") == 0;
    assert Count(s, "B") == 1;
    assert SquaredCountSum(d, s) == 10;
    assert Frequency(3, 4) == 0.75;
    assert Frequency(1, 4) == 0.25;
  }
}
