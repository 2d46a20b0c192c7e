/** The neutral resampling model of model/newModel.py: a population of
    haplotype labels expanded from a table of counts, then, generation after
    generation, N offspring each taking a random parent's label or, with the
    mutation probability, a random label of the table. One row of Hd and
    Shannon's index is recorded per generation before it is resampled. The
    random draws are parameters. */
module NeutralDrift {
  import opened Tally
  import opened Diversity
  import PyDict

  /** `dict(zip(haplotype_id, sequence_count))`: labels in first-occurrence
      order, the last row's count for a repeated label. */
  type CountTable = PyDict.Dict<string, int>

  /** The length of `[hap] * count`: a count below one gives no copies. */
  function Copies(count: int): nat {
    if count > 0 then count else 0
  }

  function Replicate(h: string, n: nat): (r: seq<string>)
    ensures |r| == n && forall i :: 0 <= i < n ==> r[i] == h
  {
    seq(n, _ => h)
  }

  /** The population the expansion loop builds from the labels `keys`: each
      label's copies, one label after the other. */
  function Expansion(keys: seq<string>, counts: map<string, int>): seq<string>
    requires forall i :: 0 <= i < |keys| ==> keys[i] in counts
  {
    if keys == [] then []
    else
      var k := |keys| - 1;
      Expansion(keys[..k], counts) + Replicate(keys[k], Copies(counts[keys[k]]))
  }

  /** Σ copies over the labels `keys`. */
  function TotalCopies(keys: seq<string>, counts: map<string, int>): nat
    requires forall i :: 0 <= i < |keys| ==> keys[i] in counts
  {
    if keys == [] then 0 else TotalCopies(keys[..|keys| - 1], counts) + Copies(counts[keys[|keys| - 1]])
  }

  lemma CountReplicate(h: string, n: nat, x: string)
    ensures Count(Replicate(h, n), x) == if x == h then n else 0
    decreases n
  {
    if n > 0 {
      assert Replicate(h, n) == Replicate(h, n - 1) + [h];
      CountSnoc(Replicate(h, n - 1), h, x);
      CountReplicate(h, n - 1, x);
    }
  }

  /** The expanded population holds each label of the table exactly as many
      times as its count says (none for a count below one), and nothing else. */
  lemma {:induction false} ExpansionCount(keys: seq<string>, counts: map<string, int>, x: string)
    requires forall i :: 0 <= i < |keys| ==> keys[i] in counts
    requires NoDuplicates(keys)
    ensures Count(Expansion(keys, counts), x) == if x in keys then Copies(counts[x]) else 0
  {
    if keys != [] {
      var k := |keys| - 1;
      var rest := keys[..k];
      assert keys == rest + [keys[k]];
      assert keys[k] !in rest;
      assert x in keys <==> x in rest || x == keys[k];
      ExpansionCount(rest, counts, x);
      CountAppend(Expansion(rest, counts), Replicate(keys[k], Copies(counts[keys[k]])), x);
      CountReplicate(keys[k], Copies(counts[keys[k]]), x);
    }
  }

  /** Its length is the sum of the counts. */
  lemma {:induction false} ExpansionLength(keys: seq<string>, counts: map<string, int>)
    requires forall i :: 0 <= i < |keys| ==> keys[i] in counts
    ensures |Expansion(keys, counts)| == TotalCopies(keys, counts)
  {
    if keys != [] {
      ExpansionLength(keys[..|keys| - 1], counts);
    }
  }

  /** Every label of the expanded population is a label of the table. */
  lemma {:induction false} ExpansionWithinKeys(keys: seq<string>, counts: map<string, int>)
    requires forall i :: 0 <= i < |keys| ==> keys[i] in counts
    ensures forall x | x in Expansion(keys, counts) :: x in keys
  {
    if keys != [] {
      var k := |keys| - 1;
      ExpansionWithinKeys(keys[..k], counts);
      forall x | x in Expansion(keys, counts) ensures x in keys {
        if x in Expansion(keys[..k], counts) {
          assert x in keys[..k];
        } else {
          assert x in Replicate(keys[k], Copies(counts[keys[k]]));
        }
      }
    }
  }

  /** `for hap, count in hap_counts.items(): population.extend([hap] * int(count))`. */
  method Expand(table: CountTable) returns (population: seq<string>)
    requires PyDict.Valid(table)
    ensures population == Expansion(table.keys, table.entries)
  {
    var keys := table.keys;
    population := [];
    for i := 0 to |keys|
      invariant population == Expansion(keys[..i], table.entries)
    {
      var hap := keys[i];
      var count := table.entries[hap];
      population := population + Replicate(hap, Copies(count));
      assert keys[..i + 1][..i] == keys[..i];
    }
    assert keys[..|keys|] == keys;
  }

  // ---------------------------------------------------------------------------
  // Resampling

  /** The draws for one offspring: the index `random.choice` picks in the
      current population, the `random.random()` value compared with the
      mutation rate, and the index picked among the table's labels. */
  datatype OffspringDraw = OffspringDraw(parent: nat, mutation: real, choice: nat)

  /** Every parent index is in a population of `n`, and the label index is
      in range wherever a mutation happens. */
  predicate OffspringDrawsFit(draws: seq<OffspringDraw>, n: nat, labels: nat, rate: real) {
    forall i :: 0 <= i < |draws| ==>
      draws[i].parent < n && (draws[i].mutation < rate ==> draws[i].choice < labels)
  }

  /** One fitting draw per individual of a population of `n`. */
  predicate GenerationFits(draws: seq<OffspringDraw>, n: nat, labels: nat, rate: real) {
    |draws| == n && OffspringDrawsFit(draws, n, labels, rate)
  }

  /** An offspring's label: a table label on mutation, its parent's otherwise. */
  function Offspring(current: seq<string>, unique: seq<string>, rate: real, d: OffspringDraw): string
    requires d.parent < |current| && (d.mutation < rate ==> d.choice < |unique|)
  {
    if d.mutation < rate then unique[d.choice] else current[d.parent]
  }

  /** The next generation: the offspring of `current`, one per draw, in the
      order of the draws. */
  function Resampled(current: seq<string>, unique: seq<string>, rate: real, draws: seq<OffspringDraw>)
    : (next: seq<string>)
    requires OffspringDrawsFit(draws, |current|, |unique|, rate)
    ensures |next| == |draws|
  {
    if draws == [] then []
    else
      assert OffspringDrawsFit(draws[..|draws| - 1], |current|, |unique|, rate);
      Resampled(current, unique, rate, draws[..|draws| - 1]) + [Offspring(current, unique, rate, draws[|draws| - 1])]
  }

  /** Offspring `i` is the one draw `i` describes. */
  lemma {:induction false} ResampledAt(current: seq<string>, unique: seq<string>, rate: real, draws: seq<OffspringDraw>)
    requires OffspringDrawsFit(draws, |current|, |unique|, rate)
    ensures forall i | 0 <= i < |draws| ::
      Resampled(current, unique, rate, draws)[i] == Offspring(current, unique, rate, draws[i])
  {
    if draws != [] {
      var prefix := draws[..|draws| - 1];
      assert OffspringDrawsFit(prefix, |current|, |unique|, rate);
      ResampledAt(current, unique, rate, prefix);
    }
  }

  /** The inner loop: `next_population` filled with N offspring, every draw
      reading the generation being replaced. */
  method NextGeneration(current: seq<string>, unique: seq<string>, rate: real, draws: seq<OffspringDraw>)
    returns (next: seq<string>)
    requires GenerationFits(draws, |current|, |unique|, rate)
    ensures |next| == |current|
    ensures next == Resampled(current, unique, rate, draws)
  {
    next := [];
    var n := |current|;
    for k := 0 to n
      invariant next == Resampled(current, unique, rate, draws[..k])
    {
      var d := draws[k];
      var parentHap := current[d.parent];
      var offspringHap := if d.mutation < rate then unique[d.choice] else parentHap;
      next := next + [offspringHap];
      assert draws[..k + 1][..k] == draws[..k];
    }
    assert draws[..n] == draws;
  }

  /** Each offspring carries a label of the old generation or of the table. */
  lemma ResampledLabels(current: seq<string>, unique: seq<string>, rate: real, draws: seq<OffspringDraw>)
    requires GenerationFits(draws, |current|, |unique|, rate)
    ensures forall x | x in Resampled(current, unique, rate, draws) :: x in current || x in unique
  {
    var next := Resampled(current, unique, rate, draws);
    ResampledAt(current, unique, rate, draws);
    forall x | x in next ensures x in current || x in unique {
      var i :| 0 <= i < |next| && next[i] == x;
      var d := draws[i];
      if d.mutation < rate {
        assert x == unique[d.choice];
      } else {
        assert x == current[d.parent];
      }
    }
  }

  /** Without mutation (a rate of 0 and draws from [0, 1)), no label appears
      that the old generation did not have. */
  lemma ResampledWithoutMutation(current: seq<string>, unique: seq<string>, rate: real, draws: seq<OffspringDraw>)
    requires GenerationFits(draws, |current|, |unique|, rate)
    requires rate <= 0.0 && forall i :: 0 <= i < |draws| ==> draws[i].mutation >= 0.0
    ensures forall x | x in Resampled(current, unique, rate, draws) :: x in current
  {
    var next := Resampled(current, unique, rate, draws);
    ResampledAt(current, unique, rate, draws);
    forall x | x in next ensures x in current {
      var i :| 0 <= i < |next| && next[i] == x;
      assert !(draws[i].mutation < rate);
      assert x == current[draws[i].parent];
    }
  }

  /** Draws for every generation of a run from a population of `n`. */
  predicate RunFits(draws: seq<seq<OffspringDraw>>, n: nat, labels: nat, rate: real) {
    forall g :: 0 <= g < |draws| ==> GenerationFits(draws[g], n, labels, rate)
  }

  /** The population after `g` generations. */
  function PopulationAt(initial: seq<string>, unique: seq<string>, rate: real, draws: seq<seq<OffspringDraw>>, g: nat)
    : (pop: seq<string>)
    requires g <= |draws| && RunFits(draws, |initial|, |unique|, rate)
    ensures |pop| == |initial|
  {
    if g == 0 then initial
    else Resampled(PopulationAt(initial, unique, rate, draws, g - 1), unique, rate, draws[g - 1])
  }

  /** A population within the table's labels stays within them. */
  lemma {:induction false} PopulationAtWithinTable(initial: seq<string>, unique: seq<string>, rate: real,
                                                   draws: seq<seq<OffspringDraw>>, g: nat)
    requires g <= |draws| && RunFits(draws, |initial|, |unique|, rate)
    requires forall x | x in initial :: x in unique
    ensures forall x | x in PopulationAt(initial, unique, rate, draws, g) :: x in unique
  {
    if g > 0 {
      var prev := PopulationAt(initial, unique, rate, draws, g - 1);
      PopulationAtWithinTable(initial, unique, rate, draws, g - 1);
      ResampledLabels(prev, unique, rate, draws[g - 1]);
    }
  }

  /** Without mutation the set of labels present never grows. */
  lemma {:induction false} PopulationAtWithoutMutation(initial: seq<string>, unique: seq<string>, rate: real,
                                                       draws: seq<seq<OffspringDraw>>, g: nat)
    requires g <= |draws| && RunFits(draws, |initial|, |unique|, rate)
    requires rate <= 0.0
    requires forall k, i :: 0 <= k < |draws| && 0 <= i < |draws[k]| ==> draws[k][i].mutation >= 0.0
    ensures forall x | x in PopulationAt(initial, unique, rate, draws, g) :: x in initial
  {
    if g > 0 {
      var prev := PopulationAt(initial, unique, rate, draws, g - 1);
      PopulationAtWithoutMutation(initial, unique, rate, draws, g - 1);
      ResampledWithoutMutation(prev, unique, rate, draws[g - 1]);
    }
  }

  /** One row of results: the generation and its two indices. */
  datatype Row = Row(generation: nat, haplotypeDiversity: real, shannonIndex: real)

  /** The row recorded for the population after `g` generations. */
  function RowAt(initial: seq<string>, unique: seq<string>, rate: real, draws: seq<seq<OffspringDraw>>,
                 ln: real -> real, g: nat): Row
    requires g <= |draws| && RunFits(draws, |initial|, |unique|, rate)
  {
    RowOf(g, PopulationAt(initial, unique, rate, draws, g), ln)
  }

  /** `RowAt` for a fixed run, as a function of the generation. */
  function RowFunction(initial: seq<string>, unique: seq<string>, rate: real, draws: seq<seq<OffspringDraw>>,
                       ln: real -> real): (f: nat --> Row)
    ensures forall g: nat | g <= |draws| && RunFits(draws, |initial|, |unique|, rate) :: f.requires(g)
  {
    (g: nat) requires g <= |draws| && RunFits(draws, |initial|, |unique|, rate) => RowAt(initial, unique, rate, draws, ln, g)
  }

  /** The rows of the first `n` generations. */
  function Rows(initial: seq<string>, unique: seq<string>, rate: real, draws: seq<seq<OffspringDraw>>,
                ln: real -> real, n: nat): (rows: seq<Row>)
    requires n <= |draws| && RunFits(draws, |initial|, |unique|, rate)
    ensures |rows| == n
  {
    Tabulate(RowFunction(initial, unique, rate, draws, ln), n)
  }

  /** Row `g` of the first `n` generations is the row of generation `g`. */
  lemma RowsAt(initial: seq<string>, unique: seq<string>, rate: real, draws: seq<seq<OffspringDraw>>,
               ln: real -> real, n: nat)
    requires n <= |draws| && RunFits(draws, |initial|, |unique|, rate)
    ensures forall g | 0 <= g < n :: Rows(initial, unique, rate, draws, ln, n)[g] == RowAt(initial, unique, rate, draws, ln, g)
  {
    TabulateAt(RowFunction(initial, unique, rate, draws, ln), n);
  }

  /** One more generation appends its row. */
  lemma RowsSnoc(initial: seq<string>, unique: seq<string>, rate: real, draws: seq<seq<OffspringDraw>>,
                 ln: real -> real, n: nat)
    requires n < |draws| && RunFits(draws, |initial|, |unique|, rate)
    ensures Rows(initial, unique, rate, draws, ln, n + 1)
      == Rows(initial, unique, rate, draws, ln, n) + [RowOf(n, PopulationAt(initial, unique, rate, draws, n), ln)]
  {
  }

  /** The row recorded for generation `g` of population `pop`. */
  function RowOf(g: nat, pop: seq<string>, ln: real -> real): Row {
    Row(g, HaplotypeDiversity(pop), Shannon(pop, ln))
  }

  /** `run_diversity_simulation` once the table is read: expand it, then for
      each generation record Hd and Shannon's index of the current
      population and replace it by its resampled offspring. */
  method RunDiversitySimulation(table: CountTable, generations: nat := 50, mutationRate: real := 0.1, ln: real -> real,
                                draws: seq<seq<OffspringDraw>>) returns (results: seq<Row>)
    requires PyDict.Valid(table)
    requires |draws| == generations
    requires RunFits(draws, |Expansion(table.keys, table.entries)|, |table.keys|, mutationRate)
    ensures |results| == generations
    ensures forall g | 0 <= g < generations ::
      results[g] == RowAt(Expansion(table.keys, table.entries), table.keys, mutationRate, draws, ln, g)
  {
    ghost var initial := Expansion(table.keys, table.entries);
    var uniqueHaplotypes := table.keys;
    var population := Expand(table);
    results := [];
    var currentPopulation := population;
    for gen := 0 to generations
      invariant |results| == gen
      invariant currentPopulation == PopulationAt(initial, uniqueHaplotypes, mutationRate, draws, gen)
      invariant results == Rows(initial, uniqueHaplotypes, mutationRate, draws, ln, gen)
    {
      var hd := HaplotypeDiversity(currentPopulation);
      var shannon := Shannon(currentPopulation, ln);
      RowsSnoc(initial, uniqueHaplotypes, mutationRate, draws, ln, gen);
      results := results + [Row(gen, hd, shannon)];
      currentPopulation := NextGeneration(currentPopulation, uniqueHaplotypes, mutationRate, draws[gen]);
    }
    RowsAt(initial, uniqueHaplotypes, mutationRate, draws, ln, generations);
  }

  /** Every generation of a run has the expanded population's size, the
      sum of the counts, and only the table's labels. */
  lemma RunInvariants(table: CountTable, mutationRate: real, draws: seq<seq<OffspringDraw>>, g: nat)
    requires PyDict.Valid(table)
    requires g <= |draws| && RunFits(draws, |Expansion(table.keys, table.entries)|, |table.keys|, mutationRate)
    ensures |PopulationAt(Expansion(table.keys, table.entries), table.keys, mutationRate, draws, g)|
      == TotalCopies(table.keys, table.entries)
    ensures forall x | x in PopulationAt(Expansion(table.keys, table.entries), table.keys, mutationRate, draws, g) ::
      x in table.keys
  {
    var initial := Expansion(table.keys, table.entries);
    ExpansionLength(table.keys, table.entries);
    ExpansionWithinKeys(table.keys, table.entries);
    PopulationAtWithinTable(initial, table.keys, mutationRate, draws, g);
  }
}
