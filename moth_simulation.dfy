/** The agent-based moth model: `MothAgent` and `MothModel`, whose methods
    update their fields in place as model/MothAgent.py and
    model/mothModel.py do. Each method is proved against the value-level
    definitions of module Selection; the random draws are parameters. */
module MothSimulation {
  import opened Tally
  import opened Diversity
  import opened Selection
  import opened Shuffling
  import PyDict

  /** One haplotype pool entry: its representative sequence and frequency. */
  datatype HaplotypeRecord = HaplotypeRecord(sequence: string, frequency: real)

  type Pool = PyDict.Dict<string, HaplotypeRecord>

  /** The model-level values the data collector records each time. */
  datatype Snapshot = Snapshot(diversity: real, population: nat, freqLight: nat, freqDark: nat)

  /** The sum of the pool's frequencies, the total weight `random.choices`
      draws the seeding haplotypes with. */
  function TotalWeight(keys: seq<string>, pool: Pool): real
    requires forall i :: 0 <= i < |keys| ==> keys[i] in pool.entries
  {
    if keys == [] then 0.0
    else TotalWeight(keys[..|keys| - 1], pool) + pool.entries[keys[|keys| - 1]].frequency
  }

  /** The pressure in effect after `steps` steps: the schedule's first value
      at construction, then the value for each step taken, the last value
      being held once the schedule runs out. */
  function PressureAfter(schedule: seq<real>, steps: nat): real
    requires |schedule| > 0
  {
    var i := if steps == 0 then 0 else steps - 1;
    schedule[if i < |schedule| then i else |schedule| - 1]
  }

  /** One more step moves to the schedule's next value, or holds the
      current one once the schedule has run out. */
  lemma PressureAfterNext(schedule: seq<real>, steps: nat)
    requires |schedule| > 0
    ensures PressureAfter(schedule, steps + 1) ==
      if steps < |schedule| then schedule[steps] else PressureAfter(schedule, steps)
  {
  }

  /** The colony after one model step from `c`: the list shuffled with
      `js`, then each moth of the shuffled list acts once, in order. */
  function StepColony(c: Colony, js: seq<nat>, env: real, w: World, draws: seq<AgentDraws>): Colony
    requires ValidSwapDraws(js, |c.agents|) && |draws| == |c.agents| && WorldValid(w) && DrawsFit(draws, w)
  {
    var order := Shuffled(c.agents, js);
    ActAll(Selection.Colony(order, c.lastId), Ids(order), env, w, draws)
  }

  function UniqueId(s: AgentState): nat {
    s.uniqueId
  }

  /** Shuffling a valid colony leaves it valid: the same agents, ids still
      distinct and issued, each still consistent. */
  lemma ShuffledColonyValid(c: Colony, js: seq<nat>, w: World)
    requires ValidSwapDraws(js, |c.agents|) && ColonyValid(c, w)
    ensures ColonyValid(Selection.Colony(Shuffled(c.agents, js), c.lastId), w)
  {
    var order := Shuffled(c.agents, js);
    ShuffledIsPermutation(c.agents, js);
    assert DistinctUnder(c.agents, UniqueId) by {
      forall i, j | 0 <= i < j < |c.agents| ensures UniqueId(c.agents[i]) != UniqueId(c.agents[j]) {
        assert Ids(c.agents)[i] != Ids(c.agents)[j];
      }
    }
    ShuffledKeepsDistinct(c.agents, js, UniqueId);
    forall i, j | 0 <= i < j < |order| ensures Ids(order)[i] != Ids(order)[j] {
      assert UniqueId(order[i]) != UniqueId(order[j]);
    }
    forall i | 0 <= i < |order| ensures 1 <= order[i].uniqueId <= c.lastId && Consistent(order[i], w) {
      assert order[i] in c.agents;
      var k :| 0 <= k < |c.agents| && c.agents[k] == order[i];
    }
  }

  /** A whole model step keeps the colony valid. */
  lemma StepColonyValid(c: Colony, js: seq<nat>, env: real, w: World, draws: seq<AgentDraws>)
    requires ValidSwapDraws(js, |c.agents|) && |draws| == |c.agents| && WorldValid(w) && DrawsFit(draws, w)
    requires ColonyValid(c, w)
    ensures ColonyValid(StepColony(c, js, env, w, draws), w)
  {
    var order := Shuffled(c.agents, js);
    ShuffledIsPermutation(c.agents, js);
    ShuffledColonyValid(c, js, w);
    ActAllValid(Selection.Colony(order, c.lastId), Ids(order), env, w, draws);
  }

  function Haplotypes(pop: seq<AgentState>): (hs: seq<string>)
    ensures |hs| == |pop| && forall i :: 0 <= i < |pop| ==> hs[i] == pop[i].haplotypeId
  {
    seq(|pop|, i requires 0 <= i < |pop| => pop[i].haplotypeId)
  }

  function Phenotypes(pop: seq<AgentState>): (ps: seq<string>)
    ensures |ps| == |pop| && forall i :: 0 <= i < |pop| ==> ps[i] == pop[i].phenotype
  {
    seq(|pop|, i requires 0 <= i < |pop| => pop[i].phenotype)
  }

  /** What is recorded for a population: the Shannon index of its
      haplotypes, its size and the numbers of light and dark moths. */
  function SnapshotOf(pop: seq<AgentState>, ln: real -> real): Snapshot {
    Snapshot(Shannon(Haplotypes(pop), ln), |pop|, Count(Phenotypes(pop), Light), Count(Phenotypes(pop), Dark))
  }

  /** When every moth is light or dark, the snapshot's two phenotype
      counts add up to its population. */
  lemma SnapshotCountsAddUp(pop: seq<AgentState>, ln: real -> real)
    requires forall i :: 0 <= i < |pop| ==> pop[i].phenotype == Light || pop[i].phenotype == Dark
    ensures SnapshotOf(pop, ln).freqLight + SnapshotOf(pop, ln).freqDark == SnapshotOf(pop, ln).population
  {
    CountTwoLabels(Phenotypes(pop), Light, Dark);
  }

  /** The snapshot of an empty population has diversity 0, and so has that
      of a population sharing one haplotype (given ln(1) = 0). */
  lemma SnapshotDiversityOfOneHaplotype(pop: seq<AgentState>, ln: real -> real)
    requires ln(1.0) == 0.0
    requires forall i, j :: 0 <= i < |pop| && 0 <= j < |pop| ==> pop[i].haplotypeId == pop[j].haplotypeId
    ensures SnapshotOf(pop, ln).diversity == 0.0
  {
    var hs := Haplotypes(pop);
    if pop == [] {
      ShannonOfEmpty(hs, ln);
    } else {
      ShannonMonomorphic(hs, ln);
    }
  }

  /** The agents seeding creates: the i-th has id i+1, the pool key chosen
      for it, that key's phenotype and fitness 1. */
  function Seeded(keys: seq<string>, phenotypeOf: map<string, string>, choices: seq<nat>): (pop: seq<AgentState>)
    requires forall i :: 0 <= i < |choices| ==> choices[i] < |keys| && keys[choices[i]] in phenotypeOf
    ensures |pop| == |choices|
  {
    if choices == [] then []
    else
      var k := |choices| - 1;
      var h := keys[choices[k]];
      Seeded(keys, phenotypeOf, choices[..k]) + [AgentState(k + 1, h, phenotypeOf[h], 1.0)]
  }

  /** The i-th seeded agent has id i + 1 and the pool key the i-th choice
      names, with that key's phenotype and fitness 1. */
  lemma {:induction false} SeededAt(keys: seq<string>, phenotypeOf: map<string, string>, choices: seq<nat>, i: nat)
    requires forall i :: 0 <= i < |choices| ==> choices[i] < |keys| && keys[choices[i]] in phenotypeOf
    requires i < |choices|
    ensures Seeded(keys, phenotypeOf, choices)[i] == AgentState(i + 1, keys[choices[i]], phenotypeOf[keys[choices[i]]], 1.0)
    decreases |choices|
  {
    var k := |choices| - 1;
    if i < k {
      SeededAt(keys, phenotypeOf, choices[..k], i);
    }
  }

  function IdOf(a: MothAgent): nat {
    a.uniqueId
  }

  /** The states of the agents in `agents`, in list order. */
  function StatesOf(agents: seq<MothAgent>): (r: seq<AgentState>)
    reads agents
    ensures |r| == |agents| && forall i :: 0 <= i < |agents| ==> r[i] == agents[i].State()
  {
    seq(|agents|, i reads agents requires 0 <= i < |agents| => agents[i].State())
  }

  /** `sum(1 for a in agents if a.phenotype == phenotypeLabel)`. */
  function CountPhenotypeIn(agents: seq<MothAgent>, phenotypeLabel: string): (n: nat)
    reads agents
    ensures n == Count(Phenotypes(StatesOf(agents)), phenotypeLabel)
  {
    if agents == [] then 0
    else
      var k := |agents| - 1;
      var ps := Phenotypes(StatesOf(agents));
      assert Phenotypes(StatesOf(agents[..k])) == ps[..k];
      assert ps == ps[..k] + [ps[k]];
      CountSnoc(ps[..k], ps[k], phenotypeLabel);
      CountPhenotypeIn(agents[..k], phenotypeLabel) + (if agents[k].phenotype == phenotypeLabel then 1 else 0)
  }

  /** Object-level validity of a list of agents of `m`, in terms of the
      value-level `ColonyValid`: distinct objects with distinct issued ids,
      each consistent with the pool. */
  lemma ColonyOfMembers(agents: seq<MothAgent>, lastId: nat, w: World)
    requires DistinctUnder(agents, IdOf)
    requires forall a | a in agents :: 1 <= a.uniqueId <= lastId && Consistent(a.State(), w)
    ensures ColonyValid(Colony(StatesOf(agents), lastId), w)
  {
    var pop := StatesOf(agents);
    forall i, j | 0 <= i < j < |pop| ensures Ids(pop)[i] != Ids(pop)[j] {
      assert IdOf(agents[i]) != IdOf(agents[j]);
    }
    forall i | 0 <= i < |pop| ensures 1 <= pop[i].uniqueId <= lastId && Consistent(pop[i], w) {
      assert agents[i] in agents;
    }
  }

  lemma MembersOfColony(agents: seq<MothAgent>, lastId: nat, w: World)
    requires ColonyValid(Colony(StatesOf(agents), lastId), w)
    ensures DistinctUnder(agents, IdOf)
    ensures forall a | a in agents :: 1 <= a.uniqueId <= lastId && Consistent(a.State(), w)
  {
    var pop := StatesOf(agents);
    forall i, j | 0 <= i < j < |agents| ensures IdOf(agents[i]) != IdOf(agents[j]) {
      assert Ids(pop)[i] != Ids(pop)[j];
    }
    forall a | a in agents ensures 1 <= a.uniqueId <= lastId && Consistent(a.State(), w) {
      var i :| 0 <= i < |agents| && agents[i] == a;
      assert pop[i] == a.State();
    }
  }

  lemma StatesOfRemove(agents: seq<MothAgent>, i: nat)
    requires i < |agents|
    ensures StatesOf(agents[..i] + agents[i + 1..]) == StatesOf(agents)[..i] + StatesOf(agents)[i + 1..]
  {
    var rest := agents[..i] + agents[i + 1..];
    var all := StatesOf(agents);
    var lhs := StatesOf(rest);
    var rhs := all[..i] + all[i + 1..];
    forall k | 0 <= k < |rest| ensures lhs[k] == rhs[k] {
      if k < i {
        assert rest[k] == agents[k];
      } else {
        assert rest[k] == agents[k + 1];
      }
    }
  }

  lemma StatesOfSnoc(agents: seq<MothAgent>, a: MothAgent)
    ensures StatesOf(agents + [a]) == StatesOf(agents) + [a.State()]
  {
  }

  /** Seeding yields a valid colony: ids 1..N, each agent on a pool key
      with that key's phenotype. */
  lemma SeededIsValid(keys: seq<string>, phenotypeOf: map<string, string>, choices: seq<nat>, rate: real)
    requires forall i :: 0 <= i < |choices| ==> choices[i] < |keys| && keys[choices[i]] in phenotypeOf
    ensures ColonyValid(Colony(Seeded(keys, phenotypeOf, choices), |choices|), World(keys, phenotypeOf, rate))
  {
    SeededIdsDistinct(keys, phenotypeOf, choices);
    SeededConsistent(keys, phenotypeOf, choices, rate);
  }

  lemma SeededIdsDistinct(keys: seq<string>, phenotypeOf: map<string, string>, choices: seq<nat>)
    requires forall i :: 0 <= i < |choices| ==> choices[i] < |keys| && keys[choices[i]] in phenotypeOf
    ensures NoDuplicates(Ids(Seeded(keys, phenotypeOf, choices)))
  {
    var pop := Seeded(keys, phenotypeOf, choices);
    var ids := Ids(pop);
    forall i, j | 0 <= i < j < |pop| ensures ids[i] != ids[j] {
      SeededAt(keys, phenotypeOf, choices, i);
      SeededAt(keys, phenotypeOf, choices, j);
      assert ids[i] == pop[i].uniqueId == i + 1;
      assert ids[j] == pop[j].uniqueId == j + 1;
    }
  }

  lemma SeededConsistent(keys: seq<string>, phenotypeOf: map<string, string>, choices: seq<nat>, rate: real)
    requires forall i :: 0 <= i < |choices| ==> choices[i] < |keys| && keys[choices[i]] in phenotypeOf
    ensures forall i | 0 <= i < |choices| :: Consistent(Seeded(keys, phenotypeOf, choices)[i], World(keys, phenotypeOf, rate))
  {
    var pop := Seeded(keys, phenotypeOf, choices);
    forall i | 0 <= i < |pop| ensures Consistent(pop[i], World(keys, phenotypeOf, rate)) {
      SeededAt(keys, phenotypeOf, choices, i);
      assert keys[choices[i]] in keys;
    }
  }

  /** `counts` is the `Counter` of `s`: its keys in first-occurrence order,
      each mapped to its number of occurrences. */
  ghost predicate CountsOf(counts: PyDict.Dict<string, nat>, s: seq<string>) {
    && PyDict.Valid(counts) && counts.keys == Distinct(s)
    && forall k | k in counts.entries :: counts.entries[k] == Count(s, k)
  }

  /** `counts[h] = counts.get(h, 0) + 1` extends the counts of `s` to those
      of `s + [h]`. */
  lemma CountsStep(counts: PyDict.Dict<string, nat>, s: seq<string>, h: string)
    requires CountsOf(counts, s)
    ensures CountsOf(PyDict.Put(counts, h, PyDict.GetOr(counts, h, 0) + 1), s + [h])
  {
    var v := PyDict.GetOr(counts, h, 0) + 1;
    PyDict.PutKeysFollowDistinct(counts, s, h, v);
    var r := PyDict.Put(counts, h, v);
    forall k | k in r.entries ensures r.entries[k] == Count(s + [h], k) {
      CountSnoc(s, h, k);
      if k != h {
        assert k in counts.entries && r.entries[k] == counts.entries[k];
      } else if h in counts.entries {
        assert r.entries[h] == Count(s, h) + 1;
      } else {
        assert h !in Distinct(s);
        assert r.entries[h] == 1 && Count(s, h) == 0;
      }
    }
  }

  /** Σ m[k] over the keys `ks`: `sum(counts.values())`. */
  function SumValues(m: map<string, nat>, ks: seq<string>): nat
    requires forall i :: 0 <= i < |ks| ==> ks[i] in m
  {
    if ks == [] then 0 else SumValues(m, ks[..|ks| - 1]) + m[ks[|ks| - 1]]
  }

  /** Σ p·ln p over the keys `ks`, with p = m[k] / n. */
  function EntropyOfCounts(m: map<string, nat>, ks: seq<string>, n: nat, ln: real -> real): real
    requires forall i :: 0 <= i < |ks| ==> ks[i] in m
  {
    if ks == [] then 0.0 else EntropyOfCounts(m, ks[..|ks| - 1], n, ln) + EntropyTerm(m[ks[|ks| - 1]], n, ln)
  }

  /** One more key in each fold. */
  lemma FoldStep(m: map<string, nat>, ks: seq<string>, j: nat, n: nat, ln: real -> real)
    requires j < |ks| && forall i :: 0 <= i < |ks| ==> ks[i] in m
    ensures SumValues(m, ks[..j + 1]) == SumValues(m, ks[..j]) + m[ks[j]]
    ensures EntropyOfCounts(m, ks[..j + 1], n, ln) == EntropyOfCounts(m, ks[..j], n, ln) + EntropyTerm(m[ks[j]], n, ln)
  {
    assert ks[..j + 1][..j] == ks[..j];
  }

  lemma {:induction false} SumValuesOfCounts(m: map<string, nat>, ks: seq<string>, s: seq<string>, ln: real -> real)
    requires forall i :: 0 <= i < |ks| ==> ks[i] in m && m[ks[i]] == Count(s, ks[i])
    ensures SumValues(m, ks) == SumCounts(ks, s)
    ensures EntropyOfCounts(m, ks, |s|, ln) == EntropySum(ks, s, ln)
  {
    if ks != [] {
      SumValuesOfCounts(m, ks[..|ks| - 1], s, ln);
    }
  }

  /** The dictionary of counts of `s` yields the total |s| and Shannon's
      index of `s`. */
  lemma CountsGiveShannon(counts: PyDict.Dict<string, nat>, s: seq<string>, ln: real -> real)
    requires CountsOf(counts, s)
    ensures SumValues(counts.entries, counts.keys) == |s|
    ensures -EntropyOfCounts(counts.entries, counts.keys, |s|, ln) == Shannon(s, ln)
  {
    SumValuesOfCounts(counts.entries, counts.keys, s, ln);
    SumCountsOfDistinct(s);
  }

  /** The second half of `compute_shannon_diversity`: the total of a
      dictionary of counts, then H = -Σ p·ln p with p = c / total over its
      values in key order. */
  method CountsEntropy(counts: PyDict.Dict<string, nat>, ln: real -> real) returns (h: real)
    requires PyDict.Valid(counts)
    ensures h == -EntropyOfCounts(counts.entries, counts.keys, SumValues(counts.entries, counts.keys), ln)
  {
    var keys := counts.keys;
    var total: nat := 0;
    for j := 0 to |keys|
      invariant total == SumValues(counts.entries, keys[..j])
    {
      total := total + counts.entries[keys[j]];
      FoldStep(counts.entries, keys, j, 0, ln);
    }
    assert keys[..|keys|] == keys;
    h := 0.0;
    for j := 0 to |keys|
      invariant h == -EntropyOfCounts(counts.entries, keys[..j], total, ln)
    {
      var c := counts.entries[keys[j]];
      // p = c / total; the summand is p * ln(p) when p > 0, else 0
      var term := EntropyTerm(c, total, ln);
      FoldStep(counts.entries, keys, j, total, ln);
      h := h - term;
    }
    assert keys[..|keys|] == keys;
  }

  /** Swapping agents swaps their states. */
  lemma StatesOfSwap(agents: seq<MothAgent>, i: nat, j: nat)
    requires i < |agents| && j < |agents|
    ensures StatesOf(Swap(agents, i, j)) == Swap(StatesOf(agents), i, j)
  {
  }

  /** Shuffling the agents shuffles their states the same way. */
  lemma {:induction false} StatesOfShuffleFrom(agents: seq<MothAgent>, js: seq<nat>, i: nat)
    requires i <= |agents| && ValidSwapDraws(js, |agents|)
    ensures StatesOf(ShuffleFrom(agents, js, i)) == ShuffleFrom(StatesOf(agents), js, i)
    decreases i
  {
    if i > 1 {
      StatesOfSwap(agents, i - 1, js[i - 1]);
      StatesOfShuffleFrom(Swap(agents, i - 1, js[i - 1]), js, i - 1);
    }
  }

  /** Shuffling the agents shuffles their states the same way and keeps
      the agents, and their distinct ids. */
  lemma ShuffleFacts(agents: seq<MothAgent>, js: seq<nat>)
    requires ValidSwapDraws(js, |agents|) && DistinctUnder(agents, IdOf)
    ensures StatesOf(Shuffled(agents, js)) == Shuffled(StatesOf(agents), js)
    ensures DistinctUnder(Shuffled(agents, js), IdOf)
    ensures forall a :: a in Shuffled(agents, js) <==> a in agents
  {
    StatesOfShuffleFrom(agents, js, |agents|);
    ShuffledIsPermutation(agents, js);
    ShuffledKeepsDistinct(agents, js, IdOf);
  }

  /** An agent other than `a` stays in the list when `a` is removed. */
  lemma RemoveKeepsOthers<T>(s: seq<T>, a: T, x: T)
    requires x in s && x != a
    ensures x in Remove(s, a)
  {
    if a in s {
      var i := IndexOf(s, a);
      var k :| 0 <= k < |s| && s[k] == x;
      if k < i {
        assert (s[..i] + s[i + 1..])[k] == x;
      } else {
        assert k != i;
        assert (s[..i] + s[i + 1..])[k - 1] == x;
      }
    }
  }

  class MothAgent {
    const uniqueId: nat
    const model: MothModel
    var haplotypeId: string
    var phenotype: string
    var fitness: real

    function State(): AgentState
      reads this
    {
      AgentState(uniqueId, haplotypeId, phenotype, fitness)
    }

    /** A new moth keeps the id, model, haplotype and phenotype it is given
        and starts with fitness 1. */
    constructor(uniqueId: nat, model: MothModel, haplotypeId: string, phenotype: string)
      ensures State() == AgentState(uniqueId, haplotypeId, phenotype, 1.0)
      ensures this.model == model
    {
      this.uniqueId := uniqueId;
      this.model := model;
      this.haplotypeId := haplotypeId;
      this.phenotype := phenotype;
      this.fitness := 1.0;
    }

    /** Fitness from the phenotype and the model's current pressure. */
    method CalculateFitness()
      modifies this`fitness
      ensures fitness == Fitness(phenotype, model.environmentalPressure)
    {
      var env := model.environmentalPressure;
      if phenotype == Dark {
        fitness := 1.0 * env + 0.5 * (1.0 - env);
      } else {
        fitness := 0.5 * env + 1.0 * (1.0 - env);
      }
    }

    /** One step of this moth with draws `d`: the model's population moves
        as `ActOne` says, and the list itself loses this moth, gains one
        fresh child at its end, or stays as it was. */
    method Step(d: AgentDraws)
      requires model.AgentsValid() && this in model.agentList
      requires d.choice < |model.pool.keys|
      modifies this, model`agentList, model`numAgents
      ensures model.AgentsValid()
      ensures State() == AfterMutation(old(State()), model.environmentalPressure, model.World(), d)
      ensures model.Colony() == Settle(old(model.Colony()), IndexOf(old(model.agentList), this), State(), model.environmentalPressure, d)
      ensures Dies(State()) ==> model.agentList == Remove(old(model.agentList), this)
      ensures !Dies(State()) && Reproduces(State(), model.environmentalPressure, d) ==>
        && |model.agentList| == |old(model.agentList)| + 1
        && model.agentList[..|old(model.agentList)|] == old(model.agentList)
        && fresh(model.agentList[|old(model.agentList)|])
      ensures !Dies(State()) && !Reproduces(State(), model.environmentalPressure, d) ==>
        model.agentList == old(model.agentList)
      ensures forall a | a in model.agentList :: a in old(model.agentList) || fresh(a)
    {
      ghost var c := model.Colony();
      ghost var i := IndexOf(model.agentList, this);
      Mutate(d);
      LeaveOrReproduce(d, c, i);
    }

    /** The last two parts of `step`, once this moth, the `i`-th of colony
        `c`, has mutated: below the death threshold it leaves; otherwise a
        reproduction draw below fitness times pressure adds one child. */
    method LeaveOrReproduce(d: AgentDraws, ghost c: Colony, ghost i: nat)
      requires model.AgentsValid() && this in model.agentList
      requires i < |c.agents| && i == IndexOf(model.agentList, this)
      requires model.Colony() == Colony(c.agents[i := State()], c.lastId)
      modifies model`agentList, model`numAgents
      ensures model.AgentsValid()
      ensures model.Colony() == Settle(c, i, State(), model.environmentalPressure, d)
      ensures Dies(State()) ==> model.agentList == Remove(old(model.agentList), this)
      ensures !Dies(State()) && Reproduces(State(), model.environmentalPressure, d) ==>
        && |model.agentList| == |old(model.agentList)| + 1
        && model.agentList[..|old(model.agentList)|] == old(model.agentList)
        && fresh(model.agentList[|old(model.agentList)|])
      ensures !Dies(State()) && !Reproduces(State(), model.environmentalPressure, d) ==>
        model.agentList == old(model.agentList)
      ensures forall a | a in model.agentList :: a in old(model.agentList) || fresh(a)
    {
      ghost var s := State();
      if fitness < DeathThreshold {
        Leave();
        assert c.agents[i := s][..i] == c.agents[..i] && c.agents[i := s][i + 1..] == c.agents[i + 1..];
        return;
      }
      var reproduceProb := ReproduceProbability(fitness, model.environmentalPressure);
      if d.reproduction < reproduceProb {
        GiveBirth();
      }
    }

    /** The first two parts of `step`: fitness is recomputed, and with a
        mutation draw below the rate the moth takes the pool key at
        `d.choice`, its phenotype and the fitness that goes with it. Only
        this moth's state in the model's list changes. */
    method Mutate(d: AgentDraws)
      requires model.AgentsValid() && this in model.agentList
      requires d.choice < |model.pool.keys|
      modifies this
      ensures model.AgentsValid()
      ensures State() == AfterMutation(old(State()), model.environmentalPressure, model.World(), d)
      ensures model.Population() == old(model.Population())[IndexOf(model.agentList, this) := State()]
    {
      ghost var agents := model.agentList;
      ghost var c := model.Colony();
      ghost var i := IndexOf(agents, this);
      ColonyOfMembers(agents, c.lastId, model.World());
      CalculateFitness();
      if d.mutation < model.mutationRate {
        var possible := model.pool.keys;
        var newHid := possible[d.choice];
        haplotypeId := newHid;
        phenotype := model.phenotypeOf[newHid];
        CalculateFitness();
      }
      forall j | 0 <= j < |agents| && j != i ensures agents[j] != this {
        assert IdOf(agents[j]) != IdOf(agents[i]) by {
          if j < i {} else {}
        }
      }
      assert model.Population() == c.agents[i := State()];
      AfterMutationConsistent(c.agents[i], model.environmentalPressure, model.World(), d);
      UpdateKeepsValid(c, i, State(), model.World());
      MembersOfColony(agents, c.lastId, model.World());
    }

    /** The third part of `step`: a moth whose fitness fell below the
        threshold leaves the model's list, the others keeping their order. */
    method Leave()
      requires model.AgentsValid() && this in model.agentList
      modifies model`agentList
      ensures model.AgentsValid()
      ensures model.agentList == Remove(old(model.agentList), this)
      ensures forall a | a in model.agentList :: a in old(model.agentList)
      ensures model.Population() ==
        old(model.Population()[..IndexOf(model.agentList, this)] + model.Population()[IndexOf(model.agentList, this) + 1..])
    {
      ghost var agents := model.agentList;
      ghost var c := model.Colony();
      ghost var i := IndexOf(agents, this);
      ColonyOfMembers(agents, c.lastId, model.World());
      StatesOfRemove(agents, i);
      ghost var rest := StatesOf(agents[..i] + agents[i + 1..]);
      if this in model.agentList {
        model.agentList := Remove(model.agentList, this);
      }
      assert model.Population() == rest;
      RemoveKeepsValid(c, i, model.World());
      MembersOfColony(model.agentList, c.lastId, model.World());
    }

    /** The fourth part of `step`: a child with the next id and this moth's
        haplotype and phenotype is appended to the model's list. */
    method GiveBirth()
      requires model.AgentsValid() && this in model.agentList
      modifies model`agentList, model`numAgents
      ensures model.AgentsValid()
      ensures model.numAgents == old(model.numAgents) + 1
      ensures |model.agentList| == |old(model.agentList)| + 1
      ensures model.agentList[..|old(model.agentList)|] == old(model.agentList)
      ensures fresh(model.agentList[|old(model.agentList)|])
      ensures forall a | a in model.agentList :: a in old(model.agentList) || fresh(a)
      ensures model.Population() == old(model.Population()) + [Child(model.numAgents, State())]
    {
      ghost var agents := model.agentList;
      ghost var c := model.Colony();
      ghost var w := model.World();
      ColonyOfMembers(agents, c.lastId, w);
      BirthKeepsValid(c, State(), w);
      var newId := model.NextId();
      var child := new MothAgent(newId, model, haplotypeId, phenotype);
      model.agentList := model.agentList + [child];
      StatesOfSnoc(agents, child);
      assert model.Colony() == Colony(c.agents + [Child(c.lastId + 1, State())], c.lastId + 1);
      MembersOfColony(model.agentList, model.numAgents, w);
    }
  }

  class MothModel {
    const pool: Pool
    const phenotypeOf: map<string, string>
    const mutationRate: real
    /** Stored as given; no rule reads it. */
    const maxFitnessValue: real
    const schedule: seq<real>
    /** The natural logarithm the Shannon index is computed with. */
    const ln: real -> real
    var currentStep: nat
    var environmentalPressure: real
    var agentList: seq<MothAgent>
    var numAgents: nat
    var snapshots: seq<Snapshot>

    function World(): World {
      Selection.World(pool.keys, phenotypeOf, mutationRate)
    }

    function Population(): seq<AgentState>
      reads this`agentList, agentList
    {
      StatesOf(agentList)
    }

    function Colony(): Colony
      reads this`agentList, this`numAgents, agentList
    {
      Selection.Colony(Population(), numAgents)
    }

    /** The agents belong to this model, are distinct with distinct ids
        issued by `NextId`, and agree with the pool and phenotype table. */
    ghost predicate AgentsValid()
      reads this`agentList, this`numAgents, agentList
    {
      && PyDict.Valid(pool) && WorldValid(World())
      && DistinctUnder(agentList, IdOf)
      && (forall a | a in agentList :: a.model == this)
      && (forall a | a in agentList :: 1 <= a.uniqueId <= numAgents && Consistent(a.State(), World()))
    }

    /** `AgentsValid`, one snapshot per step plus the one taken at
        construction, and the pressure the schedule prescribes. */
    ghost predicate Valid()
      reads this`agentList, this`numAgents, this`snapshots, this`currentStep, this`environmentalPressure, agentList
    {
      && AgentsValid()
      && |schedule| > 0
      && |snapshots| == currentStep + 1
      && environmentalPressure == PressureAfter(schedule, currentStep)
    }

    /** Seeds `nInitial` agents, one per entry of `seedChoices` (the pool
        index each weighted draw picked), then records the first snapshot. */
    constructor(nInitial: nat, pool: Pool, phenotypeOf: map<string, string>, mutationRate: real,
                schedule: seq<real>, ln: real -> real, seedChoices: seq<nat>, maxFitnessValue: real := 1.5)
      requires |schedule| > 0
      requires PyDict.Valid(pool)
      requires forall i :: 0 <= i < |pool.keys| ==> pool.keys[i] in phenotypeOf
      requires nInitial > 0 ==> TotalWeight(pool.keys, pool) > 0.0
      requires |seedChoices| == nInitial
      requires forall i :: 0 <= i < nInitial ==> seedChoices[i] < |pool.keys|
      ensures Valid()
      ensures this.pool == pool && this.phenotypeOf == phenotypeOf && this.mutationRate == mutationRate
      ensures this.schedule == schedule && this.ln == ln && this.maxFitnessValue == maxFitnessValue
      ensures currentStep == 0 && environmentalPressure == schedule[0]
      ensures numAgents == nInitial
      ensures Population() == Seeded(pool.keys, phenotypeOf, seedChoices)
      ensures snapshots == [SnapshotOf(Population(), ln)]
      ensures forall a | a in agentList :: fresh(a)
    {
      this.pool := pool;
      this.phenotypeOf := phenotypeOf;
      this.mutationRate := mutationRate;
      this.maxFitnessValue := maxFitnessValue;
      this.schedule := schedule;
      this.ln := ln;
      currentStep := 0;
      environmentalPressure := schedule[0];
      agentList := [];
      numAgents := 0;
      snapshots := [];
      new;
      Populate(seedChoices);
    }

    /** The constructor's work once its fields are set: the seeding loop,
        then the first snapshot. */
    method Populate(choices: seq<nat>)
      requires agentList == [] && numAgents == 0 && snapshots == []
      requires PyDict.Valid(pool) && WorldValid(World())
      requires forall i :: 0 <= i < |choices| ==> choices[i] < |pool.keys|
      requires |schedule| > 0 && currentStep == 0 && environmentalPressure == schedule[0]
      modifies this`agentList, this`numAgents, this`snapshots
      ensures Valid()
      ensures numAgents == |choices|
      ensures Population() == Seeded(pool.keys, phenotypeOf, choices)
      ensures snapshots == [SnapshotOf(Population(), ln)]
      ensures forall a | a in agentList :: fresh(a)
    {
      Seed(choices);
      ghost var objects: seq<object> := agentList;
      assert this !in objects;
      FirstCollect();
    }

    /** The constructor's closing `datacollector.collect(self)`: the first
        snapshot, after which the model is valid. */
    method FirstCollect()
      requires AgentsValid() && snapshots == []
      requires |schedule| > 0 && currentStep == 0 && environmentalPressure == schedule[0]
      modifies this`snapshots
      ensures Valid()
      ensures snapshots == [SnapshotOf(Population(), ln)]
    {
      ghost var objects: seq<object> := agentList;
      assert this !in objects;
      Collect();
    }

    /** The seeding loop of the constructor: one `AddInitialAgent` per
        entry of `choices`. */
    method Seed(choices: seq<nat>)
      requires agentList == [] && numAgents == 0
      requires PyDict.Valid(pool) && WorldValid(World())
      requires forall i :: 0 <= i < |choices| ==> choices[i] < |pool.keys|
      modifies this`agentList, this`numAgents
      ensures AgentsValid()
      ensures numAgents == |choices|
      ensures Population() == Seeded(pool.keys, phenotypeOf, choices)
      ensures forall a | a in agentList :: fresh(a)
    {
      for i := 0 to |choices|
        invariant numAgents == i && |agentList| == i
        invariant Population() == Seeded(pool.keys, phenotypeOf, choices[..i])
        invariant forall a | a in agentList :: fresh(a) && a.model == this
      {
        AddInitialAgent(choices[i]);
        assert choices[..i + 1][..i] == choices[..i];
      }
      assert choices[..|choices|] == choices;
      SeededIsValid(pool.keys, phenotypeOf, choices, mutationRate);
      MembersOfColony(agentList, numAgents, World());
    }

    /** Adds one agent with the next id and the pool key at `choice`. */
    method AddInitialAgent(choice: nat)
      requires choice < |pool.keys| && pool.keys[choice] in phenotypeOf
      modifies this`agentList, this`numAgents
      ensures numAgents == old(numAgents) + 1
      ensures |agentList| == |old(agentList)| + 1 && agentList[..|old(agentList)|] == old(agentList)
      ensures forall a | a in agentList :: a in old(agentList) || (fresh(a) && a.model == this)
      ensures Population() == old(Population()) + [AgentState(numAgents, pool.keys[choice], phenotypeOf[pool.keys[choice]], 1.0)]
    {
      var hapIds := pool.keys;
      var chosen := hapIds[choice];
      var phenotype := phenotypeOf[chosen];
      var id := NextId();
      var a := new MothAgent(id, this, chosen, phenotype);
      agentList := agentList + [a];
    }

    /** Issues the next id: 1, 2, 3, ... */
    method NextId() returns (id: nat)
      modifies this`numAgents
      ensures numAgents == old(numAgents) + 1 && id == numAgents
    {
      numAgents := numAgents + 1;
      id := numAgents;
    }

    /** Records the snapshot of the current population. */
    method Collect()
      modifies this`snapshots
      ensures snapshots == old(snapshots) + [SnapshotOf(Population(), ln)]
    {
      var diversity := ComputeShannonDiversity();
      snapshots := snapshots + [Snapshot(diversity, |agentList|, CountPhenotype(Light), CountPhenotype(Dark))];
    }

    /** One model step: the pressure for this step from the schedule (the
        last one is kept once it runs out), a snapshot of the population,
        the list shuffled with `shuffleDraws`, then every moth present at
        the start acts once in shuffled order with its own draws; children
        born during the step do not act. */
    method Step(shuffleDraws: seq<nat>, draws: seq<AgentDraws>)
      requires Valid()
      requires ValidSwapDraws(shuffleDraws, |agentList|)
      requires |draws| == |agentList| && DrawsFit(draws, World())
      modifies this`agentList, this`numAgents, this`snapshots, this`currentStep, this`environmentalPressure, agentList
      ensures Valid()
      ensures currentStep == old(currentStep) + 1
      ensures snapshots == old(snapshots) + [SnapshotOf(old(Population()), ln)]
      ensures Colony() == StepColony(old(Colony()), shuffleDraws, environmentalPressure, World(), draws)
      ensures forall a | a in agentList :: a in old(agentList) || fresh(a)
    {
      ghost var objects: seq<object> := agentList;
      assert this !in objects;
      Record();
      Advance(shuffleDraws, draws, old(Colony()));
    }

    /** The first half of a step: the pressure for the coming step, then a
        snapshot of the population as it stands. */
    method Record()
      requires |schedule| > 0 && environmentalPressure == PressureAfter(schedule, currentStep)
      modifies this`environmentalPressure, this`snapshots
      ensures environmentalPressure == PressureAfter(schedule, currentStep + 1)
      ensures environmentalPressure ==
        if currentStep < |schedule| then schedule[currentStep] else old(environmentalPressure)
      ensures snapshots == old(snapshots) + [SnapshotOf(old(Population()), ln)]
    {
      PressureAfterNext(schedule, currentStep);
      if currentStep < |schedule| {
        environmentalPressure := schedule[currentStep];
      }
      Collect();
    }

    /** The second half of a step: the shuffle, the moths acting, and the
        step counted. */
    method Advance(shuffleDraws: seq<nat>, draws: seq<AgentDraws>, ghost before: Colony)
      requires AgentsValid() && Colony() == before
      requires |schedule| > 0 && |snapshots| == currentStep + 2
      requires environmentalPressure == PressureAfter(schedule, currentStep + 1)
      requires ValidSwapDraws(shuffleDraws, |agentList|)
      requires |draws| == |agentList| && DrawsFit(draws, World())
      modifies this`agentList, this`numAgents, this`currentStep, agentList
      ensures Valid()
      ensures currentStep == old(currentStep) + 1
      ensures Colony() == StepColony(before, shuffleDraws, environmentalPressure, World(), draws)
      ensures forall a | a in agentList :: a in old(agentList) || fresh(a)
    {
      ghost var acting: seq<object> := agentList;
      assert this !in acting;
      ShuffleAndAct(shuffleDraws, draws, before);
      Tick(StepColony(before, shuffleDraws, environmentalPressure, World(), draws));
    }

    /** `self.current_step += 1`, which closes the step. */
    method Tick(ghost after: Colony)
      requires AgentsValid() && Colony() == after
      requires |schedule| > 0 && |snapshots| == currentStep + 2
      requires environmentalPressure == PressureAfter(schedule, currentStep + 1)
      modifies this`currentStep
      ensures Valid()
      ensures currentStep == old(currentStep) + 1
      ensures Colony() == after
    {
      ghost var objects: seq<object> := agentList;
      assert this !in objects;
      currentStep := currentStep + 1;
    }

    /** `random.shuffle(self.agent_list)`, then the moths act in shuffled
        order. */
    method ShuffleAndAct(shuffleDraws: seq<nat>, draws: seq<AgentDraws>, ghost before: Colony)
      requires AgentsValid() && Colony() == before
      requires ValidSwapDraws(shuffleDraws, |agentList|)
      requires |draws| == |agentList| && DrawsFit(draws, World())
      modifies this`agentList, this`numAgents, agentList
      ensures AgentsValid()
      ensures Colony() == StepColony(before, shuffleDraws, environmentalPressure, World(), draws)
      ensures forall a | a in agentList :: a in old(agentList) || fresh(a)
    {
      ShuffleAgents(shuffleDraws);
      ghost var start := Colony();
      assert start == Selection.Colony(Shuffled(before.agents, shuffleDraws), before.lastId);
      ActAgents(draws, start);
    }

    /** `for agent in list(self.agent_list): agent.step()`: the moths in the
        list at the start act in list order, the k-th with `draws[k]`. */
    method ActAgents(draws: seq<AgentDraws>, ghost start: Colony)
      requires AgentsValid() && Colony() == start
      requires |draws| == |agentList| && DrawsFit(draws, World())
      modifies this`agentList, this`numAgents, agentList
      ensures AgentsValid()
      ensures Colony() == ActAll(start, Ids(start.agents), environmentalPressure, World(), draws)
      ensures forall a | a in agentList :: a in old(agentList) || fresh(a)
    {
      var acting := agentList;
      ghost var ids := Ids(start.agents);
      for k := 0 to |acting|
        invariant AgentsValid()
        invariant Colony() == ActAll(start, ids[..k], environmentalPressure, World(), draws[..k])
        invariant forall j | k <= j < |acting| :: acting[j] in agentList
        invariant forall a | a in agentList :: a in old(agentList) || fresh(a)
      {
        ActingStep(acting, k, ids, start, draws);
      }
      assert ids[..|acting|] == ids && draws[..|acting|] == draws;
    }

    /** `random.shuffle(self.agent_list)` in place: for i from the last
        position down to 1, swap positions i and `js[i]`. */
    method ShuffleAgents(js: seq<nat>)
      requires AgentsValid() && ValidSwapDraws(js, |agentList|)
      modifies this`agentList
      ensures agentList == Shuffled(old(agentList), js)
      ensures forall i | 0 <= i < |agentList| :: agentList[i] in old(agentList)
      ensures AgentsValid()
      ensures Colony() == Selection.Colony(Shuffled(old(Population()), js), numAgents)
    {
      var i: nat := |agentList|;
      while i > 1
        invariant i <= |agentList| == |old(agentList)|
        invariant ShuffleFrom(agentList, js, i) == Shuffled(old(agentList), js)
      {
        var j := js[i - 1];
        var tmp := agentList[i - 1];
        agentList := agentList[i - 1 := agentList[j]];
        agentList := agentList[j := tmp];
        i := i - 1;
      }
      ShuffleFacts(old(agentList), js);
    }

    /** The k-th moth of the step's acting list takes its step. */
    method ActingStep(acting: seq<MothAgent>, k: nat, ghost ids: seq<nat>, ghost start: Colony, draws: seq<AgentDraws>)
      requires k < |acting| == |ids| == |draws| && DrawsFit(draws, World())
      requires AgentsValid() && DistinctUnder(acting, IdOf)
      requires forall j | 0 <= j < |acting| :: acting[j].uniqueId == ids[j]
      requires forall j | k <= j < |acting| :: acting[j] in agentList
      requires Colony() == ActAll(start, ids[..k], environmentalPressure, World(), draws[..k])
      modifies this`agentList, this`numAgents, acting[k]
      ensures AgentsValid()
      ensures Colony() == ActAll(start, ids[..k + 1], environmentalPressure, World(), draws[..k + 1])
      ensures forall j | k < j < |acting| :: acting[j] in agentList
      ensures forall a | a in agentList :: a in old(agentList) || fresh(a)
    {
      var agent := acting[k];
      ghost var c := Colony();
      ghost var list := agentList;
      ghost var i := IndexOf(list, agent);
      ColonyOfMembers(list, numAgents, World());
      agent.Step(draws[k]);
      assert c.agents[i] == old(agent.State());
      ActOneAt(c, i, environmentalPressure, World(), draws[k]);
      assert ids[..k + 1][..k] == ids[..k] && draws[..k + 1][..k] == draws[..k];
      forall j | k < j < |acting| ensures acting[j] in agentList {
        assert IdOf(acting[k]) != IdOf(acting[j]);
        if agentList != list && |agentList| != |list| + 1 {
          RemoveKeepsOthers(list, agent, acting[j]);
        }
      }
    }

    function CountPhenotype(phenotypeLabel: string): (n: nat)
      reads this`agentList, agentList
      ensures n == Count(Phenotypes(Population()), phenotypeLabel)
    {
      CountPhenotypeIn(agentList, phenotypeLabel)
    }

    /** Shannon's index of the agents' haplotypes: counts per haplotype in a
        dictionary, their total, then -Σ p·ln p over the counts. */
    method ComputeShannonDiversity() returns (h: real)
      ensures h == Shannon(Haplotypes(Population()), ln)
    {
      var counts := CountHaplotypes();
      h := CountsEntropy(counts, ln);
      CountsGiveShannon(counts, Haplotypes(Population()), ln);
    }

    /** The counting loop of `ComputeShannonDiversity`:
        `counts[h] = counts.get(h, 0) + 1` for each agent's haplotype. */
    method CountHaplotypes() returns (counts: PyDict.Dict<string, nat>)
      ensures CountsOf(counts, Haplotypes(Population()))
    {
      ghost var hs := Haplotypes(Population());
      counts := PyDict.Empty();
      var i := 0;
      while i < |agentList|
        invariant 0 <= i <= |agentList|
        invariant CountsOf(counts, hs[..i])
      {
        var hid := agentList[i].haplotypeId;
        assert hs[..i + 1] == hs[..i] + [hid];
        CountsStep(counts, hs[..i], hid);
        counts := PyDict.Put(counts, hid, PyDict.GetOr(counts, hid, 0) + 1);
        i := i + 1;
      }
      assert hs[..i] == hs;
    }
  }
}
