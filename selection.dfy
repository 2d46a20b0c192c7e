/** The selection rules of the agent-based moth model, on values: the
    fitness law, what one agent's step does to its own state, and what a
    generation of steps does to the population (`Colony`). The classes in
    module MothSimulation are proved to follow these definitions. */
module Selection {
  import opened Tally

  const Dark: string := "dark"
  const Light: string := "light"

  /** Fitness below this threshold kills the agent. */
  const DeathThreshold: real := 0.1

  /** Dark moths do better the higher the environmental pressure, every
      other phenotype the lower it is. */
  function Fitness(phenotype: string, env: real): (f: real)
    ensures 0.0 <= env <= 1.0 ==> 0.5 <= f <= 1.0
    ensures env == 0.5 ==> f == 0.75
    ensures phenotype == Dark && env == 1.0 ==> f == 1.0
    ensures phenotype != Dark && env == 0.0 ==> f == 1.0
  {
    if phenotype == Dark then 1.0 * env + 0.5 * (1.0 - env)
    else 0.5 * env + 1.0 * (1.0 - env)
  }

  /** Above pressure one half dark is strictly fitter than every other
      phenotype, below it strictly less fit, and at one half they tie. */
  lemma DarkFavouredAboveHalf(other: string, env: real)
    requires other != Dark
    ensures env > 0.5 ==> Fitness(Dark, env) > Fitness(other, env)
    ensures env < 0.5 ==> Fitness(Dark, env) < Fitness(other, env)
    ensures env == 0.5 ==> Fitness(Dark, env) == Fitness(other, env)
  {
  }

  /** The state of one moth: its id, haplotype, phenotype and fitness. */
  datatype AgentState = AgentState(uniqueId: nat, haplotypeId: string, phenotype: string, fitness: real)

  /** The random values one agent's step consumes: the mutation draw, the
      index of the haplotype chosen when it mutates, and the reproduction
      draw. A step that does not reach a draw ignores it. */
  datatype AgentDraws = AgentDraws(mutation: real, choice: nat, reproduction: real)

  /** What the agents see of their model: the haplotype pool's keys in
      order, the haplotype-to-phenotype table and the mutation rate. */
  datatype World = World(haplotypeIds: seq<string>, phenotypeOf: map<string, string>, mutationRate: real)

  /** Every pool key has a phenotype. */
  predicate WorldValid(w: World) {
    forall i :: 0 <= i < |w.haplotypeIds| ==> w.haplotypeIds[i] in w.phenotypeOf
  }

  /** Draws whose haplotype choices index the pool. */
  predicate DrawsFit(draws: seq<AgentDraws>, w: World) {
    forall i :: 0 <= i < |draws| ==> draws[i].choice < |w.haplotypeIds|
  }

  /** An agent whose haplotype is a pool key and whose phenotype is the one
      the table gives that haplotype. */
  predicate Consistent(s: AgentState, w: World) {
    s.haplotypeId in w.haplotypeIds && s.haplotypeId in w.phenotypeOf
    && s.phenotype == w.phenotypeOf[s.haplotypeId]
  }

  /** The agent after the first two parts of its step: fitness recomputed
      under `env`, then, when the mutation draw is below the rate, a new
      haplotype from the pool, its phenotype, and fitness recomputed again. */
  function AfterMutation(s: AgentState, env: real, w: World, d: AgentDraws): (r: AgentState)
    requires WorldValid(w) && d.choice < |w.haplotypeIds|
    ensures r.uniqueId == s.uniqueId
    ensures r.fitness == Fitness(r.phenotype, env)
    ensures d.mutation < w.mutationRate ==>
      r.haplotypeId == w.haplotypeIds[d.choice] && r.phenotype == w.phenotypeOf[r.haplotypeId]
    ensures !(d.mutation < w.mutationRate) ==>
      r.haplotypeId == s.haplotypeId && r.phenotype == s.phenotype
  {
    var recomputed := s.(fitness := Fitness(s.phenotype, env));
    if d.mutation < w.mutationRate then
      var h := w.haplotypeIds[d.choice];
      var mutated := recomputed.(haplotypeId := h, phenotype := w.phenotypeOf[h]);
      mutated.(fitness := Fitness(mutated.phenotype, env))
    else recomputed
  }

  predicate Dies(s: AgentState) {
    s.fitness < DeathThreshold
  }

  /** The chance of reproducing: fitness times pressure. */
  function ReproduceProbability(fitness: real, env: real): real {
    fitness * env
  }

  /** The reproduction test: the draw falls below that chance. */
  predicate Reproduces(s: AgentState, env: real, d: AgentDraws) {
    d.reproduction < ReproduceProbability(s.fitness, env)
  }

  /** A newborn: the given fresh id, the parent's haplotype and phenotype,
      fitness 1. */
  function Child(id: nat, parent: AgentState): AgentState {
    AgentState(id, parent.haplotypeId, parent.phenotype, 1.0)
  }

  /** The population as a list of agent states, and the last id handed out. */
  datatype Colony = Colony(agents: seq<AgentState>, lastId: nat)

  function Ids(agents: seq<AgentState>): (ids: seq<nat>)
    ensures |ids| == |agents|
    ensures forall i :: 0 <= i < |agents| ==> ids[i] == agents[i].uniqueId
  {
    seq(|agents|, i requires 0 <= i < |agents| => agents[i].uniqueId)
  }

  /** Ids are distinct and issued, and every agent is consistent. */
  predicate ColonyValid(c: Colony, w: World) {
    && NoDuplicates(Ids(c.agents))
    && (forall i :: 0 <= i < |c.agents| ==> 1 <= c.agents[i].uniqueId <= c.lastId)
    && (forall i :: 0 <= i < |c.agents| ==> Consistent(c.agents[i], w))
  }

  /** One agent's step, applied to the agent with id `id`: it is updated in
      place; if it dies it leaves the list; if it reproduces one child is
      appended with the next id. Only listed ids are ever passed here: a
      moth leaves the list only during its own step, so an acting moth is
      still listed when its turn comes. For any other id the colony is
      returned as it is, whereas the agent's step would still mutate a
      moth missing from the list and could append a child. */
  function ActOne(c: Colony, id: nat, env: real, w: World, d: AgentDraws): Colony
    requires WorldValid(w) && d.choice < |w.haplotypeIds|
  {
    var ids := Ids(c.agents);
    if id !in ids then c
    else
      var i := IndexOf(ids, id);
      Settle(c, i, AfterMutation(c.agents[i], env, w, d), env, d)
  }

  /** The second half of a step for the agent at position `i`, whose state
      after mutation is `s`: it dies and leaves, or is updated in place and
      maybe followed by a child with the next id. */
  function Settle(c: Colony, i: nat, s: AgentState, env: real, d: AgentDraws): Colony
    requires i < |c.agents|
  {
    if Dies(s) then Colony(c.agents[..i] + c.agents[i + 1..], c.lastId)
    else if Reproduces(s, env, d) then Colony(c.agents[i := s] + [Child(c.lastId + 1, s)], c.lastId + 1)
    else Colony(c.agents[i := s], c.lastId)
  }

  /** The ids in `acting` step in order, the k-th with draws `draws[k]`. */
  function ActAll(c: Colony, acting: seq<nat>, env: real, w: World, draws: seq<AgentDraws>): Colony
    requires |draws| == |acting| && WorldValid(w) && DrawsFit(draws, w)
  {
    if acting == [] then c
    else
      var k := |acting| - 1;
      ActOne(ActAll(c, acting[..k], env, w, draws[..k]), acting[k], env, w, draws[k])
  }

  // ---------------------------------------------------------------------------
  // Properties of one step

  /** With pressure in [0, 1] fitness is at least 0.5, so nobody dies. */
  lemma NoDeathInUnitRange(s: AgentState, env: real, w: World, d: AgentDraws)
    requires WorldValid(w) && d.choice < |w.haplotypeIds|
    requires 0.0 <= env <= 1.0
    ensures !Dies(AfterMutation(s, env, w, d))
  {
  }

  /** A step keeps the agent consistent: it was before, or it mutated and
      took the table's phenotype for its new haplotype. */
  lemma AfterMutationConsistent(s: AgentState, env: real, w: World, d: AgentDraws)
    requires WorldValid(w) && d.choice < |w.haplotypeIds|
    requires Consistent(s, w)
    ensures Consistent(AfterMutation(s, env, w, d), w)
  {
  }

  lemma IdsSnoc(agents: seq<AgentState>, s: AgentState)
    ensures Ids(agents + [s]) == Ids(agents) + [s.uniqueId]
  {
    assert (agents + [s])[..|agents|] == agents;
  }

  /** Removing one agent keeps the colony valid. */
  lemma RemoveKeepsValid(c: Colony, i: nat, w: World)
    requires i < |c.agents| && ColonyValid(c, w)
    ensures ColonyValid(Colony(c.agents[..i] + c.agents[i + 1..], c.lastId), w)
  {
    var a := c.agents[..i] + c.agents[i + 1..];
    var ids := Ids(c.agents);
    forall p, q | 0 <= p < q < |a| ensures Ids(a)[p] != Ids(a)[q] {
      var p' := if p < i then p else p + 1;
      var q' := if q < i then q else q + 1;
      assert a[p] == c.agents[p'] && a[q] == c.agents[q'];
      assert ids[p'] != ids[q'];
    }
    forall p | 0 <= p < |a| ensures 1 <= a[p].uniqueId <= c.lastId && Consistent(a[p], w) {
      var p' := if p < i then p else p + 1;
      assert a[p] == c.agents[p'];
    }
  }

  /** Replacing an agent by a consistent state with the same id keeps the
      colony valid. */
  lemma UpdateKeepsValid(c: Colony, i: nat, s: AgentState, w: World)
    requires i < |c.agents| && ColonyValid(c, w)
    requires s.uniqueId == c.agents[i].uniqueId && Consistent(s, w)
    ensures ColonyValid(Colony(c.agents[i := s], c.lastId), w)
  {
    assert Ids(c.agents[i := s]) == Ids(c.agents);
  }

  /** Appending a consistent newborn with the next id keeps the colony valid. */
  lemma BirthKeepsValid(c: Colony, s: AgentState, w: World)
    requires ColonyValid(c, w) && Consistent(s, w)
    ensures ColonyValid(Colony(c.agents + [Child(c.lastId + 1, s)], c.lastId + 1), w)
  {
    IdsSnoc(c.agents, Child(c.lastId + 1, s));
    assert c.lastId + 1 !in Ids(c.agents);
  }

  /** A step keeps the colony valid: ids stay distinct and issued, and every
      agent stays consistent. */
  lemma ActOneValid(c: Colony, id: nat, env: real, w: World, d: AgentDraws)
    requires WorldValid(w) && d.choice < |w.haplotypeIds|
    requires ColonyValid(c, w)
    ensures ColonyValid(ActOne(c, id, env, w, d), w)
  {
    var ids := Ids(c.agents);
    if id in ids {
      var i := IndexOf(ids, id);
      var s := AfterMutation(c.agents[i], env, w, d);
      AfterMutationConsistent(c.agents[i], env, w, d);
      var r := ActOne(c, id, env, w, d);
      if Dies(s) {
        assert r == Colony(c.agents[..i] + c.agents[i + 1..], c.lastId);
        RemoveKeepsValid(c, i, w);
      } else {
        UpdateKeepsValid(c, i, s, w);
        var u := Colony(c.agents[i := s], c.lastId);
        if Reproduces(s, env, d) {
          assert r == Colony(u.agents + [Child(u.lastId + 1, s)], u.lastId + 1);
          BirthKeepsValid(u, s, w);
        } else {
          assert r == u;
        }
      }
    }
  }

  /** `ActOne` on the agent at position `i` of a valid colony. */
  lemma ActOneAt(c: Colony, i: nat, env: real, w: World, d: AgentDraws)
    requires WorldValid(w) && d.choice < |w.haplotypeIds|
    requires ColonyValid(c, w) && i < |c.agents|
    ensures ActOne(c, c.agents[i].uniqueId, env, w, d) == Settle(c, i, AfterMutation(c.agents[i], env, w, d), env, d)
  {
    var ids := Ids(c.agents);
    assert ids[i] == c.agents[i].uniqueId;
    var j := IndexOf(ids, c.agents[i].uniqueId);
    assert ids[j] == ids[i];
  }

  /** A newborn's id is fresh: larger than every id already in use. */
  lemma ChildIdIsFresh(c: Colony, id: nat, env: real, w: World, d: AgentDraws)
    requires WorldValid(w) && d.choice < |w.haplotypeIds|
    requires ColonyValid(c, w)
    ensures ActOne(c, id, env, w, d).lastId >= c.lastId
    ensures ActOne(c, id, env, w, d).lastId > c.lastId ==>
      ActOne(c, id, env, w, d).lastId !in Ids(c.agents)
  {
  }

  // ---------------------------------------------------------------------------
  // Properties of a generation

  lemma {:induction false} ActAllValid(c: Colony, acting: seq<nat>, env: real, w: World, draws: seq<AgentDraws>)
    requires |draws| == |acting| && WorldValid(w) && DrawsFit(draws, w)
    requires ColonyValid(c, w)
    ensures ColonyValid(ActAll(c, acting, env, w, draws), w)
  {
    if acting != [] {
      var k := |acting| - 1;
      ActAllValid(c, acting[..k], env, w, draws[..k]);
      ActOneValid(ActAll(c, acting[..k], env, w, draws[..k]), acting[k], env, w, draws[k]);
    }
  }

  /** With pressure in [0, 1] nobody leaves: the agents present before a
      step keep their places, and the population grows by exactly the
      number of ids handed out. */
  lemma NoDeathKeepsOrder(c: Colony, id: nat, env: real, w: World, d: AgentDraws)
    requires WorldValid(w) && d.choice < |w.haplotypeIds|
    requires 0.0 <= env <= 1.0
    ensures var r := ActOne(c, id, env, w, d);
      && r.lastId >= c.lastId
      && |r.agents| == |c.agents| + (r.lastId - c.lastId)
      && Ids(r.agents)[..|c.agents|] == Ids(c.agents)
  {
    var ids := Ids(c.agents);
    if id in ids {
      var i := IndexOf(ids, id);
      NoDeathInUnitRange(c.agents[i], env, w, d);
      var s := AfterMutation(c.agents[i], env, w, d);
      var u := c.agents[i := s];
      assert Ids(u) == ids;
      if Reproduces(s, env, d) {
        IdsSnoc(u, Child(c.lastId + 1, s));
      }
    }
  }

  lemma {:induction false} NoDeathKeepsOrderAll(c: Colony, acting: seq<nat>, env: real, w: World, draws: seq<AgentDraws>)
    requires |draws| == |acting| && WorldValid(w) && DrawsFit(draws, w)
    requires 0.0 <= env <= 1.0
    ensures var r := ActAll(c, acting, env, w, draws);
      && r.lastId >= c.lastId
      && |r.agents| == |c.agents| + (r.lastId - c.lastId)
      && Ids(r.agents)[..|c.agents|] == Ids(c.agents)
  {
    if acting != [] {
      var k := |acting| - 1;
      var m := ActAll(c, acting[..k], env, w, draws[..k]);
      NoDeathKeepsOrderAll(c, acting[..k], env, w, draws[..k]);
      NoDeathKeepsOrder(m, acting[k], env, w, draws[k]);
      var r := ActOne(m, acting[k], env, w, draws[k]);
      assert Ids(r.agents)[..|c.agents|] == Ids(r.agents)[..|m.agents|][..|c.agents|];
    }
  }

  /** One step leaves agents with ids above `bound` untouched when the
      acting id is at most `bound`, and newborns arrive with fitness 1. */
  lemma NewbornsDoNotActOne(c: Colony, id: nat, env: real, w: World, d: AgentDraws, bound: nat)
    requires WorldValid(w) && d.choice < |w.haplotypeIds|
    requires id <= bound <= c.lastId
    requires forall i :: 0 <= i < |c.agents| ==> c.agents[i].uniqueId <= c.lastId
    requires forall i :: 0 <= i < |c.agents| && c.agents[i].uniqueId > bound ==> c.agents[i].fitness == 1.0
    ensures var r := ActOne(c, id, env, w, d);
      && r.lastId >= c.lastId
      && (forall i :: 0 <= i < |r.agents| ==> r.agents[i].uniqueId <= r.lastId)
      && (forall i :: 0 <= i < |r.agents| && r.agents[i].uniqueId > bound ==> r.agents[i].fitness == 1.0)
  {
    var ids := Ids(c.agents);
    if id in ids {
      var i := IndexOf(ids, id);
      var s := AfterMutation(c.agents[i], env, w, d);
      var r := ActOne(c, id, env, w, d);
      if Dies(s) {
        var a := c.agents[..i] + c.agents[i + 1..];
        assert r == Colony(a, c.lastId);
        forall p | 0 <= p < |a| ensures a[p] == c.agents[if p < i then p else p + 1] { }
      } else {
        var u := Colony(c.agents[i := s], c.lastId);
        if Reproduces(s, env, d) {
          assert r == Colony(u.agents + [Child(u.lastId + 1, s)], u.lastId + 1);
        } else {
          assert r == u;
        }
      }
    }
  }

  /** Agents born during a generation do not act in it: when every acting
      id was issued before the generation, each agent with a newer id still
      has the fitness 1 it was born with. */
  lemma {:induction false} NewbornsDoNotAct(c: Colony, acting: seq<nat>, env: real, w: World, draws: seq<AgentDraws>)
    requires |draws| == |acting| && WorldValid(w) && DrawsFit(draws, w)
    requires forall i :: 0 <= i < |acting| ==> acting[i] <= c.lastId
    requires forall i :: 0 <= i < |c.agents| ==> c.agents[i].uniqueId <= c.lastId
    ensures var r := ActAll(c, acting, env, w, draws);
      && r.lastId >= c.lastId
      && (forall i :: 0 <= i < |r.agents| ==> r.agents[i].uniqueId <= r.lastId)
      && (forall i :: 0 <= i < |r.agents| && r.agents[i].uniqueId > c.lastId ==> r.agents[i].fitness == 1.0)
  {
    if acting != [] {
      var k := |acting| - 1;
      var m := ActAll(c, acting[..k], env, w, draws[..k]);
      NewbornsDoNotAct(c, acting[..k], env, w, draws[..k]);
      NewbornsDoNotActOne(m, acting[k], env, w, draws[k], c.lastId);
    }
  }
}
