/** The driver of model/runModel.py: the haplotype pool and the phenotype
    table built from the rows of the haplotype summary, the default
    pressure schedule, and the loop that steps a `MothModel` once per
    schedule entry. The random draws of a whole run come from a
    `DrawSource` of total functions; the file reading and writing around
    the run are not part of this model. */
module RunModel {
  import opened Tally
  import opened Selection
  import opened Shuffling
  import opened MothSimulation
  import PyDict

  datatype Option<T> = None | Some(value: T)

  /** One row of the haplotype summary table. */
  datatype CsvRow = CsvRow(haplotypeId: string, representativeSequence: string, frequency: real)

  function RowIds(rows: seq<CsvRow>): (ids: seq<string>)
    ensures |ids| == |rows| && forall i :: 0 <= i < |rows| ==> ids[i] == rows[i].haplotypeId
  {
    seq(|rows|, i requires 0 <= i < |rows| => rows[i].haplotypeId)
  }

  function RecordOf(row: CsvRow): HaplotypeRecord {
    HaplotypeRecord(row.representativeSequence, row.frequency)
  }

  // ---------------------------------------------------------------------------
  // The haplotype pool
  // ---------------------------------------------------------------------------

  /** The pool after `haplotype_pool[hid] = {...}` for every row in order. */
  function PoolOf(rows: seq<CsvRow>): (pool: Pool)
    ensures PyDict.Valid(pool)
  {
    if rows == [] then PyDict.Empty()
    else
      var k := |rows| - 1;
      PyDict.Put(PoolOf(rows[..k]), rows[k].haplotypeId, RecordOf(rows[k]))
  }

  /** The record of the last row carrying id `k`. */
  function LastRecord(rows: seq<CsvRow>, k: string): HaplotypeRecord
    requires k in RowIds(rows)
  {
    var n := |rows| - 1;
    if rows[n].haplotypeId == k then RecordOf(rows[n])
    else
      assert RowIds(rows) == RowIds(rows[..n]) + [rows[n].haplotypeId];
      LastRecord(rows[..n], k)
  }

  /** `LastRecord` is the record of a row with that id, and no later row
      has the id. */
  lemma {:induction false} LastRecordIsLast(rows: seq<CsvRow>, k: string)
    requires k in RowIds(rows)
    ensures exists j :: 0 <= j < |rows| && rows[j].haplotypeId == k && LastRecord(rows, k) == RecordOf(rows[j])
                        && forall i :: j < i < |rows| ==> rows[i].haplotypeId != k
  {
    var n := |rows| - 1;
    if rows[n].haplotypeId != k {
      assert RowIds(rows) == RowIds(rows[..n]) + [rows[n].haplotypeId];
      LastRecordIsLast(rows[..n], k);
      var j :| 0 <= j < n && rows[..n][j].haplotypeId == k && LastRecord(rows[..n], k) == RecordOf(rows[..n][j])
               && forall i :: j < i < n ==> rows[..n][i].haplotypeId != k;
      assert rows[j] == rows[..n][j];
      forall i | j < i < |rows| ensures rows[i].haplotypeId != k {
        if i < n {
          assert rows[i] == rows[..n][i];
        }
      }
    }
  }

  /** The pool keys are the row ids in order of first occurrence, and each
      key holds the sequence and frequency of its last row. */
  lemma {:induction false} PoolOfContents(rows: seq<CsvRow>)
    ensures PoolOf(rows).keys == Distinct(RowIds(rows))
    ensures forall k :: k in PoolOf(rows).entries <==> k in RowIds(rows)
    ensures forall k | k in PoolOf(rows).entries :: PoolOf(rows).entries[k] == LastRecord(rows, k)
  {
    if rows != [] {
      var n := |rows| - 1;
      var p := rows[..n];
      var pool := PoolOf(p);
      var hid := rows[n].haplotypeId;
      PoolOfContents(p);
      assert RowIds(rows) == RowIds(p) + [hid];
      PyDict.PutKeysFollowDistinct(pool, RowIds(p), hid, RecordOf(rows[n]));
      assert rows[..n] == p;
    }
  }

  /** The loop that fills `haplotype_pool` from the rows. */
  method BuildHaplotypePool(rows: seq<CsvRow>) returns (pool: Pool)
    ensures pool == PoolOf(rows)
  {
    pool := PyDict.Empty();
    for i := 0 to |rows|
      invariant pool == PoolOf(rows[..i])
    {
      var row := rows[i];
      pool := PyDict.Put(pool, row.haplotypeId, HaplotypeRecord(row.representativeSequence, row.frequency));
      assert rows[..i + 1][..i] == rows[..i];
    }
    assert rows[..|rows|] == rows;
  }

  // ---------------------------------------------------------------------------
  // The phenotype table
  // ---------------------------------------------------------------------------

  /** `s.endswith(suffix)`. */
  predicate EndsWith(s: string, suffix: string) {
    |suffix| <= |s| && s[|s| - |suffix|..] == suffix
  }

  /** The phenotype an id gets: dark for ids ending in "002". */
  function PhenotypeFor(hid: string): (p: string)
    ensures p == Light || p == Dark
    ensures p == Dark <==> EndsWith(hid, "002")
  {
    if EndsWith(hid, "002") then Dark else Light
  }

  /** The ids the repository's data uses for its second haplotype and its
      others, and ids too short to carry the suffix. */
  lemma PhenotypeForExamples()
    ensures PhenotypeFor("Hap_002") == Dark
    ensures PhenotypeFor("Hap_012") == Light
    ensures PhenotypeFor("002") == Dark && PhenotypeFor("02") == Light && PhenotypeFor("") == Light
  {
    assert "Hap_002"[4..] == "002";
    assert "Hap_012"[4..] != "002" by { assert "Hap_012"[4..][1] == '1'; }
  }

  /** The table after `haplotype_to_phenotype[hid] = ...` for every pool key. */
  function PhenotypeMapOf(keys: seq<string>): (m: map<string, string>)
    ensures forall k :: k in m <==> k in keys
  {
    if keys == [] then map[]
    else
      var k := |keys| - 1;
      assert keys == keys[..k] + [keys[k]];
      PhenotypeMapOf(keys[..k])[keys[k] := PhenotypeFor(keys[k])]
  }

  /** Every key gets the phenotype its id prescribes, and only light and
      dark occur. */
  lemma {:induction false} PhenotypeMapOfValues(keys: seq<string>)
    ensures forall k | k in PhenotypeMapOf(keys) :: PhenotypeMapOf(keys)[k] == PhenotypeFor(k)
    ensures forall k | k in PhenotypeMapOf(keys) :: PhenotypeMapOf(keys)[k] == Light || PhenotypeMapOf(keys)[k] == Dark
  {
    if keys != [] {
      PhenotypeMapOfValues(keys[..|keys| - 1]);
    }
  }

  /** The loop that fills `haplotype_to_phenotype`, one entry per pool key. */
  method BuildPhenotypeMap(pool: Pool) returns (phenotypeOf: map<string, string>)
    ensures phenotypeOf == PhenotypeMapOf(pool.keys)
  {
    phenotypeOf := map[];
    for i := 0 to |pool.keys|
      invariant phenotypeOf == PhenotypeMapOf(pool.keys[..i])
    {
      var hid := pool.keys[i];
      phenotypeOf := phenotypeOf[hid := if EndsWith(hid, "002") then Dark else Light];
      assert pool.keys[..i + 1][..i] == pool.keys[..i];
    }
    assert pool.keys[..|pool.keys|] == pool.keys;
  }

  // ---------------------------------------------------------------------------
  // The schedule and the draws
  // ---------------------------------------------------------------------------

  /** `[0.2] * 10 + [0.8] * 10`. */
  function DefaultSchedule(): (s: seq<real>)
    ensures |s| == 20
    ensures forall i :: 0 <= i < 10 ==> s[i] == 0.2
    ensures forall i :: 10 <= i < 20 ==> s[i] == 0.8
  {
    seq(10, _ => 0.2) + seq(10, _ => 0.8)
  }

  /** The schedule used: the given one, or the default when none is given. */
  function ScheduleOf(envSchedule: Option<seq<real>>): seq<real> {
    if envSchedule.None? then DefaultSchedule() else envSchedule.value
  }

  /** The random values of a whole run: the index each seeding draw picks,
      the raw swap draw of each shuffle position in each step, and each
      acting moth's draws in each step. */
  datatype DrawSource = DrawSource(seed: nat -> nat, swap: (nat, nat) -> nat, agent: (nat, nat) -> AgentDraws)

  /** The pool indices the `nInitial` seeding draws pick. */
  function SeedChoices(src: DrawSource, n: nat, labels: nat): (cs: seq<nat>)
    ensures |cs| == n && (labels > 0 ==> forall i :: 0 <= i < n ==> cs[i] < labels)
  {
    seq(n, i requires 0 <= i < n => if labels == 0 then 0 else src.seed(i) % labels)
  }

  /** The swap draws of the shuffle in step `step` of a list of `n`. */
  function SwapDraws(src: DrawSource, step: nat, n: nat): (js: seq<nat>)
    ensures ValidSwapDraws(js, n)
  {
    seq(n, i requires 0 <= i < n => src.swap(step, i) % (i + 1))
  }

  /** The draws of the `n` acting moths in step `step`, each haplotype
      choice reduced to an index of a pool of `labels` keys. */
  function AgentDrawsFor(src: DrawSource, step: nat, n: nat, labels: nat): (ds: seq<AgentDraws>)
    ensures |ds| == n && (labels > 0 ==> forall i :: 0 <= i < n ==> ds[i].choice < labels)
  {
    seq(n, i requires 0 <= i < n => var d := src.agent(step, i); d.(choice := if labels == 0 then 0 else d.choice % labels))
  }

  /** A valid colony with moths lives in a world with pool keys. */
  lemma OccupiedWorldHasKeys(c: Colony, w: World)
    requires ColonyValid(c, w) && |c.agents| > 0
    ensures |w.haplotypeIds| > 0
  {
    assert Consistent(c.agents[0], w);
  }

  // ---------------------------------------------------------------------------
  // Phenotypes of a colony
  // ---------------------------------------------------------------------------

  /** When the phenotype table knows only light and dark, so does every
      moth of a valid colony. */
  lemma ColonyIsLightOrDark(c: Colony, w: World)
    requires ColonyValid(c, w)
    requires forall k | k in w.phenotypeOf :: w.phenotypeOf[k] == Light || w.phenotypeOf[k] == Dark
    ensures forall i | 0 <= i < |c.agents| :: c.agents[i].phenotype == Light || c.agents[i].phenotype == Dark
  {
    forall i | 0 <= i < |c.agents| ensures c.agents[i].phenotype == Light || c.agents[i].phenotype == Dark {
      assert Consistent(c.agents[i], w);
    }
  }

  // ---------------------------------------------------------------------------
  // The run
  // ---------------------------------------------------------------------------

  /** Why `run_simulation` stops before the first step. */
  datatype RunError =
    | EmptySchedule      // `environment_schedule[0]` of an empty schedule
    | NoHaplotypes       // `random.choices` over an empty pool
    | WeightsNotPositive // `random.choices` with a total weight of at most 0

  datatype Outcome = Failure(error: RunError) | Success(snapshots: seq<Snapshot>)

  /** The model can be built: a schedule to start from, and something to
      draw the seeding haplotypes from when there are moths to seed. */
  predicate CanStart(rows: seq<CsvRow>, nInitial: nat, schedule: seq<real>) {
    |schedule| > 0 && (nInitial > 0 ==> TotalWeight(PoolOf(rows).keys, PoolOf(rows)) > 0.0)
  }

  /** The world built from the rows. */
  function WorldOf(rows: seq<CsvRow>, mutationRate: real): (w: World)
    ensures WorldValid(w)
    ensures NoDuplicates(w.haplotypeIds)
  {
    var pool := PoolOf(rows);
    World(pool.keys, PhenotypeMapOf(pool.keys), mutationRate)
  }

  /** The colony seeding builds from the rows and the seeding draws. */
  function InitialColony(rows: seq<CsvRow>, src: DrawSource, nInitial: nat, mutationRate: real): (c: Colony)
    requires nInitial > 0 ==> TotalWeight(PoolOf(rows).keys, PoolOf(rows)) > 0.0
    ensures ColonyValid(c, WorldOf(rows, mutationRate))
    ensures |c.agents| == nInitial
  {
    var pool := PoolOf(rows);
    var phenotypeOf := PhenotypeMapOf(pool.keys);
    var choices := SeedChoices(src, nInitial, |pool.keys|);
    assert nInitial > 0 ==> |pool.keys| > 0 by {
      if nInitial > 0 { PositiveWeightHasKeys(pool.keys, pool); }
    }
    SeededIsValid(pool.keys, phenotypeOf, choices, mutationRate);
    Colony(Seeded(pool.keys, phenotypeOf, choices), nInitial)
  }

  /** A positive total weight needs at least one pool key. */
  lemma PositiveWeightHasKeys(keys: seq<string>, pool: Pool)
    requires forall i :: 0 <= i < |keys| ==> keys[i] in pool.entries
    requires TotalWeight(keys, pool) > 0.0
    ensures |keys| > 0
  {
  }

  /** `run_simulation` from the rows of the haplotype table: build the pool
      and the phenotype table, take the default schedule when none is
      given, build the model and step it once per schedule entry; the
      result is the table of snapshots. */
  method RunSimulation(rows: seq<CsvRow>, src: DrawSource, ln: real -> real, nInitial: nat := 500,
                       mutationRate: real := 0.01, envSchedule: Option<seq<real>> := None)
    returns (r: Outcome)
    ensures r.Success? <==> CanStart(rows, nInitial, ScheduleOf(envSchedule))
    ensures |ScheduleOf(envSchedule)| == 0 ==> r == Failure(EmptySchedule)
    ensures |ScheduleOf(envSchedule)| > 0 && nInitial > 0 && PoolOf(rows).keys == [] ==> r == Failure(NoHaplotypes)
    ensures r.Success? ==> |r.snapshots| == |ScheduleOf(envSchedule)| + 1
    ensures r.Success? ==>
      && r.snapshots[0] == SnapshotOf(InitialColony(rows, src, nInitial, mutationRate).agents, ln)
      && r.snapshots[0].population == nInitial
      && r.snapshots[1] == r.snapshots[0]
    ensures r.Success? ==> forall i | 0 <= i < |ScheduleOf(envSchedule)| ::
      r.snapshots[i + 1] == SnapshotOf(ColonyAfter(InitialColony(rows, src, nInitial, mutationRate), src,
        ScheduleOf(envSchedule), WorldOf(rows, mutationRate), i).agents, ln)
    ensures r.Success? ==> forall i | 0 <= i < |r.snapshots| ::
      r.snapshots[i].freqLight + r.snapshots[i].freqDark == r.snapshots[i].population
  {
    var pool := BuildHaplotypePool(rows);
    var phenotypeOf := BuildPhenotypeMap(pool);
    var schedule := if envSchedule.None? then DefaultSchedule() else envSchedule.value;
    if |schedule| == 0 {
      return Failure(EmptySchedule);
    }
    if nInitial > 0 && |pool.keys| == 0 {
      return Failure(NoHaplotypes);
    }
    if nInitial > 0 && TotalWeight(pool.keys, pool) <= 0.0 {
      return Failure(WeightsNotPositive);
    }
    var snapshots := Simulate(rows, src, ln, nInitial, mutationRate, schedule, pool, phenotypeOf);
    return Success(snapshots);
  }

  /** The part of `run_simulation` after the tables and the schedule are
      built: construct the model, drive it, return its snapshots. */
  method Simulate(rows: seq<CsvRow>, src: DrawSource, ln: real -> real, nInitial: nat, mutationRate: real,
                  schedule: seq<real>, pool: Pool, phenotypeOf: map<string, string>)
    returns (snapshots: seq<Snapshot>)
    requires CanStart(rows, nInitial, schedule)
    requires pool == PoolOf(rows) && phenotypeOf == PhenotypeMapOf(pool.keys)
    ensures |snapshots| == |schedule| + 1
    ensures snapshots[0] == SnapshotOf(InitialColony(rows, src, nInitial, mutationRate).agents, ln)
    ensures snapshots[0].population == nInitial && snapshots[1] == snapshots[0]
    ensures forall i | 0 <= i < |schedule| ::
      snapshots[i + 1] == SnapshotOf(ColonyAfter(InitialColony(rows, src, nInitial, mutationRate), src, schedule,
                                                 WorldOf(rows, mutationRate), i).agents, ln)
    ensures forall i | 0 <= i < |snapshots| :: snapshots[i].freqLight + snapshots[i].freqDark == snapshots[i].population
  {
    var choices := SeedChoices(src, nInitial, |pool.keys|);
    PhenotypeMapOfValues(pool.keys);
    if nInitial > 0 {
      PositiveWeightHasKeys(pool.keys, pool);
    }
    var model := new MothModel(nInitial, pool, phenotypeOf, mutationRate, schedule, ln, choices);
    ghost var w := model.World();
    ghost var seeded := model.Population();
    assert seeded == InitialColony(rows, src, nInitial, mutationRate).agents;
    assert w == WorldOf(rows, mutationRate);
    assert model.Colony() == InitialColony(rows, src, nInitial, mutationRate);
    SnapshotCountsAddUp(seeded, ln) by {
      ColonyIsLightOrDark(InitialColony(rows, src, nInitial, mutationRate), w);
    }
    Drive(model, src, w);
    snapshots := model.snapshots;
  }

  /** The agent draws of any step fit the world of a valid colony: a
      colony with moths has pool keys to reduce the choices to. */
  lemma StepDrawsFit(c: Colony, src: DrawSource, step: nat, w: World)
    requires ColonyValid(c, w)
    ensures DrawsFit(AgentDrawsFor(src, step, |c.agents|, |w.haplotypeIds|), w)
  {
    if |c.agents| > 0 {
      OccupiedWorldHasKeys(c, w);
    }
  }

  /** Step `step` of the drive loop from colony `c` under pressure `env`:
      the model step with that step's shuffle and agent draws. */
  function DriveColony(c: Colony, src: DrawSource, step: nat, env: real, w: World): (r: Colony)
    requires WorldValid(w) && ColonyValid(c, w)
    ensures ColonyValid(r, w)
  {
    var js := SwapDraws(src, step, |c.agents|);
    var draws := AgentDrawsFor(src, step, |c.agents|, |w.haplotypeIds|);
    StepDrawsFit(c, src, step, w);
    StepColonyValid(c, js, env, w, draws);
    StepColony(c, js, env, w, draws)
  }

  /** The colony after the first `k` steps of the drive loop from `c`;
      step `j` runs under the pressure the schedule sets for it. */
  function ColonyAfter(c: Colony, src: DrawSource, schedule: seq<real>, w: World, k: nat): (r: Colony)
    requires |schedule| > 0 && WorldValid(w) && ColonyValid(c, w)
    ensures ColonyValid(r, w)
  {
    if k == 0 then c
    else DriveColony(ColonyAfter(c, src, schedule, w, k - 1), src, k - 1, PressureAfter(schedule, k), w)
  }

  /** The snapshots the first `k` steps of the drive loop take from
      `start`: step `j` records the colony the first `j` steps left. */
  ghost function Trajectory(start: Colony, src: DrawSource, schedule: seq<real>, w: World, ln: real -> real, k: nat)
    : (r: seq<Snapshot>)
    requires |schedule| > 0 && WorldValid(w) && ColonyValid(start, w)
    ensures |r| == k
  {
    if k == 0 then []
    else Trajectory(start, src, schedule, w, ln, k - 1) + [SnapshotOf(ColonyAfter(start, src, schedule, w, k - 1).agents, ln)]
  }

  /** Entry `i` of a trajectory is the snapshot of the colony after `i` steps. */
  lemma {:induction false} TrajectoryAt(start: Colony, src: DrawSource, schedule: seq<real>, w: World, ln: real -> real,
                                        k: nat, i: nat)
    requires |schedule| > 0 && WorldValid(w) && ColonyValid(start, w)
    requires i < k
    ensures Trajectory(start, src, schedule, w, ln, k)[i] == SnapshotOf(ColonyAfter(start, src, schedule, w, i).agents, ln)
  {
    var t := Trajectory(start, src, schedule, w, ln, k - 1);
    var x := SnapshotOf(ColonyAfter(start, src, schedule, w, k - 1).agents, ln);
    assert Trajectory(start, src, schedule, w, ln, k) == t + [x];
    if i < k - 1 {
      TrajectoryAt(start, src, schedule, w, ln, k - 1, i);
      assert (t + [x])[i] == t[i];
      assert Trajectory(start, src, schedule, w, ln, k)[i] == SnapshotOf(ColonyAfter(start, src, schedule, w, i).agents, ln);
    } else {
      assert i == k - 1;
      assert (t + [x])[i] == x;
      assert Trajectory(start, src, schedule, w, ln, k)[i] == SnapshotOf(ColonyAfter(start, src, schedule, w, i).agents, ln);
    }
  }

  /** A snapshot list that is `first` and then a trajectory grows by the
      next step's snapshot into `first` and the longer trajectory. */
  lemma TrajectoryStep(start: Colony, src: DrawSource, schedule: seq<real>, w: World, ln: real -> real,
                       first: Snapshot, taken: seq<Snapshot>, k: nat)
    requires |schedule| > 0 && WorldValid(w) && ColonyValid(start, w)
    requires taken == [first] + Trajectory(start, src, schedule, w, ln, k)
    ensures taken + [SnapshotOf(ColonyAfter(start, src, schedule, w, k).agents, ln)]
      == [first] + Trajectory(start, src, schedule, w, ln, k + 1)
  {
    var t := Trajectory(start, src, schedule, w, ln, k);
    var x := SnapshotOf(ColonyAfter(start, src, schedule, w, k).agents, ln);
    assert Trajectory(start, src, schedule, w, ln, k + 1) == t + [x];
    assert [first] + (t + [x]) == ([first] + t) + [x];
  }

  /** In `first` followed by a trajectory of `k` steps, entry `i + 1` is
      the snapshot of the colony after `i` steps. */
  lemma TrajectoryFollows(start: Colony, src: DrawSource, schedule: seq<real>, w: World, ln: real -> real,
                          first: Snapshot, snaps: seq<Snapshot>, k: nat)
    requires |schedule| > 0 && WorldValid(w) && ColonyValid(start, w)
    requires snaps == [first] + Trajectory(start, src, schedule, w, ln, k)
    ensures |snaps| == k + 1
    ensures forall i | 0 <= i < k :: snaps[i + 1] == SnapshotOf(ColonyAfter(start, src, schedule, w, i).agents, ln)
  {
    forall i | 0 <= i < k
      ensures snaps[i + 1] == SnapshotOf(ColonyAfter(start, src, schedule, w, i).agents, ln)
    {
      TrajectoryEntry(start, src, schedule, w, ln, first, snaps, k, i);
    }
  }

  lemma TrajectoryEntry(start: Colony, src: DrawSource, schedule: seq<real>, w: World, ln: real -> real,
                        first: Snapshot, snaps: seq<Snapshot>, k: nat, i: nat)
    requires |schedule| > 0 && WorldValid(w) && ColonyValid(start, w)
    requires snaps == [first] + Trajectory(start, src, schedule, w, ln, k) && i < k
    ensures snaps[i + 1] == SnapshotOf(ColonyAfter(start, src, schedule, w, i).agents, ln)
  {
    TrajectoryAt(start, src, schedule, w, ln, k, i);
    ConsIndex(first, Trajectory(start, src, schedule, w, ln, k), i);
  }

  lemma ConsIndex(first: Snapshot, t: seq<Snapshot>, i: nat)
    requires i < |t|
    ensures ([first] + t)[i + 1] == t[i]
  {
  }

  /** Every snapshot's light and dark counts add up to its population. */
  predicate CountsAddUp(snaps: seq<Snapshot>) {
    forall i | 0 <= i < |snaps| :: snaps[i].freqLight + snaps[i].freqDark == snaps[i].population
  }

  lemma CountsAddUpSnoc(taken: seq<Snapshot>, s: Snapshot)
    requires CountsAddUp(taken) && s.freqLight + s.freqDark == s.population
    ensures CountsAddUp(taken + [s])
  {
    forall i | 0 <= i < |taken| + 1
      ensures (taken + [s])[i].freqLight + (taken + [s])[i].freqDark == (taken + [s])[i].population
    {
      if i < |taken| {
        assert (taken + [s])[i] == taken[i];
      }
    }
  }

  /** The drive loop: `model.step()` once per schedule entry. Snapshot
      `i + 1` is taken at the start of step `i`, of the colony the first
      `i` steps left; the first step records the population as
      construction left it, and every snapshot has light and dark counts
      adding up to its population. */
  method Drive(model: MothModel, src: DrawSource, ghost w: World)
    requires model.Valid() && model.World() == w && model.currentStep == 0
    requires ColonyValid(model.Colony(), w)
    requires forall k | k in w.phenotypeOf :: w.phenotypeOf[k] == Light || w.phenotypeOf[k] == Dark
    requires model.snapshots == [SnapshotOf(model.Population(), model.ln)]
    requires model.snapshots[0].freqLight + model.snapshots[0].freqDark == model.snapshots[0].population
    modifies model, set a | a in model.agentList
    ensures model.Valid() && model.currentStep == |model.schedule|
    ensures |model.snapshots| == |model.schedule| + 1
    ensures model.snapshots[0] == old(model.snapshots[0]) && model.snapshots[1] == old(model.snapshots[0])
    ensures forall i | 0 <= i < |model.schedule| ::
      model.snapshots[i + 1] == SnapshotOf(ColonyAfter(old(model.Colony()), src, model.schedule, w, i).agents, model.ln)
    ensures model.Colony() == ColonyAfter(old(model.Colony()), src, model.schedule, w, |model.schedule|)
    ensures forall i | 0 <= i < |model.snapshots| ::
      model.snapshots[i].freqLight + model.snapshots[i].freqDark == model.snapshots[i].population
  {
    ghost var first := model.snapshots[0];
    ghost var start := model.Colony();
    for step := 0 to |model.schedule|
      invariant model.Valid() && model.World() == w
      invariant model.currentStep == step
      invariant model.Colony() == ColonyAfter(start, src, model.schedule, w, step)
      invariant model.snapshots == [first] + Trajectory(start, src, model.schedule, w, model.ln, step)
      invariant CountsAddUp(model.snapshots)
      invariant forall a | a in model.agentList :: a in old(model.agentList) || fresh(a)
    {
      ghost var taken := model.snapshots;
      ghost var before := model.Colony();
      DriveStep(model, src, step, w);
      ghost var x := SnapshotOf(before.agents, model.ln);
      assert model.snapshots == taken + [x];
      TrajectoryStep(start, src, model.schedule, w, model.ln, first, taken, step);
      CountsAddUpSnoc(taken, x);
    }
    TrajectoryFollows(start, src, model.schedule, w, model.ln, first, model.snapshots, |model.schedule|);
  }

  /** One pass of the drive loop: `model.step()` with the draws of step
      `step`, which gives the colony `DriveColony` describes. The snapshot
      it records has light and dark counts adding up to its population. */
  method DriveStep(model: MothModel, src: DrawSource, step: nat, ghost w: World)
    requires model.Valid() && model.World() == w && model.currentStep == step
    requires ColonyValid(model.Colony(), w)
    requires forall k | k in w.phenotypeOf :: w.phenotypeOf[k] == Light || w.phenotypeOf[k] == Dark
    modifies model`agentList, model`numAgents, model`snapshots, model`currentStep, model`environmentalPressure,
             model.agentList
    ensures model.Valid()
    ensures model.currentStep == old(model.currentStep) + 1
    ensures model.snapshots == old(model.snapshots) + [SnapshotOf(old(model.Population()), model.ln)]
    ensures model.Colony() == DriveColony(old(model.Colony()), src, step, PressureAfter(model.schedule, step + 1), w)
    ensures model.snapshots[|model.snapshots| - 1].freqLight + model.snapshots[|model.snapshots| - 1].freqDark
      == model.snapshots[|model.snapshots| - 1].population
    ensures forall a | a in model.agentList :: a in old(model.agentList) || fresh(a)
  {
    var n := |model.agentList|;
    var shuffleDraws := SwapDraws(src, step, n);
    var draws := AgentDrawsFor(src, step, n, |model.pool.keys|);
    StepDrawsFit(model.Colony(), src, step, w);
    ColonyIsLightOrDark(model.Colony(), w);
    SnapshotCountsAddUp(model.Population(), model.ln);
    model.Step(shuffleDraws, draws);
  }
}
