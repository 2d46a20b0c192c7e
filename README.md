# Peppered-moth haplotype simulations, modelled in Dafny

The repository studies the mitochondrial haplotypes of a moth population with two simulations and a
small set of sequence utilities:

- **Selection model** (`model/MothAgent.py`, `model/mothModel.py`, `model/runModel.py`). A Mesa-style
  agent-based model. Each moth carries a haplotype id, a phenotype (`"light"` or `"dark"`) and a
  fitness. Every step the model sets the environmental pressure from a schedule, records its
  population statistics, shuffles its agent list and lets every agent present at the start of the
  step act once, in that order. An acting agent:
  1. recomputes its fitness under the current pressure;
  2. mutates with probability `mutation_rate` to a random haplotype from the pool;
  3. dies when its fitness is below 0.1;
  4. otherwise reproduces with probability fitness × pressure, appending one child with the next id.

  The driver builds the haplotype pool and the phenotype table from CSV rows, uses a default schedule
  of ten steps at 0.2 followed by ten at 0.8, and runs one step per schedule entry.
- **Neutral drift** (`model/newModel.py`). Starting from a per-haplotype count table, it expands the
  table into a population of labels. Each generation it records Nei's haplotype diversity and
  Shannon's index, then resamples the population. Each offspring copies a random parent, or with
  probability `mutation_rate` takes a random haplotype of the table.
- **Sequence utilities** (`src/utils.py`). `validate_sequence` accepts a DNA sequence when it is
  non-empty, has a length within the bounds, uses only IUPAC codes once uppercased, and has at most
  10 % ambiguous codes. `clean_sequence` strips whitespace, uppercases and drops every non-IUPAC
  character.

## How the model is organised

- `sequence_utils.dfy` (module `SequenceUtils`) holds the two sequence functions. Each is proved
  against a characterisation: the exact acceptance condition, and for the cleaner, its output alphabet,
  the subsequence relation, preserved code counts and idempotence. The module's self-test inputs are
  worked out as lemmas.
- `tally.dfy` (`Tally`) holds counting over sequences. `Distinct` lists the labels in first-occurrence
  order, which is the key order of a Python `dict` or `Counter` built by scanning a sequence.
- `py_dict.dfy` (`PyDict`) models an insertion-ordered Python dictionary: a key sequence plus a map.
- `diversity.dfy` (`Diversity`) defines Shannon's index and Nei's haplotype diversity over a
  population of labels, and proves their bounds and monomorphic values.
- `selection.dfy` (`Selection`) gives the value-level specification of an agent's step (`ActOne`) and of
  a generation of steps (`ActAll`) on a `Colony` of agent states. It proves that the step keeps the
  colony valid: ids are distinct and issued, and each phenotype matches its haplotype.
- `shuffling.dfy` (`Shuffling`) models the shuffle as a Fisher–Yates sequence of swaps fixed by
  explicit draws, and proves it a permutation.
- `moth_simulation.dfy` (`MothSimulation`) holds the classes `MothAgent` and `MothModel`, whose
  methods update fields in place as the Python does. Each method's new state is tied to the `Selection`
  functions, and `Valid()` is kept as an invariant. `Snapshot` is one row of the data collector. The
  collector is the field `snapshots`, a sequence appended to by `Collect`.
- `neutral_drift.dfy` (`NeutralDrift`) holds the count-table expansion, the resampling loop and the
  generation loop. Each is proved against a specification function of its inputs.
- `run_model.dfy` (`RunModel`) holds the driver. It covers the pool and phenotype loops, the default
  schedule, the construction of the model, and the drive loop. Its error paths are modelled as a
  result value.

Every random quantity is an explicit input. An agent's step takes an `AgentDraws` record (mutation
draw, pool index, reproduction draw), the shuffle takes its swap indices, and the drift model takes one
`OffspringDraw` per offspring. The driver derives all of them from a `DrawSource` of total functions.
The natural logarithm is a parameter `ln`. A lemma that needs `ln(1) = 0`, or `ln p <= 0` on (0, 1],
says so in its `requires`.

Where the code and the project's documentation differ, the model follows the code. The code has no
population cap, raises no configuration error of its own, and has exactly two phenotypes with the
fitness law of `model/MothAgent.py:46-50`.

## Model

| member | source | states |
|---|---|---|
| SequenceUtils.Upper | src/utils.py:49 | uppercasing keeps the length and maps each character through the ASCII upper-case map |
| SequenceUtils.AmbiguousCount | src/utils.py:55 | the number of ambiguous codes never exceeds the length |
| SequenceUtils.ValidateSequence | src/utils.py:28-61 | true exactly when the sequence is non-empty, its length is within both bounds, every uppercased character is an IUPAC code and ten times the ambiguous count is at most the length |
| SequenceUtils.TenPercentRule | src/utils.py:55-59 | the share a/n exceeds 0.1 exactly when 10·a > n, so a sequence with exactly 10 % ambiguous codes passes |
| SequenceUtils.InvalidCharacterRejects | src/utils.py:48-52 | one character that is not an IUPAC code once uppercased makes any sequence invalid |
| SequenceUtils.ValidateRepeated | src/utils.py:44-59 | k copies of a block of IUPAC codes are valid exactly when k times the block length is within the bounds and the block keeps the ten-percent rule |
| SequenceUtils.ValidateExamples | src/utils.py:140-150 | the 425-base test sequence passes, the 40-base one fails, and the 500 N's fail |
| SequenceUtils.ValidateExampleWithNonCodes | src/utils.py:143 | the 350-character test sequence with X, Y, Z characters fails |
| SequenceUtils.CleanSequence | src/utils.py:63-83 | the result has only IUPAC codes, is a subsequence of the uppercased input, is no longer than the input, and keeps the count of every IUPAC code of the uppercased input |
| SequenceUtils.CleanAsOneFilter | src/utils.py:77-81 | removing whitespace and then filtering to codes equals filtering the uppercased input to codes |
| SequenceUtils.KeepIupacProperties | src/utils.py:80-81 | the filter keeps exactly the IUPAC codes, in order, with their counts |
| SequenceUtils.CleanFixesIupacSequences | src/utils.py:63-83 | a sequence of uppercase IUPAC codes is returned unchanged |
| SequenceUtils.CleanIdempotent | src/utils.py:63-83 | cleaning twice equals cleaning once |
| SequenceUtils.CleanOfEmpty | src/utils.py:73-74 | the empty sequence cleans to the empty sequence |
| SequenceUtils.CleanExample | src/utils.py:153-154 | the module's dirty test sequence cleans to "ATGCGATCNNNNY" |
| Tally.Count | model/mothModel.py:81 | a count is at most the length of the sequence, and positive exactly when the label occurs |
| Tally.Distinct | model/newModel.py:29 | the distinct labels have no duplicates and are exactly the labels present |
| Tally.SumCountsOfDistinct | model/mothModel.py:72 | the counts of the distinct labels add up to the population size |
| Tally.CountTwoLabels | model/mothModel.py:35-36 | in a population of two labels, the two counts add up to its size |
| PyDict.Put | model/mothModel.py:71 | putting a key keeps the dictionary valid and maps the key to the value, leaving the other entries as they were |
| PyDict.GetOr | model/mothModel.py:71 | `get` with a default returns the stored value for a present key and the default otherwise |
| PyDict.PutKeysFollowDistinct | model/runModel.py:20-26 | putting the labels of a sequence in order leaves the keys in first-occurrence order |
| Diversity.HaplotypeDiversity | model/newModel.py:27-34 | Hd is 0 for a population of at most one |
| Diversity.ShannonOfEmpty | model/mothModel.py:67-78 | an empty population has Shannon index 0 |
| Diversity.ShannonMonomorphic | model/newModel.py:36-41 | a non-empty population of one label has Shannon index 0 when ln 1 = 0 |
| Diversity.ShannonNonNegative | model/newModel.py:36-41 | Shannon's index is non-negative whenever ln is non-positive on (0, 1] |
| Diversity.HaplotypeDiversityMonomorphic | model/newModel.py:27-34 | a non-empty population of one label has Hd 0 |
| Diversity.HaplotypeDiversityNonNegative | model/newModel.py:30-33 | the squared frequencies sum to at most 1, so Hd is never negative |
| Diversity.SquaredCountSumBound | model/newModel.py:33 | the squared class counts sum to at most N times the summed counts |
| Diversity.ThreeToOneExample | model/newModel.py:27-41 | counts {A: 3, B: 1} give Hd = 1/2 and H = -(3/4·ln 3/4 + 1/4·ln 1/4) |
| Selection.Fitness | model/MothAgent.py:40-50 | fitness lies in [0.5, 1] for pressure in [0, 1]; it is 0.75 for both phenotypes at pressure 0.5; dark scores 1 at pressure 1 and every other phenotype scores 1 at pressure 0 |
| Selection.DarkFavouredAboveHalf | model/MothAgent.py:46-50 | above pressure 0.5 a dark moth is strictly fitter than any other phenotype, and below it strictly less fit |
| Selection.AfterMutation | model/MothAgent.py:15-25 | after the first two parts of a step the id is kept and the fitness is that of the current phenotype; below the mutation rate the haplotype is the drawn pool entry with its phenotype, otherwise haplotype and phenotype are kept |
| Selection.NoDeathInUnitRange | model/MothAgent.py:27-31 | under pressure in [0, 1] no agent dies |
| Selection.AfterMutationConsistent | model/MothAgent.py:19-25 | a consistent agent stays consistent: its phenotype is the table's phenotype for its haplotype |
| Selection.RemoveKeepsValid | model/MothAgent.py:28-31 | removing a dead agent keeps the colony valid |
| Selection.UpdateKeepsValid | model/MothAgent.py:15-25 | replacing an agent by a consistent state with the same id keeps the colony valid |
| Selection.BirthKeepsValid | model/MothAgent.py:34-38 | appending a child with the next id keeps the colony valid |
| Selection.ActOneValid | model/MothAgent.py:14-38 | one agent's step keeps the colony valid |
| Selection.ActOneAt | model/MothAgent.py:14-38 | the step of the agent at position i is `Settle` of its state after mutation |
| Selection.ChildIdIsFresh | model/MothAgent.py:36-38 | the last issued id never decreases, and a newly issued id is not in use |
| Selection.ActAllValid | model/mothModel.py:62-63 | a whole generation of steps keeps the colony valid |
| Selection.NoDeathKeepsOrder | model/MothAgent.py:27-38 | under pressure in [0, 1] one step keeps every agent in its place and grows the list by the number of ids issued |
| Selection.NoDeathKeepsOrderAll | model/mothModel.py:62-63 | the same for a whole generation |
| Selection.NewbornsDoNotActOne | model/MothAgent.py:34-38 | an agent with an id above the bound keeps fitness 1 through a step of an agent at or below it |
| Selection.NewbornsDoNotAct | model/mothModel.py:62-63 | agents born during a generation do not act in it: each still has the fitness 1 it was born with |
| Shuffling.Swap | model/mothModel.py:60 | a swap keeps the length and exchanges the two positions |
| Shuffling.SwapIsPermutation | model/mothModel.py:60 | a swap keeps the multiset of elements |
| Shuffling.ShuffledIsPermutation | model/mothModel.py:60 | the shuffle keeps the length, the multiset of elements and membership |
| Shuffling.ShuffledKeepsDistinct | model/mothModel.py:60 | the shuffle keeps distinct keys distinct |
| Shuffling.ShuffledShort | model/mothModel.py:60 | a list of at most one element is left as it is |
| Shuffling.ShuffleFromIdentityDraws | model/mothModel.py:60 | draws that swap each position with itself leave the list unchanged |
| MothSimulation.PressureAfterNext | model/mothModel.py:55-56 | the pressure after a step is the schedule entry for that step while one exists, and otherwise the previous pressure |
| MothSimulation.ShuffledColonyValid | model/mothModel.py:60 | shuffling the agents of a valid colony gives a valid colony |
| MothSimulation.StepColonyValid | model/mothModel.py:54-65 | the model step on a valid colony gives a valid colony |
| MothSimulation.SnapshotCountsAddUp | model/mothModel.py:33-36 | in a two-phenotype colony, the light and dark counts of a snapshot add up to its population |
| MothSimulation.SnapshotDiversityOfOneHaplotype | model/mothModel.py:67-78 | a snapshot of a colony of one haplotype has diversity 0 when ln 1 = 0 |
| MothSimulation.Seeded | model/mothModel.py:28-29 | seeding with n choices gives n agent states |
| MothSimulation.SeededAt | model/mothModel.py:45-52 | the i-th seeded agent has id i + 1, the i-th chosen haplotype, its phenotype and fitness 1 |
| MothSimulation.SeededIsValid | model/mothModel.py:28-29 | the seeded colony with last id n is valid |
| MothSimulation.SeededIdsDistinct | model/mothModel.py:83-85 | the seeded ids are distinct |
| MothSimulation.SeededConsistent | model/mothModel.py:49 | every seeded agent's phenotype is the table's phenotype for its haplotype |
| MothSimulation.CountPhenotypeIn | model/mothModel.py:80-81 | the count over agent objects equals the count over their states |
| MothSimulation.CountsStep | model/mothModel.py:68-71 | one counting step extends a counting dictionary of a prefix to one of the prefix plus the next haplotype |
| MothSimulation.SumValuesOfCounts | model/mothModel.py:72-78 | over a counting dictionary, the summed values are the population size and the fold of the entropy terms is the entropy sum over the distinct labels |
| MothSimulation.CountsGiveShannon | model/mothModel.py:67-78 | the entropy computed from a counting dictionary is Shannon's index of the counted population |
| MothSimulation.CountsEntropy | model/mothModel.py:72-78 | the total and the H-loop over a dictionary give minus the sum of the entropy terms of its values, in key order; with `CountsGiveShannon` this is Shannon's index |
| MothSimulation.ShuffleFacts | model/mothModel.py:60 | shuffling agent objects shuffles their states with the same draws, keeps their ids distinct, and keeps the same objects |
| MothSimulation.MothAgent.constructor | model/MothAgent.py:6-12 | the new agent has the given id, haplotype and phenotype, fitness 1, and refers to its model |
| MothSimulation.MothAgent.CalculateFitness | model/MothAgent.py:40-50 | fitness becomes the fitness law for the agent's phenotype under the model's current pressure |
| MothSimulation.MothAgent.Step | model/MothAgent.py:14-38 | the agent's state becomes its state after mutation; the model's colony becomes `Settle` of the old colony at the agent's position; a dying agent leaves the list, a reproducing agent is followed by one fresh child, otherwise the list is unchanged; every listed agent was listed before or is new |
| MothSimulation.MothAgent.LeaveOrReproduce | model/MothAgent.py:27-38 | the death test and the reproduction test applied to the agent's state after mutation give `Settle` |
| MothSimulation.MothAgent.Mutate | model/MothAgent.py:15-25 | the agent's state becomes `AfterMutation` of its old state under the model's pressure, and only its own entry of the population changes |
| MothSimulation.MothAgent.Leave | model/MothAgent.py:28-31 | the agent is removed from the model's list, the other agents keep their order, and nothing else changes |
| MothSimulation.MothAgent.GiveBirth | model/MothAgent.py:34-38 | the model issues the next id and appends one fresh child with the parent's haplotype, phenotype and fitness 1 |
| MothSimulation.MothModel.constructor | model/mothModel.py:7-43 | the model is valid; it holds the given tables, rate and schedule; the step counter is 0 and the pressure is the first schedule entry; the list holds the seeded agents with ids 1 to n; the collector holds one snapshot of them |
| MothSimulation.MothModel.Populate | model/mothModel.py:28-43 | seeding followed by the first collection gives the seeded population and one snapshot |
| MothSimulation.MothModel.FirstCollect | model/mothModel.py:31-43 | the collector holds exactly the snapshot of the seeded population |
| MothSimulation.MothModel.Seed | model/mothModel.py:28-29 | the seeding loop gives the `Seeded` population and issues n ids |
| MothSimulation.MothModel.AddInitialAgent | model/mothModel.py:45-52 | one fresh agent with the next id, the chosen haplotype, its phenotype and fitness 1 is appended |
| MothSimulation.MothModel.NextId | model/mothModel.py:83-85 | the id counter grows by one and the new value is returned |
| MothSimulation.MothModel.Collect | model/mothModel.py:31-43 | the collector gains the snapshot of the current population: Shannon diversity, size, light count and dark count |
| MothSimulation.MothModel.Step | model/mothModel.py:54-65 | the model stays valid; the pressure follows `PressureAfter`; one snapshot of the population before the step is appended; the colony becomes `StepColony` of the old colony with the shuffle and agent draws; the step counter grows by one |
| MothSimulation.MothModel.Record | model/mothModel.py:55-58 | the pressure is updated from the schedule while entries remain, and the snapshot is appended |
| MothSimulation.MothModel.Advance | model/mothModel.py:60-65 | shuffle, act and count the step, giving `StepColony` of the old colony |
| MothSimulation.MothModel.Tick | model/mothModel.py:65 | the step counter grows by one and nothing else changes |
| MothSimulation.MothModel.ShuffleAndAct | model/mothModel.py:60-63 | the colony becomes `ActAll` over the shuffled ids |
| MothSimulation.MothModel.ActAgents | model/mothModel.py:62-63 | every agent listed at the start acts once in that order, giving `ActAll` over their ids; agents born in the loop do not act |
| MothSimulation.MothModel.ShuffleAgents | model/mothModel.py:60 | the agent list becomes `Shuffled` of the old list, and the colony stays valid |
| MothSimulation.MothModel.ActingStep | model/mothModel.py:62-63 | one iteration of the acting loop applies `ActOne` for the k-th listed id |
| MothSimulation.MothModel.CountPhenotype | model/mothModel.py:80-81 | the number of agents whose phenotype equals the label |
| MothSimulation.MothModel.ComputeShannonDiversity | model/mothModel.py:67-78 | the result is Shannon's index of the agents' haplotypes |
| MothSimulation.MothModel.CountHaplotypes | model/mothModel.py:68-71 | the counting loop gives a dictionary with the distinct haplotypes, in first-occurrence order, each mapped to its count |
| NeutralDrift.ExpansionCount | model/newModel.py:23-25 | each table key occurs in the expansion as many times as its count says, and every other label occurs nowhere |
| NeutralDrift.ExpansionLength | model/newModel.py:23-25 | the expansion's length is the total of the copies |
| NeutralDrift.ExpansionWithinKeys | model/newModel.py:21-25 | every label of the expansion is a table key |
| NeutralDrift.Expand | model/newModel.py:23-25 | the expansion loop gives the specified expansion |
| NeutralDrift.Resampled | model/newModel.py:55-62 | one offspring per draw |
| NeutralDrift.ResampledAt | model/newModel.py:57-62 | offspring i is the drawn parent's label, or the drawn table key when the mutation draw is below the rate |
| NeutralDrift.NextGeneration | model/newModel.py:55-62 | the resampling loop gives `Resampled` of the current population |
| NeutralDrift.ResampledLabels | model/newModel.py:58-61 | every offspring is a label of the parents or a table key |
| NeutralDrift.ResampledWithoutMutation | model/newModel.py:58-61 | at mutation rate 0, with non-negative mutation draws, every offspring is a label of the parents |
| NeutralDrift.PopulationAt | model/newModel.py:64 | resampling keeps the population size in every generation |
| NeutralDrift.PopulationAtWithinTable | model/newModel.py:55-64 | when the initial labels are table keys, every generation holds only table keys |
| NeutralDrift.PopulationAtWithoutMutation | model/newModel.py:55-64 | at mutation rate 0, with non-negative mutation draws, every label of every generation was present at the start |
| NeutralDrift.RowsAt | model/newModel.py:46-53 | row g of the results is the generation number, Hd and H of generation g |
| NeutralDrift.RunDiversitySimulation | model/newModel.py:20-64 | one row per generation; row g holds g, Hd and Shannon's index of the g-th resampled population |
| NeutralDrift.RunInvariants | model/newModel.py:43-64 | in every generation the population size is the total of the table counts, and every label is a table key |
| RunModel.RowIds | model/runModel.py:21-22 | one haplotype id per CSV row |
| RunModel.PoolOf | model/runModel.py:20-26 | the pool is a valid insertion-ordered dictionary |
| RunModel.LastRecordIsLast | model/runModel.py:21-26 | a key's record comes from the last row with that id |
| RunModel.PoolOfContents | model/runModel.py:20-26 | every row id is a key, and every key maps to the record of its last row |
| RunModel.BuildHaplotypePool | model/runModel.py:20-26 | the pool loop gives `PoolOf` the rows |
| RunModel.PhenotypeFor | model/runModel.py:30 | an id ending in "002" is dark and every other id is light |
| RunModel.PhenotypeForExamples | model/runModel.py:30 | "Hap_002" and "002" are dark; "Hap_012", "02" and "" are light |
| RunModel.PhenotypeMapOf | model/runModel.py:28-30 | the keys of the phenotype table are exactly the pool keys |
| RunModel.PhenotypeMapOfValues | model/runModel.py:28-30 | every pool key maps to its phenotype by the suffix rule |
| RunModel.BuildPhenotypeMap | model/runModel.py:28-30 | the phenotype loop gives `PhenotypeMapOf` the pool keys |
| RunModel.DefaultSchedule | model/runModel.py:32-33 | twenty entries, the first ten 0.2 and the last ten 0.8 |
| RunModel.SeedChoices | model/mothModel.py:48 | n seeding choices, each a valid pool index |
| RunModel.SwapDraws | model/mothModel.py:60 | one swap index per position, each within the valid range for that position |
| RunModel.AgentDrawsFor | model/MothAgent.py:19-35 | one draw record per acting agent, each choice a valid pool index |
| RunModel.ColonyIsLightOrDark | model/runModel.py:28-30 | when the phenotype table knows only light and dark, every agent of a valid colony is light or dark |
| RunModel.WorldOf | model/runModel.py:20-30 | the driver's world is valid: its pool keys are distinct and each has a phenotype |
| RunModel.InitialColony | model/mothModel.py:28-29 | the colony the model is seeded with is valid and holds n agents |
| RunModel.RunSimulation | model/runModel.py:7-45 | succeeds exactly when the schedule is non-empty and, for a non-empty population, the pool weights have a positive total; an empty schedule fails with `EmptySchedule`, and an empty pool with agents to seed fails with `NoHaplotypes`; on success there is one snapshot per step plus the initial one, the first two are the seeded population's, snapshot i + 1 is the snapshot of the colony the first i steps leave from the seeded colony (`ColonyAfter`), and the light and dark counts add up in each |
| RunModel.Simulate | model/runModel.py:35-45 | constructing and driving the model gives the snapshots described for `RunSimulation`, each later one tied to `ColonyAfter` of the seeded colony |
| RunModel.DriveColony | model/runModel.py:43-45 | one pass of the drive loop on a colony: `StepColony` with that step's shuffle and agent draws, which gives a valid colony |
| RunModel.ColonyAfter | model/runModel.py:43-45 | the colony after the first k passes of the drive loop, each under the pressure the schedule sets for it; it is valid |
| RunModel.Drive | model/runModel.py:43-45 | the model stays valid and its step counter reaches the schedule length; there is one snapshot per step plus the initial one; the first snapshot stays in place and the second repeats it; snapshot i + 1 is the snapshot of `ColonyAfter` the first i steps, and the final colony is `ColonyAfter` all of them; the light and dark counts add up in every snapshot |
| RunModel.DriveStep | model/runModel.py:43-45 | one iteration of the drive loop: the model stays valid, its step counter grows by one, the snapshot of the population before the step is appended, and the colony becomes `DriveColony` of the old colony under the pressure for that step |
| Diversity.Shannon | model/mothModel.py:67-78 | Shannon's index, minus the sum of p ln p over the distinct labels; `ShannonOfEmpty`, `ShannonMonomorphic` and `ShannonNonNegative` give its values, and `CountsGiveShannon` ties the counting loop to it |
| Selection.ActOne | model/MothAgent.py:14-38 | one agent's step: the listed agent's position is settled with its state after mutation (`ActOneAt`); it keeps the colony valid (`ActOneValid`); the drive never passes an unlisted id, since a moth leaves the list only in its own step, and for such an id the function returns the colony unchanged, whereas the agent's step would still mutate it and could append a child |
| Selection.Settle | model/MothAgent.py:27-38 | a dying state leaves the list, a reproducing one is followed by a child with the next id, any other replaces the old state; `RemoveKeepsValid`, `BirthKeepsValid` and `UpdateKeepsValid` keep the colony valid |
| Selection.ActAll | model/mothModel.py:62-63 | the listed ids act in order, each with its own draws; `ActAllValid`, `NoDeathKeepsOrderAll` and `NewbornsDoNotAct` state what a generation keeps |
| Shuffling.ShuffleFrom | model/mothModel.py:60 | the Fisher–Yates swaps from position i downwards keep the length; `ShuffleFromIsPermutation` keeps the multiset of elements |
| Shuffling.Shuffled | model/mothModel.py:60 | `random.shuffle` under explicit swap draws; `ShuffledIsPermutation` and `ShuffledKeepsDistinct` make it a permutation that keeps distinct keys distinct |
| MothSimulation.StepColony | model/mothModel.py:60-63 | the agent part of a step: shuffle, then `ActAll` over the shuffled ids; `StepColonyValid` keeps the colony valid |
| MothSimulation.PressureAfter | model/mothModel.py:54-56 | the pressure after a number of steps, starting from the first schedule entry as at line 24; `PressureAfterNext` gives its update |
| MothSimulation.SnapshotOf | model/mothModel.py:31-36 | the four model reporters of a population; `SnapshotCountsAddUp` and `SnapshotDiversityOfOneHaplotype` give its counts and diversity |
| MothSimulation.TotalWeight | model/mothModel.py:47-48 | the total of the frequency weights over the pool keys; seeding can start only when it is positive (`CanStart`) |
| NeutralDrift.Expansion | model/newModel.py:23-25 | the labels repeated by their counts, in key order; `ExpansionCount`, `ExpansionLength` and `ExpansionWithinKeys` give its counts, length and labels |
| NeutralDrift.Offspring | model/newModel.py:58-61 | the drawn table key when the mutation draw is below the rate, otherwise the drawn parent's label; `ResampledLabels` bounds its labels |
| NeutralDrift.RowOf | model/newModel.py:47-53 | the generation number with Hd and Shannon's index of the population; `RowsAt` places it in the results |
| SequenceUtils.ToUpper | src/utils.py:49 | maps a–z to A–Z and leaves every other character; `ToUpperOfIupac` fixes every IUPAC code |
| SequenceUtils.RemoveWhitespace | src/utils.py:77 | drops every whitespace character, keeping the others in order; `CleanAsOneFilter` shows the drop is subsumed by the code filter |
| SequenceUtils.KeepIupac | src/utils.py:80-81 | keeps the IUPAC codes in order; `KeepIupacProperties` states it keeps exactly those, with their counts |
| Tally.Remove | model/MothAgent.py:29-30 | `list.remove`: drops the first occurrence when present, else leaves the list; `MothAgent.Leave` uses it |
| Tally.IndexOf | model/MothAgent.py:30 | the index of the first occurrence of a present element |
| Tally.Tabulate | model/newModel.py:43-53 | the list of f(0) … f(n − 1), of length n; `TabulateAt` gives each entry |
| RunModel.ScheduleOf | model/runModel.py:32-33 | the default schedule when none is given, otherwise the given one |
| RunModel.EndsWith | model/runModel.py:30 | `str.endswith`: the suffix is no longer than the string and matches its tail; `PhenotypeForExamples` works it out on ids |
| RunModel.CanStart | model/runModel.py:35-41 | the model can be built: the schedule is non-empty (line 24 of `model/mothModel.py` reads its first entry) and, with agents to seed, the weights have a positive total (line 48 there draws from them); `RunSimulation` succeeds exactly when it holds |

## Left out

- Reading CSV files, writing the results CSV, the Streamlit pages, logging, checkpoints and the debug
  prints are I/O and are left out. The driver takes the CSV rows as a sequence of `CsvRow`, and the
  drift model takes its count table as a `CountTable`.
- The data collector's agent reporters and its pandas dataframe are left out. The model-level
  reporters become the `Snapshot` rows.
- The pseudo-random generator is replaced by explicit draws. `random.choices` with weights is
  reduced to "some pool key", taken from a drawn index modulo the number of keys. The frequency
  weights only decide whether seeding can start at all (their total must be positive). The
  distribution of the draws is not modelled.
- Floating point is modelled with exact reals. Rounding, NaN and infinities are absent. The
  logarithm is a parameter, not `math.log` or `numpy.log`.
- `str.upper` is modelled on ASCII letters only. Python's full Unicode case mapping, which can change
  a string's length, is left out.
- `int(count)` in the expansion is modelled on integer counts, with non-positive counts giving no
  copies. Truncation of fractional counts is not modelled.
- `max_fitness_value` is stored in the field `maxFitnessValue` (default 1.5); no rule reads it, as in the code.
- Mesa's `Model` base class is left out. The model keeps its own agent list and id counter, as the
  code does.
- `N_initial` and `generations` are taken as `nat`. A negative value makes Python's `range` empty,
  which behaves like 0, so only the type is narrowed.
- A missing CSV file raises `FileNotFoundError`; this is I/O and is not modelled.
  An empty pool, or seeding weights of non-positive total, makes `random.choices` raise. An empty schedule
  makes `environment_schedule[0]` raise. These raises are modelled as `Failure` values.
- Several Python methods are split into helper methods (`Populate`, `Seed`, `FirstCollect`,
  `Record`, `Advance`, `Tick`, `ShuffleAndAct`, `ActingStep`, `LeaveOrReproduce`, `DriveStep`), each
  proved against the same specification functions.
