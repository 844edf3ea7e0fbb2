# smif decision core, inputs and coordinates in Dafny

This project models three parts of smif, the simulation modelling integration
framework:

- **Decision management** (`src/smif/decision/decision.py`). The
  `DecisionManager` merges the intervention registers of the sector models. It
  gathers the planned interventions from the initial conditions and the
  pre-specified-planning strategies, and sets up at most one dynamic decision
  module. It then generates bundles of (decision iteration, timestep) pairs.
  For each pair it writes a post-decision state to the store: the
  pre-decision state united with the new decisions, or a placeholder when both
  are empty.
- **Decision modules.** The `DecisionModule` base class keeps a register of
  interventions and the set of names already decided. `PreSpecified` admits a
  planned intervention at a timestep when it is buildable by the following
  model year and still within its technical lifetime. `RuleBased` advances a
  single timestep at a time, one decision iteration per bundle, linking each
  bundle to the last iteration of the previous timestep.
- **Model inputs** (`smif/inputs.py`). Parameter and decision-variable lists
  are parsed from an inputs dictionary into arrays ordered by each entry's
  `index`. A parameter's value can be updated within its bounds.
- **Coordinates** (`src/smif/metadata/coordinates.py`). A named, non-empty
  list of elements is given as plain ids or as records with a `name`. It is
  stored as parallel lists of ids and records.

Files:

| file | module | models |
|---|---|---|
| `wrappers.dfy` | `Wrappers` | `Option`, `Result` and `Outcome` (a result without a value) |
| `records.dfy` | `Records` | Python values (int, str, `None`), `int()` on text, timestep lists, decisions, bundles, the state store and the results handle |
| `decision_module.dfy` | `DecisionModules` | `DecisionModule` |
| `pre_specified.dfy` | `PreSpecifiedPlanning` | `PreSpecified` |
| `rule_based.dfy` | `RuleBasedPlanning` | `RuleBased`, with its generator as a state machine |
| `decision_manager.dfy` | `Manager` | `DecisionManager` and its construction from strategies |
| `inputs.dfy` | `Inputs` | `ModelElement`, `InputFactory`, `ParameterList`, `DecisionVariableList` |
| `coordinates.dfy` | `Metadata` | `Coordinates` |

Modelling choices:

- Subclassing becomes composition. `PreSpecified` and `RuleBased` each hold a
  `DecisionModule` as `base`.
- A build year or lifetime is a Python value: `IntVal`, `StrVal` or `NoneVal`.
  `int()` accepts an optional sign followed by ASCII digits.
- Python exceptions become the `Error` datatype carried by `Result` or
  `Outcome`. An operation that raises returns `Failure`/`Fail`.
- The store is a map from (timestep, iteration) to the set of decisions
  written there.
- The `decision_loop` generator becomes the method `NextBundle`. Each call
  returns the next bundle, or `None` once the loop has ended. A flag records
  that the single pre-specified bundle has already been produced.
- The `RuleBased` generator is the function `Advance` on a `RuleState` value.
  `RuleBased.Next` is proved to follow `Advance`.
- numpy arrays become Dafny `array`s. An unassigned slot is zero: the empty
  name, `0.0`, and bounds `(0.0, 0.0)`. Names are stored in a `U30` array, so
  they are truncated to 30 characters (`StoredName`). A negative index wraps
  once, as numpy does (`ResolveIndex`).

Two behaviours of the code that are easy to misread:

- `PreSpecified.buildable` compares the build year with the *next* model
  year, as its docstring at decision.py:549-551 says. With timesteps
  `[2005, 2010, 2015, 2020]`, a build year of 2011 is buildable at 2010 but
  not at 2005 (`BuildableExample`).
- `PreSpecified._get_next_decision_iteration` (decision.py:491-495) returns
  the same bundle on every call (`NextDecisionIteration`). The manager
  calls it nowhere: without a dynamic module, `decision_loop` builds the
  single bundle itself and yields it once (`NextBundle`, `SingleBundle`).

## Model

| member | source | states |
|---|---|---|
| Records.ToInt | src/smif/decision/decision.py:536 | `int()` of an int is itself; of `None` a TypeError; of text, success exactly when the text parses as an integer, otherwise a ValueError |
| Records.ParseIntShowInt | src/smif/decision/decision.py:536 | parsing the decimal text of any integer gives that integer back, so `int(str(n)) == n` for every year `n` |
| Records.Min | src/smif/decision/decision.py:353-355 | `min(timesteps)` is a timestep no larger than any other |
| Records.Max | src/smif/decision/decision.py:357-359 | `max(timesteps)` is a timestep no smaller than any other |
| Records.MinMaxIncreasing | src/smif/decision/decision.py:353-359 | for strictly increasing timesteps, the first and last elements are the minimum and maximum |
| Records.IndexOf | src/smif/decision/decision.py:558 | `list.index` returns the first position holding the timestep |
| Records.IndexOfIncreasing | src/smif/decision/decision.py:558 | in strictly increasing timesteps, the index of the k-th timestep is k |
| Records.ResultsHandle.PreviousTimestep | src/smif/decision/decision.py:500-508 | the timestep before the current one; a TimestepResolution error at the first timestep |
| Records.ResultsHandle.GetState | src/smif/decision/decision.py:500-508 | the state stored at (timestep, iteration), or DataNotFound when none was written |
| DecisionModules.Names | src/smif/decision/decision.py:403-407 | the names of the decisions, in order |
| DecisionModules.RecordAllSucceedsIff | src/smif/decision/decision.py:395-407 | recording a list of names succeeds exactly when the names are distinct and none was already decided; on success the decided set grows by exactly those names; a failure is a ValueError and only adds names |
| DecisionModules.DecisionModule.constructor | src/smif/decision/decision.py:344-348 | keeps the timesteps and register; nothing is decided yet |
| DecisionModules.DecisionModule.FirstTimestep | src/smif/decision/decision.py:353-355 | the least model timestep |
| DecisionModules.DecisionModule.LastTimestep | src/smif/decision/decision.py:357-359 | the greatest model timestep |
| DecisionModules.DecisionModule.Interventions | src/smif/decision/decision.py:365-378 | the register without the decided names, with the same entries |
| DecisionModules.DecisionModule.SetDecision | src/smif/decision/decision.py:395-401 | a name already decided is a ValueError and changes nothing; otherwise it is added and leaves the available interventions |
| DecisionModules.DecisionModule.UpdateDecisions | src/smif/decision/decision.py:403-407 | the loop records the names one by one, with the outcome and final set given by `RecordAll` |
| DecisionModules.DecisionModule.GetIntervention | src/smif/decision/decision.py:410-421 | the register entry for a known name; DataNotFound otherwise |
| PreSpecifiedPlanning.LifetimeOf | src/smif/decision/decision.py:588-591 | `None` is a TypeError; text that is not an integer is an infinite lifetime; otherwise the lifetime is `int()` of the value |
| PreSpecifiedPlanning.SubsequenceDropLast | src/smif/decision/decision.py:535-543 | a subsequence with its last element dropped is still a subsequence |
| PreSpecifiedPlanning.SubsequenceExtend | src/smif/decision/decision.py:535-543 | a subsequence stays one when the longer sequence is extended |
| PreSpecifiedPlanning.PreSpecified.constructor | src/smif/decision/decision.py:487-489 | keeps the timesteps, register and planned interventions; nothing decided |
| PreSpecifiedPlanning.PreSpecified.NextDecisionIteration | src/smif/decision/decision.py:491-495 | every call gives the bundle of iteration 0 over all timesteps, without decision links |
| PreSpecifiedPlanning.PreSpecified.GetPreviousState | src/smif/decision/decision.py:497-508 | the empty state at the first timestep; otherwise the stored state of the previous timestep, or DataNotFound |
| PreSpecifiedPlanning.PreSpecified.Buildable | src/smif/decision/decision.py:546-567 | a non-integer build year is a TypeError, a timestep outside the model a ValueError, and any other input gives an answer |
| PreSpecifiedPlanning.BuildableAt | src/smif/decision/decision.py:546-567 | at the k-th timestep, buildable exactly when the build year is before the next model timestep, or at the last timestep before the last timestep plus one |
| PreSpecifiedPlanning.BuildableMonotone | src/smif/decision/decision.py:546-567 | once buildable at a timestep, an intervention stays buildable at every later timestep |
| PreSpecifiedPlanning.BuildableExample | src/smif/decision/decision.py:546-567 | with timesteps 2005, 2010, 2015 and 2020, a 2011 build year is not buildable at 2005 and is buildable from 2010; 2012 is a ValueError; text is a TypeError |
| PreSpecifiedPlanning.PreSpecified.WithinLifetime | src/smif/decision/decision.py:569-598 | a non-integer build year or a `None` lifetime is a TypeError, and a negative lifetime a ValueError; otherwise within the lifetime exactly when the timestep is at most the build year plus the lifetime |
| PreSpecifiedPlanning.WithinLifetimeAntitone | src/smif/decision/decision.py:569-598 | within the lifetime at a timestep implies within it at every earlier timestep |
| PreSpecifiedPlanning.TextLifetimeIsInfinite | src/smif/decision/decision.py:588-591 | a lifetime that is not an integer never ends |
| PreSpecifiedPlanning.WithinLifetimeExample | src/smif/decision/decision.py:569-598 | a 2011 build with a five-year lifetime is within it in 2015 and 2016 and not in 2020; a negative lifetime is a ValueError and `None` a TypeError |
| PreSpecifiedPlanning.PreSpecified.GetDecision | src/smif/decision/decision.py:532-544 | the loop over the planned interventions gives exactly `DecidedAmong` of the planned list at the current timestep |
| PreSpecifiedPlanning.PreSpecified.DecidedAmongFailurePersists | src/smif/decision/decision.py:535-543 | the first planned intervention that raises aborts the whole decision with that error |
| PreSpecifiedPlanning.PreSpecified.DecidedSucceedsIff | src/smif/decision/decision.py:535-543 | deciding succeeds exactly when every planned intervention can be checked |
| PreSpecifiedPlanning.PreSpecified.DecidedMembers | src/smif/decision/decision.py:535-543 | the decisions are exactly the planned interventions that are buildable and within their lifetime, kept in planned order |
| PreSpecifiedPlanning.DecidedOverInterval | src/smif/decision/decision.py:532-598 | an intervention decided at two timesteps is decided at every timestep between them |
| PreSpecifiedPlanning.LifetimeExample | src/smif/decision/decision.py:532-598 | an intervention built in 2010 with a ten-year lifetime is decided in 2010, 2015 and 2020 and not in 2025 |
| RuleBasedPlanning.InitialState | src/smif/decision/decision.py:605-612 | the starting state (first timestep, iteration 0, not satisfied, iteration 0 recorded for the first timestep) meets the rule invariant |
| RuleBasedPlanning.NextTimestep | src/smif/decision/decision.py:622-628 | for increasing timesteps, a next timestep exists exactly before the last one, and it is the least later timestep |
| RuleBasedPlanning.PreviousTimestep | src/smif/decision/decision.py:630-636 | for increasing timesteps, a previous timestep exists exactly after the first one, and it is the greatest earlier timestep |
| RuleBasedPlanning.NextPreviousInverse | src/smif/decision/decision.py:622-636 | the next and previous timestep are inverse to each other |
| RuleBasedPlanning.MakeBundle | src/smif/decision/decision.py:656-665 | a bundle of the current iteration at the current timestep; it has a decision link exactly after the first timestep, from the current iteration to the iteration recorded for the previous timestep, which is earlier |
| RuleBasedPlanning.Advance | src/smif/decision/decision.py:638-650 | the generator ends exactly when satisfied at the last timestep; each step keeps the rule invariant and yields the bundle of its new state |
| RuleBasedPlanning.AdvanceStep | src/smif/decision/decision.py:638-650 | each step increments the iteration and resets `satisfied`; a satisfied step records the iteration and moves to the next timestep, an unsatisfied one stays |
| RuleBasedPlanning.RunBundle | src/smif/decision/decision.py:638-665 | the k-th bundle of a run is the single iteration k + 1 past the start, at one timestep no earlier than the start |
| RuleBasedPlanning.RunMonotone | src/smif/decision/decision.py:638-665 | a later bundle of a run never has an earlier timestep |
| RuleBasedPlanning.RunIterationsIncrease | src/smif/decision/decision.py:638-650 | over any run, the k-th bundle has iteration k + 1 past the start, a single timestep, and timesteps never decrease |
| RuleBasedPlanning.RuleBased.constructor | src/smif/decision/decision.py:605-612 | the initial rule state over the given timesteps and register |
| RuleBasedPlanning.RuleBased.PreviousYearIteration | src/smif/decision/decision.py:652-654 | the last iteration of the previous timestep comes before the current iteration |
| RuleBasedPlanning.RuleBased.GetPreviousState | src/smif/decision/decision.py:614-620 | the empty state at the first timestep; otherwise the stored state of the previous timestep's last iteration, or DataNotFound |
| RuleBasedPlanning.RuleBased.GetDecision | src/smif/decision/decision.py:667-668 | the rule-based module decides nothing |
| RuleBasedPlanning.RuleBased.Next | src/smif/decision/decision.py:638-650 | `__next__` follows `Advance` on the old state and keeps the invariant; a linked bundle links the current iteration to `get_previous_year_iteration()` |
| Manager.MergeRegistersLastWins | src/smif/decision/decision.py:66-68 | the merged register holds every name of every sector model's register; each entry comes from the last register defining that name |
| Manager.PlannedFromMembers | src/smif/decision/decision.py:84-94 | the planned list starts with the initial conditions; it holds exactly those and the interventions of pre-specified strategies |
| Manager.DynamicTypes | src/smif/decision/decision.py:108-109 | every strategy type other than pre-specified planning, and only those |
| Manager.Available | src/smif/decision/decision.py:133-140 | the register without the planned names, with the same entries |
| Manager.AvailableShrinks | src/smif/decision/decision.py:133-145 | planning more names removes exactly those that were available |
| Manager.PairNames | src/smif/decision/decision.py:142-145 | the names of the decision tuples, and no others |
| Manager.Tuplize | src/smif/decision/decision.py:316-318 | each decision becomes the tuple (build year, name), and no other tuples arise |
| Manager.Untuplize | src/smif/decision/decision.py:320-322 | each tuple (build year, name) becomes a decision, and no other decisions arise |
| Manager.TuplizeRoundTrip | src/smif/decision/decision.py:316-322 | untuplizing undoes tuplizing and the reverse; tuplizing distributes over union |
| Manager.PostDecisionState | src/smif/decision/decision.py:289-301 | the written state is never empty; unless it is the placeholder, it is the union of the pre-decision state and the new decisions |
| Manager.PostDecisionStateIsUnion | src/smif/decision/decision.py:289-301 | the post-decision state is the union of the states, or only the placeholder when both are empty |
| Manager.Product | src/smif/decision/decision.py:218-220 | as many pairs as iterations times timesteps, and exactly the (iteration, timestep) pairs of the bundle |
| Manager.ProductOrder | src/smif/decision/decision.py:218-220 | row-major order: the a-th iteration with the b-th timestep is at position a * (number of timesteps) + b |
| Manager.DecisionManager.constructor | src/smif/decision/decision.py:53-104 | keeps the store, timesteps and register; the planned names are those of the planned list; a pre-specified module exists exactly when something is planned, and a dynamic module exactly when a dynamic strategy is configured |
| Manager.DecisionManager.AvailableInterventions | src/smif/decision/decision.py:133-140 | the register without the planned names |
| Manager.DecisionManager.GetIntervention | src/smif/decision/decision.py:147-152 | the register entry for a known name; DataNotFound otherwise |
| Manager.DecisionManager.UpdatePlannedInterventions | src/smif/decision/decision.py:142-145 | the planned names grow by the names of the decisions; nothing else changes |
| Manager.DecisionManager.PreDecisionState | src/smif/decision/decision.py:262-270 | empty without strategies; a failure is DataNotFound |
| Manager.DecisionManager.NewDecisions | src/smif/decision/decision.py:276-284 | without pre-specified planning, no new decisions; otherwise the tuples of the pre-specified decisions at the timestep |
| Manager.DecisionManager.Step | src/smif/decision/decision.py:253-302 | succeeds exactly when both the pre-decision state and the new decisions are found, and fails with the first of their errors; on success the state written at (timestep, iteration) is the post-decision state of the two, every other stored state is kept, and exactly the names of the new decisions join the planned names |
| Manager.DecisionManager.SaveAllFrame | src/smif/decision/decision.py:218-221 | saving a bundle keeps every stored state outside the bundle and only adds planned names |
| Manager.DecisionManager.SaveAllWrites | src/smif/decision/decision.py:218-221 | after a successful save, every (iteration, timestep) of the bundle has a non-empty state |
| Manager.DecisionManager.SaveAllWithoutStrategies | src/smif/decision/decision.py:198-203 | without any strategy, saving always succeeds, plans nothing and writes the placeholder state at every pair |
| Manager.DecisionManager.PreSpecifiedStep | src/smif/decision/decision.py:223-302 | with only pre-specified planning and the earlier timesteps written under iteration 0, the step at a timestep succeeds exactly when its planned decisions do, and then writes that timestep too |
| Manager.DecisionManager.PreSpecifiedSavesFrom | src/smif/decision/decision.py:198-203 | with only pre-specified planning, walking the single bundle from the k-th timestep on succeeds exactly when every remaining timestep has its planned decisions |
| Manager.DecisionManager.SingleBundleSaves | src/smif/decision/decision.py:198-203 | with only pre-specified planning, saving the single bundle succeeds exactly when the planned decisions can be computed at every timestep: each previous-timestep read finds a state written earlier |
| Manager.DecisionManager.GetAndSaveDecisions | src/smif/decision/decision.py:223-302 | the store and planned names after one (iteration, timestep) are those of `Step` |
| Manager.DecisionManager.SavePair | src/smif/decision/decision.py:218-221 | one pass of the loop over the pairs: a failure is the outcome of saving from this pair on, and a success leaves the remaining pairs to be saved |
| Manager.DecisionManager.SaveBundleDecisions | src/smif/decision/decision.py:205-221 | the loop over the pairs of the bundle gives the outcome, store and planned names of `SaveAll` |
| Manager.DecisionManager.SingleBundle | src/smif/decision/decision.py:198-201 | iteration 0 over all model timesteps, without decision links |
| Manager.DecisionManager.YieldSingleBundle | src/smif/decision/decision.py:197-203 | without a dynamic module, the single bundle is saved and yielded, or the saving error escapes, and the loop ends |
| Manager.DecisionManager.YieldDynamicBundle | src/smif/decision/decision.py:189-196 | with a dynamic module, its next bundle per `Advance` is saved and yielded; the loop ends when the module stops or saving fails |
| Manager.DecisionManager.NextBundle | src/smif/decision/decision.py:188-203 | an ended loop yields nothing more; without a dynamic module, one bundle over all timesteps is saved and then the loop ends; with one, the module's next bundle is saved and yielded, and the loop ends when the module stops |
| Manager.NewDecisionManager | src/smif/decision/decision.py:53-131 | more than one dynamic strategy type is NotImplemented; construction succeeds exactly otherwise (with timesteps for a dynamic module) and then matches the constructor |
| Inputs.ValueOf | smif/inputs.py:189-218 | parameters read `value`, decision variables read `init` |
| Inputs.StoredName | smif/inputs.py:177 | a name stored in the `U30` array is its prefix of at most 30 characters, and unchanged when short enough |
| Inputs.EnumerateNames | smif/inputs.py:70-84 | maps exactly the listed names to a position holding that name; the last such position wins |
| Inputs.EnumerateDistinct | smif/inputs.py:70-84 | for distinct names, each name maps to its own position |
| Inputs.ResolveIndex | smif/inputs.py:179-182 | an index is usable exactly within `-n <= index < n`, and a negative one counts from the end; otherwise an IndexError |
| Inputs.IndicesOf | smif/inputs.py:172 | the `index` of every listed name, in order; a KeyError when a name or its index is missing |
| Inputs.ZeroSlots | smif/inputs.py:175-177 | `n` zero values, zero bounds and empty names |
| Inputs.Place | smif/inputs.py:179-182 | writing one entry keeps the array lengths |
| Inputs.FillSlots | smif/inputs.py:179-182 | a successful placement keeps the array lengths at `n` |
| Inputs.Parse | smif/inputs.py:145-186 | a missing list key is a KeyError; otherwise the arrays have one slot per listed name |
| Inputs.FillSlotsFailurePersists | smif/inputs.py:179-182 | the first entry that fails aborts the placement with that error |
| Inputs.FillSlotsResolved | smif/inputs.py:179-182 | after a successful placement, every index was in range and every entry had a value and bounds |
| Inputs.FillSlotsLastWriter | smif/inputs.py:179-182 | the slot of an entry holds its stored name, value and bounds when no later entry wrote the same slot |
| Inputs.FillSlotsUntouched | smif/inputs.py:175-182 | a slot no entry targets keeps its zero value, bounds and empty name |
| Inputs.DistinctCardinality | smif/inputs.py:172-182 | distinct indices have as many elements as positions |
| Inputs.DistinctIndicesCover | smif/inputs.py:172-182 | `n` distinct indices in `0..n-1` cover every slot |
| Inputs.FillSucceeds | smif/inputs.py:179-182 | in-range indices with values and bounds always place successfully |
| Inputs.PermutationPlacesEachName | smif/inputs.py:172-182 | when the indices are a permutation, each name's slot holds its stored name, value and bounds |
| Inputs.PermutationFillsEverySlot | smif/inputs.py:172-182 | when the indices are a permutation, every slot is written by some entry |
| Inputs.PermutationKeepsNamesDistinct | smif/inputs.py:172-182 | with a permutation and distinct stored names, the ordered names are distinct |
| Inputs.StoredNames | smif/inputs.py:177 | each name as stored in the `U30` array, in order |
| Inputs.PlaceEntry | smif/inputs.py:179-182 | one pass of the loop on the arrays gives exactly the slots of `Place`, or its error |
| Inputs.FillArrays | smif/inputs.py:175-182 | the placement loop on fresh arrays gives exactly the slots of `FillSlots`, or its error |
| Inputs.ParsedNameIndex | smif/inputs.py:46-56 | after parsing short, distinct names at a permutation of indices, each name's index is its `index` entry |
| Inputs.InputList.constructor | smif/inputs.py:114-116 | a new list with empty names, values and bounds |
| Inputs.InputList.Indices | smif/inputs.py:58-68 | maps each stored name to a position holding it |
| Inputs.InputList.GetIndex | smif/inputs.py:46-56 | a stored name gives its last position; any other name is an AssertionError |
| Inputs.InputList.ParseInputDictionary | smif/inputs.py:145-186 | on success the arrays hold the parsed slots; on failure the error of `Parse` |
| Inputs.InputList.GetInputs | smif/inputs.py:189-218 | parses the list of the element's own kind |
| Inputs.InputList.UpdateValue | smif/inputs.py:195-211 | an unknown name is an AssertionError; a value outside the bounds an AssertionError; otherwise only that slot's value changes |
| Inputs.ElementKind | smif/inputs.py:118-133 | `parameters` and `decision_variables` select the two kinds; anything else is a ValueError |
| Inputs.GetElement | smif/inputs.py:118-133 | a fresh empty list of the selected kind, or a ValueError |
| Metadata.Record | src/smif/metadata/coordinates.py:81 | the record of an id is a dict with only `name`, holding the id |
| Metadata.NamesOf | src/smif/metadata/coordinates.py:77 | succeeds exactly when every element is a dict with a `name`, and then the ids line up with the records |
| Metadata.DeriveElements | src/smif/metadata/coordinates.py:61-81 | empty elements are a ValueError and a first record without `name` a KeyError; records are kept as given; plain ids are kept and wrapped into records; success exactly when non-empty and, for records, all named |
| Metadata.DeriveIdempotent | src/smif/metadata/coordinates.py:61-81 | setting the stored records again gives the same ids and records |
| Metadata.PlainAndRecordFormsAgree | src/smif/metadata/coordinates.py:72-81 | giving plain ids and giving their records lead to the same coordinates |
| Metadata.Coordinates.constructor | src/smif/metadata/coordinates.py:31-35 | stores the name and the derived ids and records, which line up |
| Metadata.Coordinates.Dim | src/smif/metadata/coordinates.py:83-87 | `dim` is the name |
| Metadata.Coordinates.SetDim | src/smif/metadata/coordinates.py:89-93 | setting `dim` renames and keeps ids and records |
| Metadata.EqualCoordinatesHaveEqualIds | src/smif/metadata/coordinates.py:37-39 | equal coordinates have equal ids; equality is reflexive, symmetric and transitive |
| Metadata.NewCoordinates | src/smif/metadata/coordinates.py:31-81 | the constructed coordinates, or the error that setting the elements raises |

## Left out

- Logging is not modelled.
- Floating-point build years and lifetimes are not modelled. A build year is an integer, text or `None`, so the `float` branch of `isinstance(build_year, (int, float))` is not represented.
- Values, bounds and updated parameter values are Dafny `real`s, not IEEE floats.
- `int()` on text covers an optional sign and ASCII digits. Whitespace, underscores and non-ASCII digits are not modelled.
- The store is modelled as a map. Its file format, the order of a written state list, and reading interventions, strategies and initial conditions from disk are not modelled; those arrive as parameters of `Manager.NewDecisionManager`.
- `ResultsHandle` is modelled by its two operations used here (`previous_timestep`, `get_state`). The results handle class, `Store` and `ModelLoader` are not part of this model.
- `ModelLoader` loads a strategy's class by path. Any dynamic strategy is modelled as `RuleBased`; the path normalisation and the strategy's generated name are not modelled.
- The `MappingProxyType` view of the available interventions passed to the dynamic module is modelled as a copy taken at construction, so later planning is not seen through it.
- `DecisionModule.get_previous_state`, `get_decision` and `_get_next_decision_iteration` are abstract in the base class; only the two concrete modules are modelled.
- Manager.DecisionManager.NextBundle: each call of `decision_loop` creates a fresh generator, but `loopFinished` is never reset, so the model runs one decision loop per manager.
- Manager.DecisionManager.NextBundle: a generator that raised is modelled as ended, since Python finishes a generator after an uncaught exception.
- Manager.NewDecisionManager requires strictly increasing timesteps when a dynamic strategy is configured, because `RuleBased` relies on list order for its next and previous timesteps.
- RuleBasedPlanning.RuleBased.constructor requires non-empty, strictly increasing timesteps, for the same reason; the manager refuses empty timesteps with a ValueError before constructing it.
- PreSpecifiedPlanning.PreSpecified.Admit: a planned entry always has a `build_year` and a registered intervention always has `technical_lifetime['value']`. The KeyError for a missing lifetime key, which decision.py:538-539 raises before `buildable` is called, and the KeyError for a missing `build_year` are not modelled.
- Inputs.InputList.UpdateValue requires a parameter list, because `DecisionVariableList` has no `update_value`.
- The inputs dictionary is modelled as two maps, one for the name lists and one for the entries. A parameter named like a list key is therefore not modelled. Indices are integers, entries lack the fields they lack, and bounds are pairs.
- The `assert len(indices) == number_if_inputs` at smif/inputs.py:173 always holds and has no failure path.
- `getelement('decision_variables')` and the list key `'decision variables'` differ in spelling; both are modelled as written.
- The `ModelInputs` container and the rest of smif/inputs.py are not part of this model.
- `Coordinates.__hash__`, `__repr__`, the finite-length check (every Dafny sequence is finite) and element kinds other than text, integers and dicts are not modelled.
