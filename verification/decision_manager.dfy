/** The decision manager (`DecisionManager` in src/smif/decision/decision.py):
    it assembles the intervention register and the strategies of a model run,
    hands out bundles of (iteration, timestep) work, and for each pair writes
    the post-decision state: the previous state together with the new
    decisions of every strategy, or a placeholder record when both are empty.
    The store is the map from (timestep, iteration) to state described in
    `Records`. */
module Manager {
  import opened Wrappers
  import opened Records
  import opened DecisionModules
  import opened PreSpecifiedPlanning
  import opened RuleBasedPlanning

  // ---------------------------------------------------------------------------
  // Configuration

  /** A strategy of the model run: its `type` and, for pre-specified
      planning, its planned interventions. */
  datatype Strategy = Strategy(strategyType: string, interventions: seq<Decision>)

  const PreSpecifiedType: string := "pre-specified-planning"

  /** The register after `update`-ing an empty dict with each sector model's
      interventions in turn. */
  function MergeRegisters(registers: seq<map<string, Intervention>>): map<string, Intervention>
    decreases |registers|
  {
    if registers == [] then map[]
    else MergeRegisters(registers[..|registers| - 1]) + registers[|registers| - 1]
  }

  /** A name is registered iff some sector model lists it, and it then maps to
      the record of the last sector model that lists it. */
  lemma {:induction false} MergeRegistersLastWins(registers: seq<map<string, Intervention>>, name: string)
    ensures name in MergeRegisters(registers) <==> exists k :: 0 <= k < |registers| && name in registers[k]
    ensures name in MergeRegisters(registers) ==>
              exists k :: 0 <= k < |registers| && name in registers[k] &&
                          MergeRegisters(registers)[name] == registers[k][name] &&
                          forall j :: k < j < |registers| ==> name !in registers[j]
    decreases |registers|
  {
    if registers != [] {
      var n := |registers| - 1;
      var front := registers[..n];
      MergeRegistersLastWins(front, name);
      if name in registers[n] {
        assert MergeRegisters(registers)[name] == registers[n][name];
      } else if name in MergeRegisters(front) {
        var k :| 0 <= k < |front| && name in front[k] && MergeRegisters(front)[name] == front[k][name] &&
                 forall j :: k < j < |front| ==> name !in front[j];
        assert registers[k] == front[k];
        assert MergeRegisters(registers)[name] == registers[k][name];
        forall j | k < j < |registers| ensures name !in registers[j] {
          if j < n { assert registers[j] == front[j]; }
        }
      } else {
        forall k | 0 <= k < |registers| ensures name !in registers[k] {
          if k < n { assert registers[k] == front[k]; }
        }
      }
    }
  }

  /** The planned interventions of pre-specified planning: the initial
      conditions followed by the interventions of every pre-specified
      strategy, in strategy order. */
  function PlannedFrom(initial: seq<Decision>, strategies: seq<Strategy>): seq<Decision>
    decreases |strategies|
  {
    if strategies == [] then initial
    else
      var last := strategies[|strategies| - 1];
      PlannedFrom(initial, strategies[..|strategies| - 1]) +
        (if last.strategyType == PreSpecifiedType then last.interventions else [])
  }

  /** The planned list starts with the initial conditions and holds exactly
      them and the entries of pre-specified strategies. */
  lemma {:induction false} PlannedFromMembers(initial: seq<Decision>, strategies: seq<Strategy>)
    ensures |initial| <= |PlannedFrom(initial, strategies)|
    ensures PlannedFrom(initial, strategies)[..|initial|] == initial
    ensures forall d :: d in PlannedFrom(initial, strategies) <==>
              d in initial ||
              exists k :: 0 <= k < |strategies| && strategies[k].strategyType == PreSpecifiedType &&
                          d in strategies[k].interventions
    decreases |strategies|
  {
    if strategies != [] {
      var n := |strategies| - 1;
      var front := strategies[..n];
      PlannedFromMembers(initial, front);
      forall d ensures d in PlannedFrom(initial, strategies) <==>
                         d in initial ||
                         exists k :: 0 <= k < |strategies| && strategies[k].strategyType == PreSpecifiedType &&
                                     d in strategies[k].interventions
      {
        if exists k :: 0 <= k < |strategies| && strategies[k].strategyType == PreSpecifiedType &&
                       d in strategies[k].interventions {
          var k :| 0 <= k < |strategies| && strategies[k].strategyType == PreSpecifiedType &&
                   d in strategies[k].interventions;
          if k < n { assert front[k] == strategies[k]; }
        }
        if exists k :: 0 <= k < |front| && front[k].strategyType == PreSpecifiedType &&
                       d in front[k].interventions {
          var k :| 0 <= k < |front| && front[k].strategyType == PreSpecifiedType &&
                   d in front[k].interventions;
          assert strategies[k] == front[k];
        }
      }
    }
  }

  /** The types of the strategies other than pre-specified planning. */
  function DynamicTypes(strategies: seq<Strategy>): (r: set<string>)
    ensures forall k :: 0 <= k < |strategies| && strategies[k].strategyType != PreSpecifiedType ==>
              strategies[k].strategyType in r
    ensures PreSpecifiedType !in r
    ensures forall t :: t in r ==>
              exists k :: 0 <= k < |strategies| && strategies[k].strategyType == t
  {
    set k | 0 <= k < |strategies| && strategies[k].strategyType != PreSpecifiedType :: strategies[k].strategyType
  }

  // ---------------------------------------------------------------------------
  // Registers and state records

  /** `available_interventions`: the register without the planned names. */
  function Available(register: map<string, Intervention>, planned: set<string>): (r: map<string, Intervention>)
    ensures r.Keys == register.Keys - planned
    ensures forall name :: name in r ==> r[name] == register[name]
  {
    map name | name in register.Keys - planned :: register[name]
  }

  /** Planning more interventions only ever removes names from the available
      register, and removes exactly the newly planned ones. */
  lemma AvailableShrinks(register: map<string, Intervention>, planned: set<string>, more: set<string>)
    ensures Available(register, planned + more).Keys <= Available(register, planned).Keys
    ensures Available(register, planned).Keys - Available(register, planned + more).Keys ==
              (register.Keys - planned) * more
  {
  }

  /** The distinct records listed in `ds`. */
  function ElementsOf(ds: seq<Decision>): set<Decision>
  {
    set d | d in ds
  }

  /** `_tuplize_state`: each record as a `(build_year, name)` pair. */
  function Tuplize(state: set<Decision>): (r: set<(Value, string)>)
    ensures forall d :: d in state ==> (d.buildYear, d.name) in r
    ensures forall x :: x in r ==> Decision(x.1, x.0) in state
  {
    set d | d in state :: (d.buildYear, d.name)
  }

  /** `_untuplize_state`: each `(build_year, name)` pair as a record. */
  function Untuplize(pairs: set<(Value, string)>): (r: set<Decision>)
    ensures forall x :: x in pairs ==> Decision(x.1, x.0) in r
    ensures forall d :: d in r ==> (d.buildYear, d.name) in pairs
  {
    set x | x in pairs :: Decision(x.1, x.0)
  }

  /** The two conversions are inverse to each other, and tuplizing a union
      is the union of the tuplized parts. */
  lemma TuplizeRoundTrip(state: set<Decision>, other: set<Decision>, pairs: set<(Value, string)>)
    ensures Untuplize(Tuplize(state)) == state
    ensures Tuplize(Untuplize(pairs)) == pairs
    ensures Tuplize(state + other) == Tuplize(state) + Tuplize(other)
  {
    assert forall d :: d in Untuplize(Tuplize(state)) ==> d == Decision(d.name, d.buildYear);
    assert forall x: (Value, string) :: x == (x.0, x.1);
  }

  /** The names of a set of `(build_year, name)` pairs. */
  function PairNames(pairs: set<(Value, string)>): (r: set<string>)
    ensures forall x :: x in pairs ==> x.1 in r
    ensures forall name :: name in r ==> exists y :: (y, name) in pairs
  {
    set x | x in pairs :: x.1
  }

  /** The state `get_and_save_decisions` writes: the union of the previous
      state and the new decisions, or the placeholder record when that union
      is empty. */
  function PostDecisionState(pre: set<(Value, string)>, decided: set<(Value, string)>): (r: set<Decision>)
    ensures r != {}
    ensures Placeholder !in r ==> Tuplize(r) == pre + decided
  {
    TuplizeRoundTrip({}, {}, pre + decided);
    var state := Untuplize(pre + decided);
    if state == {} then {Placeholder} else state
  }

  /** In terms of records: the written state is the set union of the
      previous state and the new decisions, duplicates merged, and it is the
      single placeholder exactly when both are empty. */
  lemma PostDecisionStateIsUnion(pre: set<Decision>, decided: set<Decision>)
    ensures pre + decided != {} ==> PostDecisionState(Tuplize(pre), Tuplize(decided)) == pre + decided
    ensures pre + decided == {} ==> PostDecisionState(Tuplize(pre), Tuplize(decided)) == {Placeholder}
  {
    TuplizeRoundTrip(pre, decided, {});
    TuplizeRoundTrip(pre + decided, {}, {});
  }

  /** `itertools.product(iterations, timesteps)`: every (iteration, timestep)
      pair, iterations in the outer position. */
  function Product(iterations: seq<int>, timesteps: seq<int>): (r: seq<(int, int)>)
    ensures |r| == |iterations| * |timesteps|
    ensures forall p :: p in r <==> p.0 in iterations && p.1 in timesteps
    decreases |iterations|
  {
    if iterations == [] then []
    else
      var row := seq(|timesteps|, k requires 0 <= k < |timesteps| => (iterations[0], timesteps[k]));
      assert forall p :: p in row <==> p.0 == iterations[0] && p.1 in timesteps by {
        forall p: (int, int) | p.0 == iterations[0] && p.1 in timesteps ensures p in row {
          var k :| 0 <= k < |timesteps| && timesteps[k] == p.1;
          assert row[k] == p;
        }
      }
      var rest := Product(iterations[1..], timesteps);
      assert forall i :: i in iterations <==> i == iterations[0] || i in iterations[1..];
      row + rest
  }

  /** The product is in row-major order: the pair of the a-th iteration and
      the b-th timestep sits at position a * |timesteps| + b, so a bundle's
      timesteps are walked in order for each iteration in turn. */
  lemma {:induction false} ProductOrder(iterations: seq<int>, timesteps: seq<int>, a: nat, b: nat)
    requires a < |iterations| && b < |timesteps|
    ensures a * |timesteps| + b < |Product(iterations, timesteps)|
    ensures Product(iterations, timesteps)[a * |timesteps| + b] == (iterations[a], timesteps[b])
    decreases a
  {
    if a > 0 {
      var n := |timesteps|;
      ProductOrder(iterations[1..], timesteps, a - 1, b);
      assert a * n == (a - 1) * n + n;
    }
  }

  // ---------------------------------------------------------------------------
  // The manager

  class DecisionManager {
    const timesteps: seq<int>
    const register: map<string, Intervention>
    const preSpecPlanning: PreSpecified?
    const decisionModule: RuleBased?
    /** Names of interventions planned or decided so far. */
    var plannedInterventions: set<string>
    /** The state written so far, per (timestep, iteration). */
    var store: StateStore
    /** Whether the decision loop generator has run to its end. */
    var loopFinished: bool

    ghost predicate Valid()
      reads decisionModule
    {
      && (decisionModule != null ==>
            decisionModule.base.timesteps == timesteps && decisionModule.Valid())
      && (preSpecPlanning != null ==>
            preSpecPlanning.base.timesteps == timesteps && preSpecPlanning.base.register == register)
    }

    /** The construction step after the configuration has been checked: a
        pre-specified strategy over the whole register when anything is
        planned, and a rule-based strategy over the then available
        interventions when a dynamic strategy is configured. */
    constructor (store: StateStore, timesteps: seq<int>, register: map<string, Intervention>,
                 planned: seq<Decision>, dynamic: bool)
      requires dynamic ==> timesteps != [] && StrictlyIncreasing(timesteps)
      ensures this.store == store && this.timesteps == timesteps && this.register == register
      ensures !loopFinished
      ensures plannedInterventions == NameSet(Names(planned))
      ensures (preSpecPlanning != null) <==> planned != []
      ensures preSpecPlanning != null ==> fresh(preSpecPlanning) && preSpecPlanning.planned == planned
      ensures (decisionModule != null) <==> dynamic
      ensures decisionModule != null ==>
                fresh(decisionModule) &&
                decisionModule.base.register == Available(register, plannedInterventions) &&
                decisionModule.State() == InitialState(timesteps)
      ensures Valid()
    {
      this.store := store;
      this.timesteps := timesteps;
      this.register := register;
      var names := if planned != [] then NameSet(Names(planned)) else {};
      assert planned == [] ==> NameSet(Names(planned)) == {};
      if planned != [] {
        preSpecPlanning := new PreSpecified(timesteps, register, planned);
      } else {
        preSpecPlanning := null;
      }
      if dynamic {
        decisionModule := new RuleBased(timesteps, Available(register, names));
      } else {
        decisionModule := null;
      }
      plannedInterventions := names;
      loopFinished := false;
    }

    /** `available_interventions`. */
    function AvailableInterventions(): (r: map<string, Intervention>)
      reads this
      ensures r.Keys == register.Keys - plannedInterventions
      ensures forall name :: name in r ==> r[name] == register[name]
    {
      Available(register, plannedInterventions)
    }

    /** `get_intervention`: the registered record, or not found. */
    function GetIntervention(name: string): (r: Result<Intervention, Error>)
      ensures r.Success? <==> name in register
      ensures r.Success? ==> r.value == register[name]
      ensures r.Failure? ==> r.error == DataNotFound
    {
      if name in register then Success(register[name]) else Failure(DataNotFound)
    }

    /** `update_planned_interventions`: adds the names of the decisions; the
        planned set only grows and the store is untouched. */
    method UpdatePlannedInterventions(decisions: set<(Value, string)>)
      modifies this
      ensures plannedInterventions == old(plannedInterventions) + PairNames(decisions)
      ensures store == old(store) && loopFinished == old(loopFinished)
    {
      plannedInterventions := plannedInterventions + PairNames(decisions);
    }

    /** The pre-decision state for a handle: from the dynamic strategy if
        there is one, else from pre-specified planning, else nothing. */
    function PreDecisionState(handle: ResultsHandle): (r: Result<set<(Value, string)>, Error>)
      reads decisionModule
      requires Valid()
      ensures r.Failure? ==> r.error == DataNotFound
      ensures decisionModule == null && preSpecPlanning == null ==> r == Success({})
      ensures decisionModule != null ==>
                (r.Success? <==> decisionModule.GetPreviousState(handle).Success?) &&
                (r.Success? ==> r.value == Tuplize(decisionModule.GetPreviousState(handle).value))
      ensures decisionModule == null && preSpecPlanning != null ==>
                (r.Success? <==> preSpecPlanning.GetPreviousState(handle, None).Success?) &&
                (r.Success? ==> r.value == Tuplize(preSpecPlanning.GetPreviousState(handle, None).value))
    {
      if decisionModule != null then
        match decisionModule.GetPreviousState(handle)
        case Failure(e) => Failure(e)
        case Success(state) => Success(Tuplize(state))
      else if preSpecPlanning != null then
        match preSpecPlanning.GetPreviousState(handle, None)
        case Failure(e) => Failure(e)
        case Success(state) => Success(Tuplize(state))
      else Success({})
    }

    /** The new decisions for a handle: the union of what every strategy
        decides, the dynamic one first. */
    function NewDecisions(handle: ResultsHandle): (r: Result<set<(Value, string)>, Error>)
      ensures preSpecPlanning == null ==> r == Success({})
      ensures preSpecPlanning != null ==>
                (r.Success? <==> preSpecPlanning.Decided(handle.currentTimestep).Success?)
      ensures preSpecPlanning != null && r.Success? ==>
                r.value == Tuplize(ElementsOf(preSpecPlanning.Decided(handle.currentTimestep).value))
    {
      var dynamicDecisions := if decisionModule != null then Tuplize(ElementsOf(decisionModule.GetDecision(handle))) else {};
      assert ElementsOf([]) == {} && Tuplize({}) == {};
      if preSpecPlanning == null then Success(dynamicDecisions)
      else
        match preSpecPlanning.Decided(handle.currentTimestep)
        case Failure(e) => Failure(e)
        case Success(ds) => Success(dynamicDecisions + Tuplize(ElementsOf(ds)))
    }

    /** One `get_and_save_decisions` call on a given store and planned set:
        an error of either strategy escapes before anything is changed;
        otherwise the post-decision state is written for (timestep,
        iteration) and the new decisions' names join the planned set. */
    function Step(store: StateStore, planned: set<string>, iteration: int, timestep: int)
      : (r: Result<(StateStore, set<string>), Error>)
      reads decisionModule
      requires Valid()
      ensures r.Success? ==> r.value.0.Keys == store.Keys + {(timestep, iteration)}
      ensures r.Success? ==> r.value.0[(timestep, iteration)] != {}
      ensures r.Success? ==> forall key :: key in store && key != (timestep, iteration) ==>
                                           r.value.0[key] == store[key]
      ensures r.Success? ==> planned <= r.value.1
      ensures var h := ResultsHandle(store, timestep, timesteps, iteration);
              && (r.Success? <==> PreDecisionState(h).Success? && NewDecisions(h).Success?)
              && (r.Failure? ==>
                    r.error == (if PreDecisionState(h).Failure? then PreDecisionState(h).error
                                else NewDecisions(h).error))
              && (r.Success? ==>
                    r.value.0[(timestep, iteration)] ==
                      PostDecisionState(PreDecisionState(h).value, NewDecisions(h).value) &&
                    r.value.1 == planned + PairNames(NewDecisions(h).value))
    {
      var handle := ResultsHandle(store, timestep, timesteps, iteration);
      match PreDecisionState(handle)
      case Failure(e) => Failure(e)
      case Success(pre) =>
        match NewDecisions(handle)
        case Failure(e) => Failure(e)
        case Success(decided) =>
          Success((store[(timestep, iteration) := PostDecisionState(pre, decided)], planned + PairNames(decided)))
    }

    /** The stores and planned sets after `get_and_save_decisions` for each
        (iteration, timestep) pair in turn; the first error stops the walk,
        keeping what the pairs before it wrote. */
    function SaveAll(store: StateStore, planned: set<string>, pairs: seq<(int, int)>)
      : (Outcome<Error>, StateStore, set<string>)
      reads decisionModule
      requires Valid()
      decreases |pairs|
    {
      if pairs == [] then (Pass, store, planned)
      else
        match Step(store, planned, pairs[0].0, pairs[0].1)
        case Failure(e) => (Fail(e), store, planned)
        case Success((store', planned')) => SaveAll(store', planned', pairs[1..])
    }

    /** Saving never removes a state and only grows the planned set; a state
        it touches belongs to one of the pairs and is never empty, and the
        states of all other keys are kept, failure or not. */
    lemma {:induction false} SaveAllFrame(store: StateStore, planned: set<string>, pairs: seq<(int, int)>)
      requires Valid()
      ensures store.Keys <= SaveAll(store, planned, pairs).1.Keys
      ensures planned <= SaveAll(store, planned, pairs).2
      ensures forall key :: key in store && (key.1, key.0) !in pairs ==>
                SaveAll(store, planned, pairs).1[key] == store[key]
      ensures forall key :: key in SaveAll(store, planned, pairs).1 ==>
                (key in store && SaveAll(store, planned, pairs).1[key] == store[key]) ||
                ((key.1, key.0) in pairs && SaveAll(store, planned, pairs).1[key] != {})
      decreases |pairs|
    {
      if pairs != [] {
        var step := Step(store, planned, pairs[0].0, pairs[0].1);
        if step.Success? {
          SaveAllFrame(step.value.0, step.value.1, pairs[1..]);
          assert SaveAll(store, planned, pairs) == SaveAll(step.value.0, step.value.1, pairs[1..]);
          assert forall p :: p in pairs[1..] ==> p in pairs;
        }
      }
    }

    /** When saving a bundle succeeds, state exists for every (timestep,
        iteration) pair of it, and none of it is empty. */
    lemma {:induction false} SaveAllWrites(store: StateStore, planned: set<string>, pairs: seq<(int, int)>)
      requires Valid()
      requires SaveAll(store, planned, pairs).0 == Pass
      ensures forall p :: p in pairs ==>
                (p.1, p.0) in SaveAll(store, planned, pairs).1 &&
                SaveAll(store, planned, pairs).1[(p.1, p.0)] != {}
      decreases |pairs|
    {
      if pairs != [] {
        var step := Step(store, planned, pairs[0].0, pairs[0].1);
        var (store1, planned1) := step.value;
        SaveAllWrites(store1, planned1, pairs[1..]);
        SaveAllFrame(store1, planned1, pairs[1..]);
        var after := SaveAll(store, planned, pairs).1;
        assert after == SaveAll(store1, planned1, pairs[1..]).1;
        forall p | p in pairs ensures (p.1, p.0) in after && after[(p.1, p.0)] != {} {
          if p != pairs[0] { assert p in pairs[1..]; }
        }
      }
    }

    /** Without any strategy, saving writes the placeholder for every pair,
        never fails and plans nothing. */
    lemma {:induction false} SaveAllWithoutStrategies(store: StateStore, planned: set<string>, pairs: seq<(int, int)>)
      requires Valid() && decisionModule == null && preSpecPlanning == null
      ensures SaveAll(store, planned, pairs).0 == Pass
      ensures SaveAll(store, planned, pairs).2 == planned
      ensures forall p :: p in pairs ==>
                (p.1, p.0) in SaveAll(store, planned, pairs).1 &&
                SaveAll(store, planned, pairs).1[(p.1, p.0)] == {Placeholder}
      decreases |pairs|
    {
      if pairs != [] {
        var (i, t) := pairs[0];
        var handle := ResultsHandle(store, t, timesteps, i);
        assert PreDecisionState(handle) == Success({});
        assert NewDecisions(handle) == Success({});
        assert Untuplize({}) == {};
        assert PairNames({}) == {};
        assert PostDecisionState({}, {}) == {Placeholder};
        var store1 := store[(t, i) := {Placeholder}];
        assert store[(t, i) := PostDecisionState({}, {})] == store1;
        assert planned + PairNames({}) == planned;
        assert Step(store, planned, i, t) == Success((store1, planned));
        SaveAllWithoutStrategies(store1, planned, pairs[1..]);
        SaveAllFrame(store1, planned, pairs[1..]);
        var after := SaveAll(store, planned, pairs).1;
        assert after == SaveAll(store1, planned, pairs[1..]).1;
        forall p | p in pairs ensures (p.1, p.0) in after && after[(p.1, p.0)] == {Placeholder} {
          if p != pairs[0] { assert p in pairs[1..]; }
        }
      }
    }

    /** With pre-specified planning as the only strategy, the step for the
        k-th timestep under iteration 0 finds its pre-decision state once the
        earlier timesteps are written (it reads the previous timestep under
        iteration 0), so it succeeds exactly when the timestep's planned
        decisions do; it then writes the k-th timestep as well. */
    lemma PreSpecifiedStep(store: StateStore, planned: set<string>, k: nat)
      requires Valid() && decisionModule == null && preSpecPlanning != null
      requires k < |timesteps|
      requires forall i :: 0 <= i < k ==> (timesteps[i], 0) in store
      ensures Step(store, planned, 0, timesteps[k]).Success? <==>
                preSpecPlanning.Decided(timesteps[k]).Success?
      ensures Step(store, planned, 0, timesteps[k]).Success? ==>
                forall i :: 0 <= i <= k ==> (timesteps[i], 0) in Step(store, planned, 0, timesteps[k]).value.0
    {
      var handle := ResultsHandle(store, timesteps[k], timesteps, 0);
      if handle.PreviousTimestep().Success? {
        var j := IndexOf(timesteps, timesteps[k]);
        assert (timesteps[j - 1], 0) in store;
      }
    }

    /** Walking the single bundle's pairs, iteration 0 with each timestep in
        order, from the k-th timestep on succeeds exactly when every remaining
        timestep has its planned decisions. */
    lemma {:induction false} PreSpecifiedSavesFrom(store: StateStore, planned: set<string>,
                                                   pairs: seq<(int, int)>, k: nat)
      requires Valid() && decisionModule == null && preSpecPlanning != null
      requires |pairs| == |timesteps| && k <= |timesteps|
      requires forall i :: 0 <= i < |pairs| ==> pairs[i] == (0, timesteps[i])
      requires forall i :: 0 <= i < k ==> (timesteps[i], 0) in store
      ensures SaveAll(store, planned, pairs[k..]).0 == Pass <==>
                forall i :: k <= i < |timesteps| ==> preSpecPlanning.Decided(timesteps[i]).Success?
      decreases |timesteps| - k
    {
      if k < |timesteps| {
        SaveAllNext(store, planned, pairs, k);
        PreSpecifiedStep(store, planned, k);
        var step := Step(store, planned, 0, timesteps[k]);
        if step.Success? {
          PreSpecifiedSavesFrom(step.value.0, step.value.1, pairs, k + 1);
        }
      } else {
        assert pairs[k..] == [];
      }
    }

    /** `decision_loop` without a dynamic strategy: saving the single bundle
        (iteration 0 over every timestep, in order) succeeds exactly when
        pre-specified planning yields its decisions at every timestep. */
    lemma SingleBundleSaves(store: StateStore, planned: set<string>)
      requires Valid() && decisionModule == null && preSpecPlanning != null
      ensures SaveAll(store, planned, Product([0], timesteps)).0 == Pass <==>
                forall t :: t in timesteps ==> preSpecPlanning.Decided(t).Success?
    {
      var pairs := Product([0], timesteps);
      forall i | 0 <= i < |timesteps| ensures pairs[i] == (0, timesteps[i]) {
        ProductOrder([0], timesteps, 0, i);
      }
      PreSpecifiedSavesFrom(store, planned, pairs, 0);
      assert pairs[0..] == pairs;
    }

    /** `get_and_save_decisions`. */
    method GetAndSaveDecisions(iteration: int, timestep: int) returns (r: Outcome<Error>)
      requires Valid()
      modifies this
      ensures Valid() && loopFinished == old(loopFinished)
      ensures match Step(old(store), old(plannedInterventions), iteration, timestep)
              case Failure(e) =>
                r == Fail(e) && store == old(store) && plannedInterventions == old(plannedInterventions)
              case Success((store', planned')) =>
                r == Pass && store == store' && plannedInterventions == planned'
    {
      var handle := ResultsHandle(store, timestep, timesteps, iteration);
      var pre := PreDecisionState(handle);
      if pre.Failure? {
        return Fail(pre.error);
      }
      var decided: set<(Value, string)> := {};
      if decisionModule != null {
        decided := Tuplize(ElementsOf(decisionModule.GetDecision(handle)));
      }
      if preSpecPlanning != null {
        var planned := preSpecPlanning.GetDecision(handle);
        if planned.Failure? {
          return Fail(planned.error);
        }
        decided := decided + Tuplize(ElementsOf(planned.value));
      }
      assert NewDecisions(handle) == Success(decided);
      UpdatePlannedInterventions(decided);
      store := store[(timestep, iteration) := PostDecisionState(pre.value, decided)];
      r := Pass;
    }

    /** Saving from the k-th pair on is the k-th step followed by saving
        from the next pair on. */
    lemma SaveAllNext(store: StateStore, planned: set<string>, pairs: seq<(int, int)>, k: nat)
      requires Valid() && k < |pairs|
      ensures var step := Step(store, planned, pairs[k].0, pairs[k].1);
              && (step.Failure? ==> SaveAll(store, planned, pairs[k..]) == (Fail(step.error), store, planned))
              && (step.Success? ==> SaveAll(store, planned, pairs[k..]) == SaveAll(step.value.0, step.value.1, pairs[k + 1..]))
    {
      assert pairs[k..][0] == pairs[k] && pairs[k..][1..] == pairs[k + 1..];
    }

    /** One pass of `_get_and_save_bundle_decisions`' loop: saving the k-th
        pair either fails, as saving from the k-th pair on does, or leaves
        the rest of the pairs to be saved. */
    method SavePair(pairs: seq<(int, int)>, k: nat) returns (r: Outcome<Error>)
      requires Valid() && k < |pairs|
      modifies this
      ensures Valid() && loopFinished == old(loopFinished)
      ensures r.Fail? ==>
                SaveAll(old(store), old(plannedInterventions), pairs[k..]) == (r, store, plannedInterventions)
      ensures r == Pass ==>
                SaveAll(old(store), old(plannedInterventions), pairs[k..]) ==
                SaveAll(store, plannedInterventions, pairs[k + 1..])
    {
      ghost var step := Step(store, plannedInterventions, pairs[k].0, pairs[k].1);
      SaveAllNext(store, plannedInterventions, pairs, k);
      r := GetAndSaveDecisions(pairs[k].0, pairs[k].1);
      if r.Fail? {
        assert step.Failure?;
      } else {
        assert step.Success? && store == step.value.0 && plannedInterventions == step.value.1;
      }
    }

    /** `_get_and_save_bundle_decisions`: one `get_and_save_decisions` call
        per pair of the bundle's iteration-by-timestep product. */
    method SaveBundleDecisions(bundle: Bundle) returns (r: Outcome<Error>)
      requires Valid()
      modifies this
      ensures Valid() && loopFinished == old(loopFinished)
      ensures (r, store, plannedInterventions) ==
                SaveAll(old(store), old(plannedInterventions),
                        Product(bundle.decisionIterations, bundle.timesteps))
    {
      var pairs := Product(bundle.decisionIterations, bundle.timesteps);
      for k := 0 to |pairs|
        invariant Valid() && loopFinished == old(loopFinished)
        invariant SaveAll(old(store), old(plannedInterventions), pairs) ==
                    SaveAll(store, plannedInterventions, pairs[k..])
      {
        r := SavePair(pairs, k);
        if r.Fail? {
          return;
        }
      }
      assert pairs[|pairs|..] == [];
      r := Pass;
    }

    /** The bundle the decision loop yields when no dynamic strategy is
        configured: iteration 0 over every timestep. */
    function SingleBundle(): (b: Bundle)
      ensures b.decisionIterations == [0] && b.timesteps == timesteps && b.decisionLinks.None?
    {
      Bundle([0], timesteps, None)
    }

    /** `decision_loop` without a dynamic strategy: the single bundle is
        saved and yielded, or the error of saving it escapes; either way the
        loop ends. */
    method YieldSingleBundle() returns (r: Result<Option<Bundle>, Error>)
      requires Valid() && decisionModule == null
      modifies this
      ensures Valid()
      ensures var (outcome, store', planned') :=
                SaveAll(old(store), old(plannedInterventions), Product([0], timesteps));
              && loopFinished && store == store' && plannedInterventions == planned'
              && (outcome == Pass ==> r == Success(Some(SingleBundle())))
              && (outcome.Fail? ==> r == Failure(outcome.error))
    {
      var bundle := SingleBundle();
      var saved := SaveBundleDecisions(bundle);
      loopFinished := true;
      if saved.Fail? {
        return Failure(saved.error);
      }
      return Success(Some(bundle));
    }

    /** `decision_loop` with a dynamic strategy: the strategy's next bundle
        is saved and yielded; the loop ends when the strategy stops or saving
        raises. */
    method YieldDynamicBundle() returns (r: Result<Option<Bundle>, Error>)
      requires Valid() && decisionModule != null
      modifies this, decisionModule
      ensures Valid()
      ensures match Advance(timesteps, old(decisionModule.State()))
              case None =>
                r == Success(None) && loopFinished && store == old(store) &&
                plannedInterventions == old(plannedInterventions) &&
                decisionModule.State() == old(decisionModule.State())
              case Some((state, bundle)) =>
                var (outcome, store', planned') :=
                  SaveAll(old(store), old(plannedInterventions),
                          Product(bundle.decisionIterations, bundle.timesteps));
                && decisionModule.State() == state
                && store == store' && plannedInterventions == planned'
                && (outcome == Pass ==> r == Success(Some(bundle)) && loopFinished == old(loopFinished))
                && (outcome.Fail? ==> r == Failure(outcome.error) && loopFinished)
    {
      var next := decisionModule.Next();
      if next.None? {
        loopFinished := true;
        return Success(None);
      }
      var saved := SaveBundleDecisions(next.value);
      if saved.Fail? {
        loopFinished := true;
        return Failure(saved.error);
      }
      r := Success(next);
    }

    /** One step of the `decision_loop` generator: `Success(None)` once it
        has ended. Without a dynamic strategy it yields `SingleBundle()` once;
        with one it yields each bundle the strategy proposes until the
        strategy signals the end. Every yielded bundle has been saved first;
        an error escapes and ends the loop. */
    method NextBundle() returns (r: Result<Option<Bundle>, Error>)
      requires Valid()
      modifies this, decisionModule
      ensures Valid()
      ensures old(loopFinished) ==>
                r == Success(None) && loopFinished && store == old(store) &&
                plannedInterventions == old(plannedInterventions) &&
                (decisionModule != null ==> decisionModule.State() == old(decisionModule.State()))
      ensures !old(loopFinished) && decisionModule == null ==>
                var (outcome, store', planned') :=
                  SaveAll(old(store), old(plannedInterventions), Product([0], timesteps));
                && loopFinished && store == store' && plannedInterventions == planned'
                && (outcome == Pass ==> r == Success(Some(SingleBundle())))
                && (outcome.Fail? ==> r == Failure(outcome.error))
      ensures !old(loopFinished) && decisionModule != null ==>
                match Advance(timesteps, old(decisionModule.State()))
                case None =>
                  r == Success(None) && loopFinished && store == old(store) &&
                  plannedInterventions == old(plannedInterventions) &&
                  decisionModule.State() == old(decisionModule.State())
                case Some((state, bundle)) =>
                  var (outcome, store', planned') :=
                    SaveAll(old(store), old(plannedInterventions),
                            Product(bundle.decisionIterations, bundle.timesteps));
                  && decisionModule.State() == state
                  && store == store' && plannedInterventions == planned'
                  && (outcome == Pass ==> r == Success(Some(bundle)) && !loopFinished)
                  && (outcome.Fail? ==> r == Failure(outcome.error) && loopFinished)
    {
      if loopFinished {
        return Success(None);
      }
      if decisionModule == null {
        r := YieldSingleBundle();
      } else {
        r := YieldDynamicBundle();
      }
    }
  }

  /** Builds a manager from the sector models' registers, the initial
      conditions and the strategies of a model run. More than one dynamic
      strategy type is not implemented; a dynamic strategy over an empty
      horizon has no first timestep (ValueError). When several dynamic
      strategies share a type, the last one configured is used. */
  method NewDecisionManager(store: StateStore, timesteps: seq<int>,
                            registers: seq<map<string, Intervention>>,
                            initial: seq<Decision>, strategies: seq<Strategy>)
    returns (r: Result<DecisionManager, Error>)
    requires DynamicTypes(strategies) != {} ==> StrictlyIncreasing(timesteps)
    ensures |DynamicTypes(strategies)| > 1 ==> r == Failure(NotImplemented)
    ensures |DynamicTypes(strategies)| == 1 && timesteps == [] ==> r == Failure(ValueError)
    ensures r.Success? <==> |DynamicTypes(strategies)| <= 1 && (DynamicTypes(strategies) != {} ==> timesteps != [])
    ensures r.Success? ==>
              var m := r.value;
              && fresh(m) && m.Valid() && !m.loopFinished
              && m.store == store && m.timesteps == timesteps
              && m.register == MergeRegisters(registers)
              && m.plannedInterventions == NameSet(Names(PlannedFrom(initial, strategies)))
              && (m.preSpecPlanning != null <==> PlannedFrom(initial, strategies) != [])
              && (m.preSpecPlanning != null ==> m.preSpecPlanning.planned == PlannedFrom(initial, strategies))
              && (m.decisionModule != null <==> DynamicTypes(strategies) != {})
              && (m.decisionModule != null ==>
                    m.decisionModule.base.register == m.AvailableInterventions() &&
                    m.decisionModule.State() == InitialState(timesteps))
  {
    var register := MergeRegisters(registers);
    var planned := PlannedFrom(initial, strategies);
    var dynamicTypes := DynamicTypes(strategies);
    if |dynamicTypes| > 1 {
      return Failure(NotImplemented);
    }
    if dynamicTypes != {} && timesteps == [] {
      return Failure(ValueError);
    }
    var m := new DecisionManager(store, timesteps, register, planned, dynamicTypes != {});
    r := Success(m);
  }
}
