/** Rule-based planning (`RuleBased` in src/smif/decision/decision.py): a
    state machine that proposes one (iteration, timestep) bundle at a time,
    stays at a timestep until external rule logic sets `satisfied`, then moves
    on to the next timestep, remembering the last iteration run at each
    timestep so that later bundles can link back to it. */
module RuleBasedPlanning {
  import opened Wrappers
  import opened Records
  import opened DecisionModules

  /** The four mutable fields of a rule-based strategy. */
  datatype RuleState = RuleState(
    satisfied: bool,
    currentTimestep: int,
    currentIteration: int,
    maxIteration: map<int, int>)

  /** What every reachable state satisfies: the current timestep is on the
      horizon, and every earlier timestep has a recorded final iteration that
      lies before the current iteration. */
  ghost predicate RuleInvariant(ts: seq<int>, s: RuleState)
  {
    && ts != []
    && StrictlyIncreasing(ts)
    && s.currentTimestep in ts
    && s.currentIteration >= 0
    && forall t :: t in ts && t < s.currentTimestep ==>
         t in s.maxIteration && s.maxIteration[t] < s.currentIteration
  }

  /** The state set by the constructor: first timestep, iteration 0. */
  function InitialState(ts: seq<int>): (s: RuleState)
    requires ts != [] && StrictlyIncreasing(ts)
    ensures RuleInvariant(ts, s)
  {
    RuleState(false, Min(ts), 0, map[Min(ts) := 0])
  }

  /** `next_timestep`: the timestep after `t` in the horizon, if any. */
  function NextTimestep(ts: seq<int>, t: int): (r: Option<int>)
    requires t in ts
    ensures StrictlyIncreasing(ts) ==> (r.Some? <==> t < ts[|ts| - 1])
    ensures StrictlyIncreasing(ts) && r.Some? ==> r.value in ts && t < r.value
    ensures StrictlyIncreasing(ts) && r.Some? ==> forall u :: u in ts && t < u ==> r.value <= u
  {
    var k := IndexOf(ts, t);
    if k + 1 < |ts| then Some(ts[k + 1]) else None
  }

  /** `previous_timestep`: the timestep before `t` in the horizon, if any. */
  function PreviousTimestep(ts: seq<int>, t: int): (r: Option<int>)
    requires t in ts
    ensures StrictlyIncreasing(ts) ==> (r.Some? <==> t > ts[0])
    ensures StrictlyIncreasing(ts) && r.Some? ==> r.value in ts && r.value < t
    ensures StrictlyIncreasing(ts) && r.Some? ==> forall u :: u in ts && r.value < u ==> t <= u
  {
    var k := IndexOf(ts, t);
    if k > 0 then Some(ts[k - 1]) else None
  }

  /** Over a strictly increasing horizon, stepping forward then back (or
      back then forward) returns to the same timestep. */
  lemma NextPreviousInverse(ts: seq<int>, t: int)
    requires StrictlyIncreasing(ts) && t in ts
    ensures NextTimestep(ts, t).Some? ==> PreviousTimestep(ts, NextTimestep(ts, t).value) == Some(t)
    ensures PreviousTimestep(ts, t).Some? ==> NextTimestep(ts, PreviousTimestep(ts, t).value) == Some(t)
  {
    var k := IndexOf(ts, t);
    if k + 1 < |ts| {
      IndexOfIncreasing(ts, k + 1);
    }
    if k > 0 {
      IndexOfIncreasing(ts, k - 1);
    }
  }

  /** `_make_bundle`: the current iteration at the current timestep, linked,
      after the first timestep, to the final iteration of the previous one,
      which is always an earlier iteration. */
  function MakeBundle(ts: seq<int>, s: RuleState): (b: Bundle)
    requires RuleInvariant(ts, s)
    ensures b.decisionIterations == [s.currentIteration]
    ensures b.timesteps == [s.currentTimestep]
    ensures b.decisionLinks.Some? <==> s.currentTimestep > Min(ts)
    ensures b.decisionLinks.Some? ==>
              b.decisionLinks.value.Keys == {s.currentIteration} &&
              b.decisionLinks.value[s.currentIteration] < s.currentIteration
    ensures b.decisionLinks.Some? ==>
              PreviousTimestep(ts, s.currentTimestep).Some? &&
              PreviousTimestep(ts, s.currentTimestep).value in s.maxIteration &&
              b.decisionLinks.value[s.currentIteration] ==
                s.maxIteration[PreviousTimestep(ts, s.currentTimestep).value]
  {
    MinMaxIncreasing(ts);
    if s.currentTimestep > Min(ts) then
      var previous := PreviousTimestep(ts, s.currentTimestep).value;
      Bundle([s.currentIteration], [s.currentTimestep],
             Some(map[s.currentIteration := s.maxIteration[previous]]))
    else
      Bundle([s.currentIteration], [s.currentTimestep], None)
  }

  /** `_get_next_decision_iteration`: nothing once satisfied at the last
      timestep; when satisfied earlier, record the current iteration as the
      timestep's final one, clear `satisfied`, move to the next timestep and
      increment the iteration; otherwise only increment the iteration. */
  function Advance(ts: seq<int>, s: RuleState): (r: Option<(RuleState, Bundle)>)
    requires RuleInvariant(ts, s)
    ensures r.None? <==> s.satisfied && s.currentTimestep == Max(ts)
    ensures r.Some? ==> RuleInvariant(ts, r.value.0) && r.value.1 == MakeBundle(ts, r.value.0)
  {
    MinMaxIncreasing(ts);
    if s.satisfied && s.currentTimestep == Max(ts) then None
    else if s.satisfied && s.currentTimestep < Max(ts) then
      var k := IndexOf(ts, s.currentTimestep);
      var next := RuleState(false, NextTimestep(ts, s.currentTimestep).value, s.currentIteration + 1,
                            s.maxIteration[s.currentTimestep := s.currentIteration]);
      assert next.currentTimestep == ts[k + 1];
      assert forall t :: t in ts && t < ts[k + 1] ==> t <= ts[k] by {
        forall t | t in ts && t < ts[k + 1] ensures t <= ts[k] {
          var j :| 0 <= j < |ts| && ts[j] == t;
          assert j <= k;
        }
      }
      Some((next, MakeBundle(ts, next)))
    else
      var next := s.(currentIteration := s.currentIteration + 1);
      Some((next, MakeBundle(ts, next)))
  }

  /** Each step moves to the next iteration, never back in time, and leaves
      `satisfied` cleared; an advance records the iteration it leaves. */
  lemma AdvanceStep(ts: seq<int>, s: RuleState)
    requires RuleInvariant(ts, s)
    requires Advance(ts, s).Some?
    ensures Advance(ts, s).value.0.currentIteration == s.currentIteration + 1
    ensures Advance(ts, s).value.0.currentTimestep >= s.currentTimestep
    ensures !Advance(ts, s).value.0.satisfied
    ensures s.satisfied ==>
              Advance(ts, s).value.0.currentTimestep == NextTimestep(ts, s.currentTimestep).value &&
              Advance(ts, s).value.0.maxIteration == s.maxIteration[s.currentTimestep := s.currentIteration]
    ensures !s.satisfied ==>
              Advance(ts, s).value.0 == s.(currentIteration := s.currentIteration + 1)
  {
    MinMaxIncreasing(ts);
    if s.satisfied {
      var k := IndexOf(ts, s.currentTimestep);
      assert k + 1 < |ts|;
    }
  }

  /** The bundles produced when the rule logic sets `satisfied` to
      `flags[k]` before the k-th request, up to the first end signal. */
  function Run(ts: seq<int>, s: RuleState, flags: seq<bool>): seq<Bundle>
    requires RuleInvariant(ts, s)
    decreases |flags|
  {
    if flags == [] then []
    else
      var s' := s.(satisfied := flags[0]);
      match Advance(ts, s')
      case None => []
      case Some((next, bundle)) => [bundle] + Run(ts, next, flags[1..])
  }

  /** A run that does not end at once is the first step's bundle followed by
      the run from the first step's state. */
  lemma RunUnfold(ts: seq<int>, s: RuleState, flags: seq<bool>)
    requires RuleInvariant(ts, s)
    requires flags != [] && Advance(ts, s.(satisfied := flags[0])).Some?
    ensures var step := Advance(ts, s.(satisfied := flags[0])).value;
            Run(ts, s, flags) == [step.1] + Run(ts, step.0, flags[1..])
  {
  }

  /** The k-th bundle of a run is the single iteration k+1 past the starting
      one, at a single timestep no earlier than the starting timestep. */
  lemma {:induction false} RunBundle(ts: seq<int>, s: RuleState, flags: seq<bool>, k: nat)
    requires RuleInvariant(ts, s)
    requires k < |Run(ts, s, flags)|
    ensures Run(ts, s, flags)[k].decisionIterations == [s.currentIteration + k + 1]
    ensures |Run(ts, s, flags)[k].timesteps| == 1 && Run(ts, s, flags)[k].timesteps[0] >= s.currentTimestep
    decreases k
  {
    var s' := s.(satisfied := flags[0]);
    var step := Advance(ts, s').value;
    AdvanceStep(ts, s');
    RunUnfold(ts, s, flags);
    if k > 0 {
      RunBundle(ts, step.0, flags[1..], k - 1);
    }
  }

  /** The timesteps of a run never go back. */
  lemma {:induction false} RunMonotone(ts: seq<int>, s: RuleState, flags: seq<bool>, j: nat, k: nat)
    requires RuleInvariant(ts, s)
    requires j < k < |Run(ts, s, flags)|
    ensures |Run(ts, s, flags)[j].timesteps| == 1 && |Run(ts, s, flags)[k].timesteps| == 1
    ensures Run(ts, s, flags)[j].timesteps[0] <= Run(ts, s, flags)[k].timesteps[0]
    decreases j
  {
    var step := Advance(ts, s.(satisfied := flags[0])).value;
    var rest := Run(ts, step.0, flags[1..]);
    RunUnfold(ts, s, flags);
    assert Run(ts, s, flags)[k] == rest[k - 1];
    if j == 0 {
      assert Run(ts, s, flags)[0].timesteps == [step.0.currentTimestep];
      RunBundle(ts, step.0, flags[1..], k - 1);
    } else {
      assert Run(ts, s, flags)[j] == rest[j - 1];
      RunMonotone(ts, step.0, flags[1..], j - 1, k - 1);
    }
  }

  /** Over any run, the k-th bundle is the single iteration k+1 past the
      starting one: iterations strictly increase from bundle to bundle, and
      timesteps never go back. */
  lemma {:induction false} RunIterationsIncrease(ts: seq<int>, s: RuleState, flags: seq<bool>)
    requires RuleInvariant(ts, s)
    ensures |Run(ts, s, flags)| <= |flags|
    ensures forall k :: 0 <= k < |Run(ts, s, flags)| ==>
              Run(ts, s, flags)[k].decisionIterations == [s.currentIteration + k + 1]
    ensures forall k :: 0 <= k < |Run(ts, s, flags)| ==>
              |Run(ts, s, flags)[k].timesteps| == 1 && Run(ts, s, flags)[k].timesteps[0] >= s.currentTimestep
    ensures forall j, k :: 0 <= j < k < |Run(ts, s, flags)| ==>
              Run(ts, s, flags)[j].timesteps[0] <= Run(ts, s, flags)[k].timesteps[0]
    decreases |flags|
  {
    if flags != [] && Advance(ts, s.(satisfied := flags[0])).Some? {
      RunUnfold(ts, s, flags);
      AdvanceStep(ts, s.(satisfied := flags[0]));
      RunIterationsIncrease(ts, Advance(ts, s.(satisfied := flags[0])).value.0, flags[1..]);
    }
    forall k | 0 <= k < |Run(ts, s, flags)|
      ensures Run(ts, s, flags)[k].decisionIterations == [s.currentIteration + k + 1]
      ensures |Run(ts, s, flags)[k].timesteps| == 1 && Run(ts, s, flags)[k].timesteps[0] >= s.currentTimestep
    {
      RunBundle(ts, s, flags, k);
    }
    forall j, k | 0 <= j < k < |Run(ts, s, flags)|
      ensures Run(ts, s, flags)[j].timesteps[0] <= Run(ts, s, flags)[k].timesteps[0]
    {
      RunMonotone(ts, s, flags, j, k);
    }
  }

  class RuleBased {
    const base: DecisionModule
    var satisfied: bool
    var currentTimestep: int
    var currentIteration: int
    var maxIterationByTimestep: map<int, int>

    function State(): RuleState
      reads this
    {
      RuleState(satisfied, currentTimestep, currentIteration, maxIterationByTimestep)
    }

    ghost predicate Valid()
      reads this
    {
      RuleInvariant(base.timesteps, State())
    }

    constructor (timesteps: seq<int>, register: map<string, Intervention>)
      requires timesteps != [] && StrictlyIncreasing(timesteps)
      ensures fresh(base)
      ensures base.timesteps == timesteps && base.register == register && base.decisions == {}
      ensures State() == InitialState(timesteps) && Valid()
    {
      base := new DecisionModule(timesteps, register);
      satisfied := false;
      currentTimestep := Min(timesteps);
      currentIteration := 0;
      maxIterationByTimestep := map[Min(timesteps) := 0];
    }

    /** `get_previous_year_iteration`: the final iteration recorded for the
        previous timestep, which precedes the current iteration. */
    function PreviousYearIteration(): (i: int)
      reads this
      requires Valid() && currentTimestep > base.FirstTimestep()
      ensures i < currentIteration
    {
      maxIterationByTimestep[PreviousTimestep(base.timesteps, currentTimestep).value]
    }

    /** `get_previous_state`: nothing at the first timestep; otherwise the
        state stored for the previous timestep under its final iteration. */
    function GetPreviousState(handle: ResultsHandle): (r: Result<set<Decision>, Error>)
      reads this
      requires Valid()
      ensures currentTimestep == base.FirstTimestep() ==> r == Success({})
      ensures r.Failure? ==> r.error == DataNotFound
      ensures currentTimestep > base.FirstTimestep() ==>
                r == handle.GetState(PreviousTimestep(base.timesteps, currentTimestep).value,
                                     PreviousYearIteration())
    {
      if currentTimestep > base.FirstTimestep() then
        handle.GetState(PreviousTimestep(base.timesteps, currentTimestep).value, PreviousYearIteration())
      else Success({})
    }

    /** `get_decision`: the rule-based scaffolding itself decides nothing. */
    function GetDecision(handle: ResultsHandle): (r: seq<Decision>)
      ensures r == []
    {
      []
    }

    /** `__next__`: one step of the state machine. */
    method Next() returns (b: Option<Bundle>)
      requires Valid()
      modifies this
      ensures Valid()
      ensures match Advance(base.timesteps, old(State()))
              case None => b.None? && State() == old(State())
              case Some((s, bundle)) => b == Some(bundle) && State() == s
    ensures b.Some? && b.value.decisionLinks.Some? ==>
              currentTimestep > base.FirstTimestep() &&
              b.value.decisionLinks.value == map[currentIteration := PreviousYearIteration()]
    {
      ghost var ts, s0 := base.timesteps, State();
      ghost var step := Advance(ts, s0);
      if satisfied && currentTimestep == base.LastTimestep() {
        b := None;
      } else if satisfied && currentTimestep < base.LastTimestep() {
        AdvanceStep(ts, s0);
        maxIterationByTimestep := maxIterationByTimestep[currentTimestep := currentIteration];
        satisfied := false;
        currentTimestep := NextTimestep(base.timesteps, currentTimestep).value;
        currentIteration := currentIteration + 1;
        assert State() == step.value.0;
        b := Some(MakeBundle(base.timesteps, State()));
      } else {
        AdvanceStep(ts, s0);
        currentIteration := currentIteration + 1;
        assert State() == step.value.0;
        b := Some(MakeBundle(base.timesteps, State()));
      }
    }
  }
}
