/** The part every decision strategy shares (`DecisionModule` in
    src/smif/decision/decision.py): the planning timesteps, a read-only view
    of the intervention register, and a history of decided intervention
    names that refuses duplicates. The strategies hold one of these objects
    in place of inheriting from it. */
module DecisionModules {
  import opened Wrappers
  import opened Records

  /** The set of names listed in `names`. */
  function NameSet(names: seq<string>): set<string>
  {
    set k | 0 <= k < |names| :: names[k]
  }

  predicate Distinct(names: seq<string>)
  {
    forall i, j :: 0 <= i < j < |names| ==> names[i] != names[j]
  }

  /** The `name` of each decision record, in order. */
  function Names(ds: seq<Decision>): (r: seq<string>)
    ensures |r| == |ds|
    ensures forall k :: 0 <= k < |ds| ==> r[k] == ds[k].name
  {
    seq(|ds|, k requires 0 <= k < |ds| => ds[k].name)
  }

  /** The outcome and the history after offering `names`, one at a time, to
      the duplicate-checking `decisions` setter: the first name already in
      the history stops the loop with a ValueError, leaving the names before
      it recorded. */
  function RecordAll(history: set<string>, names: seq<string>): (Outcome<Error>, set<string>)
    decreases |names|
  {
    if names == [] then (Pass, history)
    else if names[0] in history then (Fail(ValueError), history)
    else RecordAll(history + {names[0]}, names[1..])
  }

  /** Recording a list of names succeeds exactly when the names are pairwise
      distinct and none is in the history already; it then adds exactly those
      names. A failure is always a ValueError, and whatever happens the history
      only grows, by names from the list. */
  lemma {:induction false} RecordAllSucceedsIff(history: set<string>, names: seq<string>)
    ensures RecordAll(history, names).0 == Pass <==>
              Distinct(names) && NameSet(names) !! history
    ensures RecordAll(history, names).0 == Pass ==>
              RecordAll(history, names).1 == history + NameSet(names)
    ensures RecordAll(history, names).0.Fail? ==> RecordAll(history, names).0.error == ValueError
    ensures history <= RecordAll(history, names).1 <= history + NameSet(names)
    decreases |names|
  {
    if names != [] && names[0] !in history {
      var rest := names[1..];
      RecordAllSucceedsIff(history + {names[0]}, rest);
      assert NameSet(names) == {names[0]} + NameSet(rest) by {
        forall x | x in NameSet(names) ensures x in {names[0]} + NameSet(rest) {
          var k :| 0 <= k < |names| && names[k] == x;
          if k > 0 { assert rest[k - 1] == x; }
        }
        forall x | x in NameSet(rest) ensures x in NameSet(names) {
          var k :| 0 <= k < |rest| && rest[k] == x;
          assert names[k + 1] == x;
        }
      }
      if Distinct(names) && NameSet(names) !! history {
        assert Distinct(rest);
      }
      if Distinct(rest) && NameSet(rest) !! history + {names[0]} {
        forall i, j | 0 <= i < j < |names| ensures names[i] != names[j] {
          if i > 0 { assert names[i] == rest[i - 1] && names[j] == rest[j - 1]; }
          else { assert names[j] == rest[j - 1]; }
        }
      }
    } else if names != [] {
      assert names[0] in NameSet(names);
    }
  }

  class DecisionModule {
    const timesteps: seq<int>
    const register: map<string, Intervention>
    /** The names decided so far by this strategy. */
    var decisions: set<string>

    constructor (timesteps: seq<int>, register: map<string, Intervention>)
      ensures this.timesteps == timesteps && this.register == register
      ensures decisions == {}
    {
      this.timesteps := timesteps;
      this.register := register;
      decisions := {};
    }

    /** `first_timestep`: the earliest planning timestep. */
    function FirstTimestep(): (t: int)
      requires timesteps != []
      ensures t in timesteps && forall u :: u in timesteps ==> t <= u
    {
      Min(timesteps)
    }

    /** `last_timestep`: the latest planning timestep. */
    function LastTimestep(): (t: int)
      requires timesteps != []
      ensures t in timesteps && forall u :: u in timesteps ==> u <= t
    {
      Max(timesteps)
    }

    /** `interventions`: the register entries whose names are not in the
        decision history. */
    function Interventions(): (r: map<string, Intervention>)
      reads this
      ensures r.Keys == register.Keys - decisions
      ensures forall name :: name in r ==> r[name] == register[name]
    {
      map name | name in register.Keys - decisions :: register[name]
    }

    /** The `decisions` setter: a name already in the history is refused with
        a ValueError; any other name is added, and only that name. */
    method SetDecision(name: string) returns (r: Outcome<Error>)
      modifies this
      ensures name in old(decisions) ==> r == Fail(ValueError) && decisions == old(decisions)
      ensures name !in old(decisions) ==> r == Pass && decisions == old(decisions) + {name}
      ensures r == Pass && name in register ==>
                Interventions() == old(Interventions()) - {name}
    {
      if name in decisions {
        r := Fail(ValueError);
      } else {
        decisions := decisions + {name};
        r := Pass;
      }
    }

    /** `update_decisions`: offers each record's name to the setter in order,
        stopping at the first duplicate. */
    method UpdateDecisions(ds: seq<Decision>) returns (r: Outcome<Error>)
      modifies this
      ensures (r, decisions) == RecordAll(old(decisions), Names(ds))
    {
      var names := Names(ds);
      var k := 0;
      while k < |ds|
        invariant 0 <= k <= |ds|
        invariant RecordAll(old(decisions), names) == RecordAll(decisions, names[k..])
      {
        assert names[k..][0] == ds[k].name && names[k..][1..] == names[k + 1..];
        r := SetDecision(ds[k].name);
        if r.Fail? {
          return;
        }
        k := k + 1;
      }
      r := Pass;
    }

    /** `get_intervention`: the registered record, or not found. */
    function GetIntervention(name: string): (r: Result<Intervention, Error>)
      ensures r.Success? <==> name in register
      ensures r.Success? ==> r.value == register[name]
      ensures r.Failure? ==> r.error == DataNotFound
    {
      if name in register then Success(register[name]) else Failure(DataNotFound)
    }
  }
}
