/** Pre-specified planning (`PreSpecified` in src/smif/decision/decision.py):
    replays a fixed list of planned decisions. At each timestep it selects the
    planned entries that are buildable (built before the next timestep) and
    still within their technical lifetime. */
module PreSpecifiedPlanning {
  import opened Wrappers
  import opened Records
  import opened DecisionModules

  /** A technical lifetime once read through `int()`: a number of years, or
      infinite when the value is not an integer literal. */
  datatype Lifetime = Years(n: int) | Infinite

  /** `int(lifetime)` with its ValueError caught and read as an infinite
      lifetime; the TypeError that None raises is not caught. */
  function LifetimeOf(v: Value): (r: Result<Lifetime, Error>)
    ensures r.Failure? <==> v.NoneVal?
    ensures r.Failure? ==> r.error == TypeError
    ensures r == Success(Infinite) <==> v.StrVal? && ParseInt(v.s).None?
    ensures r.Success? && r.value.Years? ==> ToInt(v) == Success(r.value.n)
  {
    match ToInt(v)
    case Success(n) => Success(Years(n))
    case Failure(e) => if e == ValueError then Success(Infinite) else Failure(e)
  }

  /** The year before which a build counts at `timestep`: the following
      timestep of the horizon, or one year on at the last timestep. The
      position is the first one holding `timestep`, as `list.index` finds. */
  function NextYear(ts: seq<int>, timestep: int): int
    requires timestep in ts
  {
    var k := IndexOf(ts, timestep);
    if k == |ts| - 1 then timestep + 1 else ts[k + 1]
  }

  /** `a` occurs in `b` in order, possibly with gaps. */
  predicate IsSubsequence<T(==)>(a: seq<T>, b: seq<T>)
    decreases |b|
  {
    if a == [] then true
    else if b == [] then false
    else if a[|a| - 1] == b[|b| - 1] then IsSubsequence(a[..|a| - 1], b[..|b| - 1])
    else IsSubsequence(a, b[..|b| - 1])
  }

  lemma {:induction false} SubsequenceDropLast<T>(a: seq<T>, b: seq<T>)
    requires a != [] && IsSubsequence(a, b)
    ensures IsSubsequence(a[..|a| - 1], b)
    decreases |b|
  {
    var a', b' := a[..|a| - 1], b[..|b| - 1];
    if a' != [] {
      if a[|a| - 1] == b[|b| - 1] {
        if a'[|a'| - 1] == b[|b| - 1] {
          SubsequenceDropLast(a', b');
        }
      } else {
        SubsequenceDropLast(a, b');
        if a'[|a'| - 1] == b[|b| - 1] {
          SubsequenceDropLast(a', b');
        }
      }
    }
  }

  lemma {:induction false} SubsequenceExtend<T>(a: seq<T>, b: seq<T>, x: T)
    requires IsSubsequence(a, b)
    ensures IsSubsequence(a, b + [x])
  {
    var b' := b + [x];
    assert b'[..|b'| - 1] == b;
    if a != [] && a[|a| - 1] == x {
      SubsequenceDropLast(a, b);
    }
  }

  class PreSpecified {
    const base: DecisionModule
    /** The historical and planned decisions, in configuration order. */
    const planned: seq<Decision>

    constructor (timesteps: seq<int>, register: map<string, Intervention>, planned: seq<Decision>)
      ensures fresh(base)
      ensures base.timesteps == timesteps && base.register == register && base.decisions == {}
      ensures this.planned == planned
    {
      base := new DecisionModule(timesteps, register);
      this.planned := planned;
    }

    /** `_get_next_decision_iteration`: one bundle, iteration 0 over every
        timestep, returned on every call (it never signals the end). */
    function NextDecisionIteration(): (b: Bundle)
      ensures b.decisionIterations == [0]
      ensures b.timesteps == base.timesteps
      ensures b.decisionLinks.None?
    {
      Bundle([0], base.timesteps, None)
    }

    /** `get_previous_state`: the state at the previous timestep, for the
        explicit iteration when one other than 0 is given and for the
        handle's iteration otherwise; empty when there is no previous
        timestep. Only a missing stored state escapes as an error. */
    function GetPreviousState(handle: ResultsHandle, iteration: Option<int>): (r: Result<set<Decision>, Error>)
      ensures r.Failure? ==> r.error == DataNotFound
      ensures handle.PreviousTimestep().Failure? ==> r == Success({})
      ensures handle.PreviousTimestep().Success? ==>
                var chosen := if iteration.Some? && iteration.value != 0 then iteration.value else handle.decisionIteration;
                (r.Success? <==> (handle.PreviousTimestep().value, chosen) in handle.store) &&
                (r.Success? ==> r.value == handle.store[(handle.PreviousTimestep().value, chosen)])
    {
      match handle.PreviousTimestep()
      case Failure(_) => Success({})
      case Success(previous) =>
        var previousIteration :=
          if iteration.Some? && iteration.value != 0 then iteration.value else handle.decisionIteration;
        handle.GetState(previous, previousIteration)
    }

    /** `buildable`: a build year that is not a number is a TypeError and a
        timestep off the horizon a ValueError; otherwise the result is whether
        the build year falls before the next timestep. */
    function Buildable(buildYear: Value, timestep: int): (r: Result<bool, Error>)
      ensures !buildYear.IntVal? ==> r == Failure(TypeError)
      ensures buildYear.IntVal? && timestep !in base.timesteps ==> r == Failure(ValueError)
      ensures buildYear.IntVal? && timestep in base.timesteps ==> r.Success?
    {
      if !buildYear.IntVal? then Failure(TypeError)
      else if timestep !in base.timesteps then Failure(ValueError)
      else Success(buildYear.i < NextYear(base.timesteps, timestep))
    }

    /** `within_lifetime`: whether `timestep <= build_year + lifetime`, where a
        lifetime that is not an integer literal is infinite, a negative
        lifetime is a ValueError, and a build year that is not a number or a
        missing (None) lifetime is a TypeError. */
    function WithinLifetime(buildYear: Value, timestep: int, lifetime: Value): (r: Result<bool, Error>)
      ensures !buildYear.IntVal? ==> r == Failure(TypeError)
      ensures buildYear.IntVal? && lifetime.NoneVal? ==> r == Failure(TypeError)
      ensures buildYear.IntVal? && LifetimeOf(lifetime).Success? ==>
                match LifetimeOf(lifetime).value
                case Infinite => r == Success(true)
                case Years(n) =>
                  if n < 0 then r == Failure(ValueError)
                  else r == Success(timestep <= buildYear.i + n)
    {
      if !buildYear.IntVal? then Failure(TypeError)
      else
        match LifetimeOf(lifetime)
        case Failure(e) => Failure(e)
        case Success(Infinite) => Success(true)
        case Success(Years(n)) =>
          if n < 0 then Failure(ValueError) else Success(timestep <= buildYear.i + n)
    }

    /** One pass of `get_decision`'s loop: convert the build year with
        `int()`, look the intervention up in the register, then test
        buildable and, only when that holds, within lifetime. */
    function Admit(entry: Decision, timestep: int): Result<bool, Error>
    {
      match ToInt(entry.buildYear)
      case Failure(e) => Failure(e)
      case Success(year) =>
        if entry.name !in base.register then Failure(KeyError)
        else
          match Buildable(IntVal(year), timestep)
          case Failure(e) => Failure(e)
          case Success(buildable) =>
            if buildable then
              WithinLifetime(IntVal(year), timestep, base.register[entry.name].technicalLifetime)
            else Success(false)
    }

    /** The entries of `entries` that `get_decision` keeps at `timestep`, in
        order, or the error of the first entry that raises. */
    function DecidedAmong(entries: seq<Decision>, timestep: int): Result<seq<Decision>, Error>
      decreases |entries|
    {
      if entries == [] then Success([])
      else
        match DecidedAmong(entries[..|entries| - 1], timestep)
        case Failure(e) => Failure(e)
        case Success(kept) =>
          match Admit(entries[|entries| - 1], timestep)
          case Failure(e) => Failure(e)
          case Success(keep) => Success(if keep then kept + [entries[|entries| - 1]] else kept)
    }

    /** `get_decision`: walks the planned list once and keeps, in order, the
        entries admitted at the handle's current timestep. */
    method GetDecision(handle: ResultsHandle) returns (r: Result<seq<Decision>, Error>)
      ensures r == DecidedAmong(planned, handle.currentTimestep)
    {
      var decisions: seq<Decision> := [];
      var timestep := handle.currentTimestep;
      for k := 0 to |planned|
        invariant DecidedAmong(planned[..k], timestep) == Success(decisions)
      {
        var intervention := planned[k];
        assert planned[..k + 1][..k] == planned[..k] && planned[..k + 1][k] == intervention;
        var buildYear := ToInt(intervention.buildYear);
        if buildYear.Failure? {
          DecidedAmongFailurePersists(planned, k + 1, timestep);
          return Failure(buildYear.error);
        }
        if intervention.name !in base.register {
          DecidedAmongFailurePersists(planned, k + 1, timestep);
          return Failure(KeyError);
        }
        var lifetime := base.register[intervention.name].technicalLifetime;
        var buildable := Buildable(IntVal(buildYear.value), timestep);
        if buildable.Failure? {
          DecidedAmongFailurePersists(planned, k + 1, timestep);
          return Failure(buildable.error);
        }
        if buildable.value {
          var within := WithinLifetime(IntVal(buildYear.value), timestep, lifetime);
          if within.Failure? {
            DecidedAmongFailurePersists(planned, k + 1, timestep);
            return Failure(within.error);
          }
          if within.value {
            decisions := decisions + [intervention];
          }
        }
      }
      assert planned[..|planned|] == planned;
      r := Success(decisions);
    }

    /** Once an error is raised on a prefix of the list, the whole list
        raises that error. */
    lemma {:induction false} DecidedAmongFailurePersists(entries: seq<Decision>, k: nat, timestep: int)
      requires k <= |entries|
      requires DecidedAmong(entries[..k], timestep).Failure?
      ensures DecidedAmong(entries, timestep) == DecidedAmong(entries[..k], timestep)
      decreases |entries| - k
    {
      if k < |entries| {
        var longer := entries[..k + 1];
        assert longer[..|longer| - 1] == entries[..k];
        DecidedAmongFailurePersists(entries, k + 1, timestep);
      } else {
        assert entries[..k] == entries;
      }
    }

    /** The selection succeeds exactly when no entry raises. */
    lemma {:induction false} DecidedSucceedsIff(entries: seq<Decision>, timestep: int)
      ensures DecidedAmong(entries, timestep).Success? <==>
                forall k :: 0 <= k < |entries| ==> Admit(entries[k], timestep).Success?
      decreases |entries|
    {
      if entries != [] {
        var prefix := entries[..|entries| - 1];
        DecidedSucceedsIff(prefix, timestep);
        assert forall k :: 0 <= k < |prefix| ==> prefix[k] == entries[k];
      }
    }

    /** A successful selection holds exactly the admitted entries, and keeps
        them in their planned order. */
    lemma {:induction false} DecidedMembers(entries: seq<Decision>, timestep: int)
      requires DecidedAmong(entries, timestep).Success?
      ensures forall d :: d in DecidedAmong(entries, timestep).value <==>
                exists k :: 0 <= k < |entries| && entries[k] == d && Admit(entries[k], timestep) == Success(true)
      ensures IsSubsequence(DecidedAmong(entries, timestep).value, entries)
      decreases |entries|
    {
      if entries != [] {
        var prefix := entries[..|entries| - 1];
        var last := entries[|entries| - 1];
        DecidedMembers(prefix, timestep);
        var kept := DecidedAmong(prefix, timestep).value;
        var r := DecidedAmong(entries, timestep).value;
        assert forall k :: 0 <= k < |prefix| ==> prefix[k] == entries[k];
        forall d
          ensures d in r <==>
                  exists k :: 0 <= k < |entries| && entries[k] == d && Admit(entries[k], timestep) == Success(true)
        {
          if d in r && d !in kept {
            assert entries[|entries| - 1] == d;
          }
          if exists k :: 0 <= k < |entries| && entries[k] == d && Admit(entries[k], timestep) == Success(true) {
            var k :| 0 <= k < |entries| && entries[k] == d && Admit(entries[k], timestep) == Success(true);
            if k < |prefix| {
              assert prefix[k] == d;
            }
          }
        }
        if Admit(last, timestep) == Success(true) {
          assert (kept + [last])[..|kept + [last]| - 1] == kept;
        } else {
          assert prefix + [last] == entries;
          SubsequenceExtend(kept, prefix, last);
        }
      }
    }

    /** `get_decision` over the whole planned list. */
    function Decided(timestep: int): Result<seq<Decision>, Error>
    {
      DecidedAmong(planned, timestep)
    }
  }

  // ---------------------------------------------------------------------------
  // Properties over a horizon of strictly increasing timesteps

  /** At the k-th timestep, a numeric build year is buildable exactly when it
      is earlier than the (k+1)-th timestep, or than one year after the last. */
  lemma BuildableAt(p: PreSpecified, year: int, k: nat)
    requires StrictlyIncreasing(p.base.timesteps) && k < |p.base.timesteps|
    ensures p.Buildable(IntVal(year), p.base.timesteps[k]) ==
              Success(year < if k + 1 < |p.base.timesteps| then p.base.timesteps[k + 1]
                             else p.base.timesteps[k] + 1)
  {
    IndexOfIncreasing(p.base.timesteps, k);
  }

  /** Once buildable, an intervention stays buildable at every later timestep. */
  lemma BuildableMonotone(p: PreSpecified, year: int, j: nat, k: nat)
    requires StrictlyIncreasing(p.base.timesteps) && j <= k < |p.base.timesteps|
    requires p.Buildable(IntVal(year), p.base.timesteps[j]) == Success(true)
    ensures p.Buildable(IntVal(year), p.base.timesteps[k]) == Success(true)
  {
    BuildableAt(p, year, j);
    BuildableAt(p, year, k);
  }

  /** Once out of its lifetime, an intervention stays out at every later
      timestep; within it, it was within at every earlier one. */
  lemma WithinLifetimeAntitone(p: PreSpecified, year: int, lifetime: Value, t: int, u: int)
    requires t <= u
    requires p.WithinLifetime(IntVal(year), u, lifetime) == Success(true)
    ensures p.WithinLifetime(IntVal(year), t, lifetime) == Success(true)
  {
  }

  /** A lifetime that is text but not an integer counts as infinite: the
      intervention is within its lifetime at every timestep. */
  lemma TextLifetimeIsInfinite(p: PreSpecified, year: int, timestep: int, lifetime: string)
    requires ParseInt(lifetime).None?
    ensures p.WithinLifetime(IntVal(year), timestep, StrVal(lifetime)) == Success(true)
  {
  }

  /** An entry is decided over an unbroken run of timesteps: decided at two
      timesteps, it is decided at every timestep between them. */
  lemma {:induction false} DecidedOverInterval(p: PreSpecified, entry: Decision, i: nat, j: nat, k: nat)
    requires StrictlyIncreasing(p.base.timesteps) && i <= j <= k < |p.base.timesteps|
    requires p.Admit(entry, p.base.timesteps[i]) == Success(true)
    requires p.Admit(entry, p.base.timesteps[k]) == Success(true)
    ensures p.Admit(entry, p.base.timesteps[j]) == Success(true)
  {
    var ts := p.base.timesteps;
    var year := ToInt(entry.buildYear).value;
    BuildableAt(p, year, i);
    BuildableAt(p, year, j);
    BuildableAt(p, year, k);
    assert p.Buildable(IntVal(year), ts[i]) == Success(true);
    BuildableMonotone(p, year, i, j);
    WithinLifetimeAntitone(p, year, p.base.register[entry.name].technicalLifetime, ts[j], ts[k]);
  }

  /** With timesteps [2005, 2010, 2015, 2020], a build year of 2011 is not
      buildable at 2005 and is buildable from 2010 on, since 2011 precedes
      the next timestep 2015. */
  lemma BuildableExample(p: PreSpecified)
    requires p.base.timesteps == [2005, 2010, 2015, 2020]
    ensures p.Buildable(IntVal(2011), 2005) == Success(false)
    ensures p.Buildable(IntVal(2011), 2010) == Success(true)
    ensures p.Buildable(IntVal(2011), 2015) == Success(true)
    ensures p.Buildable(IntVal(2011), 2020) == Success(true)
    ensures p.Buildable(IntVal(2011), 2012) == Failure(ValueError)
    ensures p.Buildable(StrVal("2011"), 2010) == Failure(TypeError)
  {
    BuildableAt(p, 2011, 0);
    BuildableAt(p, 2011, 1);
    BuildableAt(p, 2011, 2);
    BuildableAt(p, 2011, 3);
  }

  /** A build year of 2011 with a five-year lifetime is within its lifetime
      through 2016 and out of it at 2020; a negative lifetime is refused. */
  lemma WithinLifetimeExample(p: PreSpecified)
    ensures p.WithinLifetime(IntVal(2011), 2015, IntVal(5)) == Success(true)
    ensures p.WithinLifetime(IntVal(2011), 2016, IntVal(5)) == Success(true)
    ensures p.WithinLifetime(IntVal(2011), 2020, IntVal(5)) == Success(false)
    ensures p.WithinLifetime(IntVal(2011), 2020, IntVal(-1)) == Failure(ValueError)
    ensures p.WithinLifetime(IntVal(2011), 2020, NoneVal) == Failure(TypeError)
  {
  }

  /** An intervention built in 2010 with a ten-year lifetime is decided at
      2010, 2015 and 2020 and dropped at 2025. */
  lemma LifetimeExample(p: PreSpecified)
    requires p.base.timesteps == [2010, 2015, 2020, 2025]
    requires p.base.register == map["a" := Intervention(IntVal(10))]
    requires p.planned == [Decision("a", IntVal(2010))]
    ensures p.Decided(2010) == Success(p.planned)
    ensures p.Decided(2015) == Success(p.planned)
    ensures p.Decided(2020) == Success(p.planned)
    ensures p.Decided(2025) == Success([])
  {
    var ts := p.base.timesteps;
    BuildableAt(p, 2010, 0);
    BuildableAt(p, 2010, 1);
    BuildableAt(p, 2010, 2);
    BuildableAt(p, 2010, 3);
    var a := p.planned[0];
    assert p.planned[..|p.planned| - 1] == [];
    assert p.Admit(a, 2010) == Success(true);
    assert p.Admit(a, 2015) == Success(true);
    assert p.Admit(a, 2020) == Success(true);
    assert p.Admit(a, 2025) == Success(false);
    forall t | t in ts
      ensures p.Admit(a, t).Success? ==>
                p.Decided(t) == Success(if p.Admit(a, t).value then p.planned else [])
    {
      assert p.DecidedAmong(p.planned[..0], t) == Success([]);
      assert p.planned == [] + [a];
      assert p.Decided(t) == p.DecidedAmong(p.planned, t);
    }
  }
}
