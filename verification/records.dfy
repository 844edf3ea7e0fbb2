/** Values shared by the decision core: the exceptions it raises, the loosely
    typed scalars it reads from configuration, decisions, bundles of work, and
    the results handle through which strategies read earlier state. */
module Records {
  import opened Wrappers

  /** The exceptions raised by the core, named after their Python classes. */
  datatype Error =
    | TypeError
    | ValueError
    | KeyError
    | IndexError
    | AssertionError
    | DataNotFound        // SmifDataNotFoundError
    | TimestepResolution  // SmifTimestepResolutionError
    | NotImplemented      // NotImplementedError

  /** A dynamically typed scalar as read from configuration or from stored
      state (a `build_year`, a `technical_lifetime` value): a Python int, a
      Python str, or None. */
  datatype Value = IntVal(i: int) | StrVal(s: string) | NoneVal

  // ---------------------------------------------------------------------------
  // Python's int() on the scalars above

  predicate IsDigit(c: char) { '0' <= c <= '9' }

  predicate AllDigits(s: string) { forall k :: 0 <= k < |s| ==> IsDigit(s[k]) }

  /** The number written by a string of decimal digits. */
  function DigitsValue(s: string): nat
    requires AllDigits(s)
  {
    if s == [] then 0 else DigitsValue(s[..|s| - 1]) * 10 + (s[|s| - 1] as int - '0' as int)
  }

  /** `int(s)` for a string: an optional sign followed by at least one
      decimal digit; anything else is refused. */
  function ParseInt(s: string): Option<int>
  {
    if s != [] && (s[0] == '+' || s[0] == '-') then
      if |s| > 1 && AllDigits(s[1..]) then
        Some(if s[0] == '-' then 0 - DigitsValue(s[1..]) as int else DigitsValue(s[1..]) as int)
      else None
    else if s != [] && AllDigits(s) then Some(DigitsValue(s))
    else None
  }

  /** The decimal text of a natural number (the inverse of DigitsValue). */
  function ShowNat(n: nat): (s: string)
    ensures s != [] && AllDigits(s)
  {
    if n < 10 then [('0' as int + n) as char]
    else ShowNat(n / 10) + [('0' as int + n % 10) as char]
  }

  /** The decimal text of an integer, as Python's `str` writes it. */
  function ShowInt(n: int): string
  {
    if n < 0 then "-" + ShowNat(-n) else ShowNat(n)
  }

  lemma {:induction false} DigitsValueOfShowNat(n: nat)
    ensures DigitsValue(ShowNat(n)) == n
  {
    var s := ShowNat(n);
    if n >= 10 {
      DigitsValueOfShowNat(n / 10);
      assert s[..|s| - 1] == ShowNat(n / 10);
    }
  }

  /** Python's `int(v)`: ints are kept, strings are parsed (ValueError when
      they are not an integer literal), None raises TypeError. */
  function ToInt(v: Value): (r: Result<int, Error>)
    ensures v.IntVal? ==> r == Success(v.i)
    ensures v.NoneVal? ==> r == Failure(TypeError)
    ensures v.StrVal? ==> (r.Success? <==> ParseInt(v.s).Some?)
    ensures v.StrVal? && r.Failure? ==> r.error == ValueError
  {
    match v
    case IntVal(i) => Success(i)
    case StrVal(s) => if ParseInt(s).Some? then Success(ParseInt(s).value) else Failure(ValueError)
    case NoneVal => Failure(TypeError)
  }

  /** Reading back the decimal text of any integer gives that integer, so a
      year stored as its decimal text converts back to the same year. */
  lemma ParseIntShowInt(n: int)
    ensures ParseInt(ShowInt(n)) == Some(n)
    ensures ToInt(StrVal(ShowInt(n))) == Success(n)
  {
    if n < 0 {
      var s, digits := ShowInt(n), ShowNat(-n);
      assert s == "-" + digits && s[1..] == digits;
      DigitsValueOfShowNat(-n);
    } else {
      assert IsDigit(ShowNat(n)[0]);
      DigitsValueOfShowNat(n);
    }
  }

  // ---------------------------------------------------------------------------
  // Timesteps

  predicate StrictlyIncreasing(ts: seq<int>)
  {
    forall i, j :: 0 <= i < j < |ts| ==> ts[i] < ts[j]
  }

  /** Python's `list.index`: the first position that holds `t`. */
  function IndexOf(ts: seq<int>, t: int): (k: nat)
    requires t in ts
    ensures k < |ts| && ts[k] == t
    ensures forall j :: 0 <= j < k ==> ts[j] != t
  {
    if ts[0] == t then 0 else 1 + IndexOf(ts[1..], t)
  }

  lemma IndexOfIncreasing(ts: seq<int>, k: nat)
    requires StrictlyIncreasing(ts) && k < |ts|
    ensures IndexOf(ts, ts[k]) == k
  {
  }

  /** `min(timesteps)`. */
  function Min(ts: seq<int>): (m: int)
    requires ts != []
    ensures m in ts
    ensures forall t :: t in ts ==> m <= t
  {
    if |ts| == 1 then ts[0]
    else
      var rest := Min(ts[1..]);
      assert forall t :: t in ts ==> t == ts[0] || t in ts[1..];
      if ts[0] <= rest then ts[0] else rest
  }

  /** `max(timesteps)`. */
  function Max(ts: seq<int>): (m: int)
    requires ts != []
    ensures m in ts
    ensures forall t :: t in ts ==> t <= m
  {
    if |ts| == 1 then ts[0]
    else
      var rest := Max(ts[1..]);
      assert forall t :: t in ts ==> t == ts[0] || t in ts[1..];
      if ts[0] >= rest then ts[0] else rest
  }

  lemma MinMaxIncreasing(ts: seq<int>)
    requires StrictlyIncreasing(ts) && ts != []
    ensures Min(ts) == ts[0] && Max(ts) == ts[|ts| - 1]
  {
    var lo, hi := IndexOf(ts, Min(ts)), IndexOf(ts, Max(ts));
    assert ts[0] <= ts[lo] && ts[hi] <= ts[|ts| - 1];
  }

  // ---------------------------------------------------------------------------
  // Decisions, interventions and bundles

  /** A decision record `{'name': ..., 'build_year': ...}`. */
  datatype Decision = Decision(name: string, buildYear: Value)

  /** The record written in place of an empty state. */
  const Placeholder: Decision := Decision("", StrVal(""))

  /** The part of an intervention record that the core reads:
      `technical_lifetime['value']`. */
  datatype Intervention = Intervention(technicalLifetime: Value)

  /** A unit of schedulable work. `decisionLinks` is absent when the bundle's
      timesteps start at the first timestep of the horizon. */
  datatype Bundle = Bundle(
    decisionIterations: seq<int>,
    timesteps: seq<int>,
    decisionLinks: Option<map<int, int>>)

  /** Stored state: the decisions written for each (timestep, iteration). */
  type StateStore = map<(int, int), set<Decision>>

  /** Read access to earlier results, scoped to one timestep and iteration. */
  datatype ResultsHandle = ResultsHandle(
    store: StateStore,
    currentTimestep: int,
    timesteps: seq<int>,
    decisionIteration: int)
  {
    /** The timestep before the current one in the horizon; failing with a
        timestep resolution error at the first timestep or off the horizon. */
    function PreviousTimestep(): (r: Result<int, Error>)
      ensures r.Failure? ==> r.error == TimestepResolution
      ensures r.Success? ==> currentTimestep in timesteps && IndexOf(timesteps, currentTimestep) > 0
      ensures r.Success? ==> r.value == timesteps[IndexOf(timesteps, currentTimestep) - 1]
    {
      if currentTimestep in timesteps && IndexOf(timesteps, currentTimestep) > 0 then
        Success(timesteps[IndexOf(timesteps, currentTimestep) - 1])
      else Failure(TimestepResolution)
    }

    /** The state written for (timestep, iteration); not found if none was. */
    function GetState(timestep: int, iteration: int): (r: Result<set<Decision>, Error>)
      ensures r.Success? <==> (timestep, iteration) in store
      ensures r.Success? ==> r.value == store[(timestep, iteration)]
      ensures r.Failure? ==> r.error == DataNotFound
    {
      if (timestep, iteration) in store then Success(store[(timestep, iteration)])
      else Failure(DataNotFound)
    }
  }
}
