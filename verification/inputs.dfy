/** Sector model inputs (smif/inputs.py): parameters and decision variables
    declared in a dictionary, each with a position (`index`), bounds and a
    value, laid out into index-ordered arrays of names, values and bounds.
    Parameter values can later be changed in place within their bounds. */
module Inputs {
  import opened Wrappers
  import opened Records

  /** The two concrete input lists: `ParameterList` and
      `DecisionVariableList`. */
  datatype InputKind = Parameters | DecisionVariables

  /** The attributes of one declared input; an absent key is `None`. */
  datatype InputSpec = InputSpec(
    index: Option<int>,
    bounds: Option<(real, real)>,
    value: Option<real>,
    init: Option<real>)

  /** The inputs dictionary: the name lists under their list keys, and the
      attribute dictionary of each input name. */
  datatype InputsDict = InputsDict(
    lists: map<string, seq<string>>,
    specs: map<string, InputSpec>)

  /** Index-ordered contents of the three arrays. */
  datatype Slots = Slots(names: seq<string>, values: seq<real>, bounds: seq<(real, real)>)

  /** The key under which each kind lists its names. */
  function ListKey(kind: InputKind): string
  {
    match kind
    case Parameters => "parameters"
    case DecisionVariables => "decision variables"
  }

  /** The attribute each kind reads its value from: `value` for parameters,
      `init` for decision variables. */
  function ValueOf(kind: InputKind, spec: InputSpec): (r: Option<real>)
    ensures kind == Parameters ==> r == spec.value
    ensures kind == DecisionVariables ==> r == spec.init
  {
    match kind
    case Parameters => spec.value
    case DecisionVariables => spec.init
  }

  /** Names are stored in a fixed-width text array of 30 characters, which
      keeps only the first 30 characters of a longer name. */
  const NameWidth: nat := 30

  function StoredName(name: string): (r: string)
    ensures |r| <= NameWidth
    ensures |name| <= NameWidth ==> r == name
    ensures r == name[..|r|]
  {
    if |name| <= NameWidth then name else name[..NameWidth]
  }

  predicate Distinct<T(==)>(s: seq<T>)
  {
    forall i, j :: 0 <= i < j < |s| ==> s[i] != s[j]
  }

  // ---------------------------------------------------------------------------
  // _enumerate_names

  /** `_enumerate_names`: each name mapped to its position in the list; for a
      repeated name the last position wins. */
  function EnumerateNames(names: seq<string>): (r: map<string, nat>)
    ensures r.Keys == set k | 0 <= k < |names| :: names[k]
    ensures forall name :: name in r ==> r[name] < |names| && names[r[name]] == name
    ensures forall name :: name in r ==> forall k :: r[name] < k < |names| ==> names[k] != name
    decreases |names|
  {
    if names == [] then map[]
    else
      var front := names[..|names| - 1];
      var r := EnumerateNames(front)[names[|names| - 1] := |names| - 1];
      assert forall k :: 0 <= k < |front| ==> names[k] == front[k];
      r
  }

  /** With distinct names, every name maps back to its own position. */
  lemma EnumerateDistinct(names: seq<string>)
    requires Distinct(names)
    ensures forall k :: 0 <= k < |names| ==> EnumerateNames(names)[names[k]] == k
  {
    forall k | 0 <= k < |names| ensures EnumerateNames(names)[names[k]] == k {
      assert names[k] in EnumerateNames(names);
    }
  }

  // ---------------------------------------------------------------------------
  // _parse_input_dictionary

  /** numpy's integer indexing of an array of length `n`: negative indices
      count from the end; anything outside `-n .. n-1` is an IndexError. */
  function ResolveIndex(index: int, n: nat): (r: Result<nat, Error>)
    ensures r.Success? <==> -(n as int) <= index < n
    ensures r.Success? ==> r.value < n && (r.value == index || r.value == index + n)
    ensures r.Failure? ==> r.error == IndexError
  {
    if 0 <= index < n then Success(index)
    else if -(n as int) <= index < 0 then Success(index + n)
    else Failure(IndexError)
  }

  /** The declared index of every name, in list order; a name without an
      attribute dictionary or without an `index` key is a KeyError. */
  function IndicesOf(d: InputsDict, names: seq<string>): (r: Result<seq<int>, Error>)
    ensures r.Success? <==> forall k :: 0 <= k < |names| ==> names[k] in d.specs && d.specs[names[k]].index.Some?
    ensures r.Success? ==> |r.value| == |names|
    ensures r.Success? ==> forall k :: 0 <= k < |names| ==> d.specs[names[k]].index == Some(r.value[k])
    ensures r.Failure? ==> r.error == KeyError
    decreases |names|
  {
    if names == [] then Success([])
    else
      var front := names[..|names| - 1];
      var last := names[|names| - 1];
      assert forall k :: 0 <= k < |front| ==> names[k] == front[k];
      match IndicesOf(d, front)
      case Failure(e) => Failure(e)
      case Success(prefix) =>
        if last !in d.specs || d.specs[last].index.None? then Failure(KeyError)
        else Success(prefix + [d.specs[last].index.value])
  }

  /** The zero-filled arrays: empty names, zero values, zero bounds. */
  function ZeroSlots(n: nat): (s: Slots)
    ensures |s.names| == n && |s.values| == n && |s.bounds| == n
    ensures forall j :: 0 <= j < n ==> s.names[j] == "" && s.values[j] == 0.0 && s.bounds[j] == (0.0, 0.0)
  {
    Slots(seq(n, _ => ""), seq(n, _ => 0.0), seq(n, _ => (0.0, 0.0)))
  }

  /** One pass of the placement loop: read the value (KeyError when
      missing), store it at the resolved index (IndexError), read and store
      the bounds (KeyError), store the name. */
  function Place(kind: InputKind, s: Slots, name: string, spec: InputSpec, index: int): (r: Result<Slots, Error>)
    requires |s.names| == |s.values| == |s.bounds|
    ensures r.Success? ==> |r.value.names| == |r.value.values| == |r.value.bounds| == |s.names|
  {
    var n := |s.names|;
    match ValueOf(kind, spec)
    case None => Failure(KeyError)
    case Some(value) =>
      match ResolveIndex(index, n)
      case Failure(e) => Failure(e)
      case Success(j) =>
        match spec.bounds
        case None => Failure(KeyError)
        case Some(b) => Success(Slots(s.names[j := StoredName(name)], s.values[j := value], s.bounds[j := b]))
  }

  /** The arrays after placing each name at its declared index in turn,
      starting from zero-filled arrays of length `n`, or the error of the
      first name that fails. */
  function FillSlots(kind: InputKind, d: InputsDict, names: seq<string>, indices: seq<int>, n: nat)
    : (r: Result<Slots, Error>)
    requires |names| == |indices|
    requires forall k :: 0 <= k < |names| ==> names[k] in d.specs
    ensures r.Success? ==> |r.value.names| == n && |r.value.values| == n && |r.value.bounds| == n
    decreases |names|
  {
    if names == [] then Success(ZeroSlots(n))
    else
      var m := |names| - 1;
      match FillSlots(kind, d, names[..m], indices[..m], n)
      case Failure(e) => Failure(e)
      case Success(s) => Place(kind, s, names[m], d.specs[names[m]], indices[m])
  }

  /** `_parse_input_dictionary` as a function of the dictionary: the name
      list (KeyError when its key is missing), the indices of all names,
      then the placement. */
  function Parse(kind: InputKind, d: InputsDict): (r: Result<Slots, Error>)
    ensures r.Success? ==> ListKey(kind) in d.lists
    ensures r.Success? ==> |r.value.names| == |d.lists[ListKey(kind)]|
    ensures r.Success? ==> |r.value.values| == |r.value.names| && |r.value.bounds| == |r.value.names|
    ensures ListKey(kind) !in d.lists ==> r == Failure(KeyError)
  {
    if ListKey(kind) !in d.lists then Failure(KeyError)
    else
      var names := d.lists[ListKey(kind)];
      match IndicesOf(d, names)
      case Failure(e) => Failure(e)
      case Success(indices) => FillSlots(kind, d, names, indices, |names|)
  }

  /** Once a prefix of the names fails, the whole list fails with the same
      error. */
  lemma {:induction false} FillSlotsFailurePersists(kind: InputKind, d: InputsDict, names: seq<string>,
                                                    indices: seq<int>, n: nat, k: nat)
    requires |names| == |indices| && k <= |names|
    requires forall i :: 0 <= i < |names| ==> names[i] in d.specs
    requires FillSlots(kind, d, names[..k], indices[..k], n).Failure?
    ensures FillSlots(kind, d, names, indices, n) == FillSlots(kind, d, names[..k], indices[..k], n)
    decreases |names|
  {
    if k < |names| {
      var m := |names| - 1;
      assert names[..m][..k] == names[..k] && indices[..m][..k] == indices[..k];
      FillSlotsFailurePersists(kind, d, names[..m], indices[..m], n, k);
    } else {
      assert names[..k] == names && indices[..k] == indices;
    }
  }

  /** A successful placement resolved every index and found every value and
      bounds. */
  lemma {:induction false} FillSlotsResolved(kind: InputKind, d: InputsDict, names: seq<string>,
                                             indices: seq<int>, n: nat, k: nat)
    requires |names| == |indices| && k < |names|
    requires forall i :: 0 <= i < |names| ==> names[i] in d.specs
    requires FillSlots(kind, d, names, indices, n).Success?
    ensures ResolveIndex(indices[k], n).Success?
    ensures ValueOf(kind, d.specs[names[k]]).Some? && d.specs[names[k]].bounds.Some?
    decreases |names|
  {
    var m := |names| - 1;
    if k < m {
      assert names[..m][k] == names[k] && indices[..m][k] == indices[k];
      FillSlotsResolved(kind, d, names[..m], indices[..m], n, k);
    }
  }

  /** No later name is placed in the same slot as name `k`. */
  predicate LastInSlot(indices: seq<int>, n: nat, k: nat)
    requires k < |indices|
  {
    forall k' :: k < k' < |indices| ==> ResolveIndex(indices[k'], n) != ResolveIndex(indices[k], n)
  }

  /** After a successful placement, the slot of a name that no later name
      shares holds its stored name, its value and its bounds. */
  lemma {:induction false} FillSlotsLastWriter(kind: InputKind, d: InputsDict, names: seq<string>,
                                               indices: seq<int>, n: nat, k: nat)
    requires |names| == |indices| && k < |names|
    requires forall i :: 0 <= i < |names| ==> names[i] in d.specs
    requires FillSlots(kind, d, names, indices, n).Success?
    requires LastInSlot(indices, n, k)
    ensures ResolveIndex(indices[k], n).Success?
    ensures ValueOf(kind, d.specs[names[k]]).Some? && d.specs[names[k]].bounds.Some?
    ensures var j := ResolveIndex(indices[k], n).value;
            var s := FillSlots(kind, d, names, indices, n).value;
            && s.names[j] == StoredName(names[k])
            && s.values[j] == ValueOf(kind, d.specs[names[k]]).value
            && s.bounds[j] == d.specs[names[k]].bounds.value
    decreases |names|
  {
    FillSlotsResolved(kind, d, names, indices, n, k);
    var m := |names| - 1;
    if k < m {
      var front, frontIndices := names[..m], indices[..m];
      assert front[k] == names[k] && frontIndices[k] == indices[k];
      assert LastInSlot(frontIndices, n, k) by {
        forall k' | k < k' < m ensures ResolveIndex(frontIndices[k'], n) != ResolveIndex(frontIndices[k], n) {
          assert frontIndices[k'] == indices[k'];
        }
      }
      FillSlotsLastWriter(kind, d, front, frontIndices, n, k);
      assert ResolveIndex(indices[m], n) != ResolveIndex(indices[k], n);
    }
  }

  /** After a successful placement, a slot that no name targets keeps its
      zeros. */
  lemma {:induction false} FillSlotsUntouched(kind: InputKind, d: InputsDict, names: seq<string>,
                                              indices: seq<int>, n: nat, j: nat)
    requires |names| == |indices| && j < n
    requires forall i :: 0 <= i < |names| ==> names[i] in d.specs
    requires FillSlots(kind, d, names, indices, n).Success?
    requires forall i :: 0 <= i < |indices| ==> ResolveIndex(indices[i], n) != Success(j)
    ensures var s := FillSlots(kind, d, names, indices, n).value;
            s.names[j] == "" && s.values[j] == 0.0 && s.bounds[j] == (0.0, 0.0)
    decreases |names|
  {
    if names != [] {
      var m := |names| - 1;
      assert forall i :: 0 <= i < m ==> indices[..m][i] == indices[i];
      FillSlotsUntouched(kind, d, names[..m], indices[..m], n, j);
    }
  }

  /** The distinct elements of a sequence. */
  function Elements(s: seq<int>): set<int>
  {
    set x | x in s
  }

  lemma {:induction false} DistinctCardinality(s: seq<int>)
    requires Distinct(s)
    ensures |Elements(s)| == |s|
  {
    if s != [] {
      var m := |s| - 1;
      DistinctCardinality(s[..m]);
      assert Elements(s) == Elements(s[..m]) + {s[m]} by {
        assert s == s[..m] + [s[m]];
      }
      assert s[m] !in Elements(s[..m]);
    }
  }

  /** `n` distinct indices drawn from `0 .. n-1` cover all of them. */
  lemma DistinctIndicesCover(indices: seq<int>, n: nat)
    requires |indices| == n && Distinct(indices)
    requires forall k :: 0 <= k < n ==> 0 <= indices[k] < n
    ensures forall j :: 0 <= j < n ==> j in indices
  {
    var range := seq(n, i => i);
    DistinctCardinality(indices);
    DistinctCardinality(range);
    assert Elements(indices) <= Elements(range) by {
      forall x | x in Elements(indices) ensures x in Elements(range) {
        assert range[x] == x;
      }
    }
    assert |Elements(range) - Elements(indices)| == 0;
    forall j | 0 <= j < n ensures j in indices {
      assert range[j] == j;
      assert j in Elements(range);
    }
  }

  /** Placement succeeds when every index is in range and every input has
      its value and bounds. */
  lemma {:induction false} FillSucceeds(kind: InputKind, d: InputsDict, names: seq<string>, indices: seq<int>, n: nat)
    requires |names| == |indices|
    requires forall k :: 0 <= k < |names| ==> names[k] in d.specs
    requires forall k :: 0 <= k < |names| ==> ValueOf(kind, d.specs[names[k]]).Some? && d.specs[names[k]].bounds.Some?
    requires forall k :: 0 <= k < |indices| ==> 0 <= indices[k] < n
    ensures FillSlots(kind, d, names, indices, n).Success?
    decreases |names|
  {
    if names != [] {
      var m := |names| - 1;
      FillSucceeds(kind, d, names[..m], indices[..m], n);
    }
  }

  /** The declared indices are a permutation of `0 .. |indices|-1`. */
  predicate IsPermutation(indices: seq<int>)
  {
    Distinct(indices) && forall k :: 0 <= k < |indices| ==> 0 <= indices[k] < |indices|
  }

  /** When the declared indices are a permutation and every input has its
      value and bounds, placement succeeds and the slot at each name's
      declared index holds that name's stored name, value and bounds. */
  lemma PermutationPlacesEachName(kind: InputKind, d: InputsDict, names: seq<string>, indices: seq<int>)
    requires |names| == |indices|
    requires forall k :: 0 <= k < |names| ==> names[k] in d.specs
    requires forall k :: 0 <= k < |names| ==> ValueOf(kind, d.specs[names[k]]).Some? && d.specs[names[k]].bounds.Some?
    requires IsPermutation(indices)
    ensures FillSlots(kind, d, names, indices, |names|).Success?
    ensures var s := FillSlots(kind, d, names, indices, |names|).value;
            forall k :: 0 <= k < |names| ==>
              && s.names[indices[k]] == StoredName(names[k])
              && s.values[indices[k]] == ValueOf(kind, d.specs[names[k]]).value
              && s.bounds[indices[k]] == d.specs[names[k]].bounds.value
  {
    var n := |names|;
    FillSucceeds(kind, d, names, indices, n);
    forall k | 0 <= k < n
      ensures var s := FillSlots(kind, d, names, indices, n).value;
              && s.names[indices[k]] == StoredName(names[k])
              && s.values[indices[k]] == ValueOf(kind, d.specs[names[k]]).value
              && s.bounds[indices[k]] == d.specs[names[k]].bounds.value
    {
      assert LastInSlot(indices, n, k) by {
        forall k' | k < k' < n ensures ResolveIndex(indices[k'], n) != ResolveIndex(indices[k], n) {
          assert ResolveIndex(indices[k'], n) == Success(indices[k']);
        }
      }
      FillSlotsLastWriter(kind, d, names, indices, n, k);
    }
  }

  /** The stored form of each name, in list order. */
  function StoredNames(names: seq<string>): (r: seq<string>)
    ensures |r| == |names| && forall k :: 0 <= k < |names| ==> r[k] == StoredName(names[k])
  {
    seq(|names|, k requires 0 <= k < |names| => StoredName(names[k]))
  }

  /** With a permutation of indices every slot is filled by an input name. */
  lemma PermutationFillsEverySlot(kind: InputKind, d: InputsDict, names: seq<string>, indices: seq<int>)
    requires |names| == |indices|
    requires forall k :: 0 <= k < |names| ==> names[k] in d.specs
    requires forall k :: 0 <= k < |names| ==> ValueOf(kind, d.specs[names[k]]).Some? && d.specs[names[k]].bounds.Some?
    requires IsPermutation(indices)
    ensures FillSlots(kind, d, names, indices, |names|).Success?
    ensures forall j :: 0 <= j < |names| ==>
              FillSlots(kind, d, names, indices, |names|).value.names[j] in StoredNames(names)
  {
    var n := |names|;
    PermutationPlacesEachName(kind, d, names, indices);
    DistinctIndicesCover(indices, n);
    var s := FillSlots(kind, d, names, indices, n).value;
    forall j | 0 <= j < n ensures s.names[j] in StoredNames(names) {
      assert j in indices;
      var k :| 0 <= k < n && indices[k] == j;
      assert s.names[j] == StoredNames(names)[k];
    }
  }

  /** With a permutation of indices, distinct stored names give distinct
      slot names. */
  lemma PermutationKeepsNamesDistinct(kind: InputKind, d: InputsDict, names: seq<string>, indices: seq<int>)
    requires |names| == |indices|
    requires forall k :: 0 <= k < |names| ==> names[k] in d.specs
    requires forall k :: 0 <= k < |names| ==> ValueOf(kind, d.specs[names[k]]).Some? && d.specs[names[k]].bounds.Some?
    requires IsPermutation(indices)
    requires Distinct(StoredNames(names))
    ensures FillSlots(kind, d, names, indices, |names|).Success?
    ensures Distinct(FillSlots(kind, d, names, indices, |names|).value.names)
  {
    PermutationPlacesEachName(kind, d, names, indices);
    PermutedDistinct(FillSlots(kind, d, names, indices, |names|).value.names, StoredNames(names), indices);
  }

  /** Placing distinct items at a permutation of positions gives distinct
      slots. */
  lemma PermutedDistinct(slots: seq<string>, items: seq<string>, indices: seq<int>)
    requires |slots| == |items| == |indices| && IsPermutation(indices)
    requires forall k :: 0 <= k < |indices| ==> slots[indices[k]] == items[k]
    requires Distinct(items)
    ensures Distinct(slots)
  {
    var n := |indices|;
    DistinctIndicesCover(indices, n);
    forall i, j | 0 <= i < j < n ensures slots[i] != slots[j] {
      assert i in indices && j in indices;
      var ki :| 0 <= ki < n && indices[ki] == i;
      var kj :| 0 <= kj < n && indices[kj] == j;
      assert slots[i] == items[ki] && slots[j] == items[kj];
    }
  }

  /** Placing one more name extends a successful placement by `Place`. */
  lemma FillSlotsNext(kind: InputKind, d: InputsDict, names: seq<string>, indices: seq<int>, n: nat, k: nat)
    requires |names| == |indices| && k < |names|
    requires forall i :: 0 <= i < |names| ==> names[i] in d.specs
    requires FillSlots(kind, d, names[..k], indices[..k], n).Success?
    ensures FillSlots(kind, d, names[..k + 1], indices[..k + 1], n) ==
            Place(kind, FillSlots(kind, d, names[..k], indices[..k], n).value, names[k], d.specs[names[k]], indices[k])
  {
    assert names[..k + 1][..k] == names[..k] && indices[..k + 1][..k] == indices[..k];
  }

  /** One pass of the placement loop on the arrays: the value (KeyError when
      missing) is written at the resolved index (IndexError), then the bounds
      (KeyError when missing), then the stored name. */
  method PlaceEntry(kind: InputKind, name: string, spec: InputSpec, index: int,
                    orderedNames: array<string>, newValues: array<real>, newBounds: array<(real, real)>)
    returns (failure: Option<Error>)
    requires orderedNames.Length == newValues.Length == newBounds.Length
    modifies orderedNames, newValues, newBounds
    ensures match Place(kind, old(Slots(orderedNames[..], newValues[..], newBounds[..])), name, spec, index)
            case Failure(e) => failure == Some(e)
            case Success(s) =>
              failure.None? && orderedNames[..] == s.names && newValues[..] == s.values && newBounds[..] == s.bounds
  {
    var value := ValueOf(kind, spec);
    if value.None? {
      return Some(KeyError);
    }
    var resolved := ResolveIndex(index, newValues.Length);
    if resolved.Failure? {
      return Some(resolved.error);
    }
    var j := resolved.value;
    newValues[j] := value.value;
    if spec.bounds.None? {
      return Some(KeyError);
    }
    newBounds[j] := spec.bounds.value;
    orderedNames[j] := StoredName(name);
    failure := None;
  }

  /** The placement loop of `_parse_input_dictionary`: zero-filled arrays,
      then each name's value, bounds and stored name written at its resolved
      index in turn, stopping at the first error. */
  method FillArrays(kind: InputKind, d: InputsDict, inputNames: seq<string>, indices: seq<int>)
    returns (failure: Option<Error>, orderedNames: array<string>, newValues: array<real>,
             newBounds: array<(real, real)>)
    requires |inputNames| == |indices|
    requires forall k :: 0 <= k < |inputNames| ==> inputNames[k] in d.specs
    ensures fresh(orderedNames) && fresh(newValues) && fresh(newBounds)
    ensures match FillSlots(kind, d, inputNames, indices, |inputNames|)
            case Failure(e) => failure == Some(e)
            case Success(s) =>
              failure.None? && orderedNames[..] == s.names && newValues[..] == s.values && newBounds[..] == s.bounds
  {
    var n := |inputNames|;
    newValues := new real[n](_ => 0.0);
    newBounds := new (real, real)[n](_ => (0.0, 0.0));
    orderedNames := new string[n](_ => "");
    assert inputNames[..0] == [] && indices[..0] == [];
    assert orderedNames[..] == ZeroSlots(n).names && newValues[..] == ZeroSlots(n).values;
    assert newBounds[..] == ZeroSlots(n).bounds;
    for k := 0 to n
      invariant FillSlots(kind, d, inputNames[..k], indices[..k], n) ==
                Success(Slots(orderedNames[..], newValues[..], newBounds[..]))
    {
      ghost var placed := Place(kind, Slots(orderedNames[..], newValues[..], newBounds[..]),
                                inputNames[k], d.specs[inputNames[k]], indices[k]);
      FillSlotsNext(kind, d, inputNames, indices, n, k);
      failure := PlaceEntry(kind, inputNames[k], d.specs[inputNames[k]], indices[k],
                            orderedNames, newValues, newBounds);
      if failure.Some? {
        assert placed == Failure(failure.value);
        FillSlotsFailurePersists(kind, d, inputNames, indices, n, k + 1);
        return;
      }
      assert placed == Success(Slots(orderedNames[..], newValues[..], newBounds[..]));
    }
    assert inputNames[..n] == inputNames && indices[..n] == indices;
    failure := None;
  }

  // ---------------------------------------------------------------------------
  // The input lists

  class InputList {
    const kind: InputKind
    var names: array<string>
    var values: array<real>
    var bounds: array<(real, real)>

    ghost predicate Valid()
      reads this
    {
      names.Length == values.Length == bounds.Length
    }

    constructor (kind: InputKind)
      ensures this.kind == kind && Valid()
      ensures names.Length == 0
    {
      this.kind := kind;
      names := new string[0];
      values := new real[0];
      bounds := new (real, real)[0];
    }

    /** `indices`: the positions of the current names. */
    function Indices(): (r: map<string, nat>)
      reads this, names
      ensures r.Keys == set k | 0 <= k < names.Length :: names[k]
      ensures forall name :: name in r ==> r[name] < names.Length && names[r[name]] == name
    {
      EnumerateNames(names[..])
    }

    /** `_get_index`: the position of `name`, its last one when it occurs
        more than once; an AssertionError when it is not among the names. */
    function GetIndex(name: string): (r: Result<nat, Error>)
      reads this, names
      ensures r.Success? <==> name in names[..]
      ensures r.Success? ==> r.value < names.Length && names[r.value] == name
      ensures r.Success? ==> forall k :: r.value < k < names.Length ==> names[k] != name
      ensures r.Failure? ==> r.error == AssertionError
    {
      if name in names[..] then
        assert exists k :: 0 <= k < names.Length && names[k] == name;
        Success(EnumerateNames(names[..])[name])
      else Failure(AssertionError)
    }

    /** `_parse_input_dictionary`: on success the three arrays are replaced by
        freshly filled ones; on any error nothing changes. */
    method ParseInputDictionary(d: InputsDict) returns (r: Outcome<Error>)
      requires Valid()
      modifies this
      ensures Valid()
      ensures match Parse(kind, d)
              case Failure(e) =>
                r == Fail(e) && names == old(names) && values == old(values) && bounds == old(bounds)
              case Success(s) =>
                && r == Pass && fresh(names) && fresh(values) && fresh(bounds)
                && names[..] == s.names && values[..] == s.values && bounds[..] == s.bounds
    {
      if ListKey(kind) !in d.lists {
        return Fail(KeyError);
      }
      var inputNames := d.lists[ListKey(kind)];
      var n := |inputNames|;
      var indices := IndicesOf(d, inputNames);
      if indices.Failure? {
        return Fail(indices.error);
      }
      var failure, orderedNames, newValues, newBounds := FillArrays(kind, d, inputNames, indices.value);
      if failure.Some? {
        return Fail(failure.value);
      }
      names := orderedNames;
      values := newValues;
      bounds := newBounds;
      r := Pass;
    }

    /** `get_inputs`: parses the list of this kind, reading parameter values
        from `value` and decision variable values from `init`. */
    method GetInputs(d: InputsDict) returns (r: Outcome<Error>)
      requires Valid()
      modifies this
      ensures Valid()
      ensures match Parse(kind, d)
              case Failure(e) =>
                r == Fail(e) && names == old(names) && values == old(values) && bounds == old(bounds)
              case Success(s) =>
                && r == Pass && fresh(names) && fresh(values) && fresh(bounds)
                && names[..] == s.names && values[..] == s.values && bounds[..] == s.bounds
    {
      r := ParseInputDictionary(d);
    }

    /** `ParameterList.update_value`: the value at the name's index is set
        when it lies within that index's bounds (inclusive); an unknown name
        or a value out of bounds is an AssertionError. Only that one value
        ever changes. */
    method UpdateValue(name: string, value: real) returns (r: Outcome<Error>)
      requires kind == Parameters && Valid()
      modifies values
      ensures GetIndex(name).Failure? ==> r == Fail(AssertionError) && values[..] == old(values[..])
      ensures GetIndex(name).Success? ==>
                var i := GetIndex(name).value;
                if bounds[i].0 <= value <= bounds[i].1 then
                  r == Pass && values[..] == old(values[..])[i := value]
                else
                  r == Fail(AssertionError) && values[..] == old(values[..])
    {
      var index := GetIndex(name);
      if index.Failure? {
        return Fail(index.error);
      }
      var i := index.value;
      if !(bounds[i].0 <= value <= bounds[i].1) {
        return Fail(AssertionError);
      }
      values[i] := value;
      r := Pass;
    }
  }

  /** `InputFactory.getelement`: a parameter list for `parameters`, a
      decision variable list for `decision_variables`, and a ValueError for
      any other type name. */
  function ElementKind(inputType: string): (r: Result<InputKind, Error>)
    ensures r == Success(Parameters) <==> inputType == "parameters"
    ensures r == Success(DecisionVariables) <==> inputType == "decision_variables"
    ensures r.Failure? ==> r.error == ValueError
  {
    if inputType == "parameters" then Success(Parameters)
    else if inputType == "decision_variables" then Success(DecisionVariables)
    else Failure(ValueError)
  }

  method GetElement(inputType: string) returns (r: Result<InputList, Error>)
    ensures r.Success? <==> ElementKind(inputType).Success?
    ensures r.Success? ==> fresh(r.value) && r.value.kind == ElementKind(inputType).value &&
                           r.value.Valid() && r.value.names.Length == 0
    ensures r.Failure? ==> r.error == ValueError
  {
    var kind := ElementKind(inputType);
    if kind.Failure? {
      return Failure(kind.error);
    }
    var list := new InputList(kind.value);
    r := Success(list);
  }

  /** After parsing distinct names of at most 30 characters whose declared
      indices are a permutation, each name's index is its declared index. */
  lemma ParsedNameIndex(kind: InputKind, d: InputsDict)
    requires ListKey(kind) in d.lists
    requires var names := d.lists[ListKey(kind)];
             && Distinct(names)
             && (forall k :: 0 <= k < |names| ==> |names[k]| <= NameWidth)
             && IndicesOf(d, names).Success?
             && (forall k :: 0 <= k < |names| ==> ValueOf(kind, d.specs[names[k]]).Some? && d.specs[names[k]].bounds.Some?)
             && IsPermutation(IndicesOf(d, names).value)
    ensures Parse(kind, d).Success?
    ensures var names := d.lists[ListKey(kind)];
            forall k :: 0 <= k < |names| ==>
              names[k] in Parse(kind, d).value.names &&
              EnumerateNames(Parse(kind, d).value.names)[names[k]] == IndicesOf(d, names).value[k]
  {
    var names := d.lists[ListKey(kind)];
    var indices := IndicesOf(d, names).value;
    var n := |names|;
    assert StoredNames(names) == names;
    PermutationPlacesEachName(kind, d, names, indices);
    PermutationKeepsNamesDistinct(kind, d, names, indices);
    var s := Parse(kind, d).value;
    EnumerateDistinct(s.names);
    forall k | 0 <= k < n
      ensures names[k] in s.names && EnumerateNames(s.names)[names[k]] == indices[k]
    {
      assert s.names[indices[k]] == names[k];
    }
  }
}
