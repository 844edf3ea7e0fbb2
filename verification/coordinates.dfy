/** Coordinates of a dimension (src/smif/metadata/coordinates.py): a named,
    non-empty list of elements, given either as plain identifiers or as
    records with a `name` field, kept as a parallel pair of an id list and a
    record list. */
module Metadata {
  import opened Wrappers
  import opened Records

  /** A coordinate element: a string or numeric identifier, or a record
      (a dict keyed by field name). */
  datatype Item = Str(s: string) | Num(n: int) | Dict(fields: map<string, Item>)

  /** The record form of a plain identifier: `{'name': id}`. */
  function Record(id: Item): (r: Item)
    ensures r.Dict? && r.fields.Keys == {"name"} && r.fields["name"] == id
  {
    Dict(map["name" := id])
  }

  /** Every record is a dict with a `name` field, and the ids are those
      names, in order. */
  ghost predicate Parallel(ids: seq<Item>, elements: seq<Item>)
  {
    && |ids| == |elements|
    && forall i :: 0 <= i < |elements| ==>
         elements[i].Dict? && "name" in elements[i].fields && ids[i] == elements[i].fields["name"]
  }

  /** `[e['name'] for e in elements]`: the first element that is not a
      dict fails with a TypeError, the first dict without a `name` with a
      KeyError. */
  function NamesOf(elements: seq<Item>): (r: Result<seq<Item>, Error>)
    ensures r.Success? <==> forall i :: 0 <= i < |elements| ==> elements[i].Dict? && "name" in elements[i].fields
    ensures r.Success? ==> Parallel(r.value, elements)
    ensures r.Failure? ==> r.error == TypeError || r.error == KeyError
    decreases |elements|
  {
    if elements == [] then Success([])
    else
      var e := elements[0];
      assert forall i :: 0 < i < |elements| ==> elements[i] == elements[1..][i - 1];
      if !e.Dict? then Failure(TypeError)
      else if "name" !in e.fields then Failure(KeyError)
      else
        match NamesOf(elements[1..])
        case Failure(err) => Failure(err)
        case Success(rest) => Success([e.fields["name"]] + rest)
  }

  /** `_set_elements` as a function of the given elements: the ids and the
      records to store. Empty elements are a ValueError. When the first
      element is a record it must have a `name` (KeyError) and every element
      must be a named record; the records are kept as given. Otherwise the
      elements are the ids and each is wrapped into a record. */
  function DeriveElements(elements: seq<Item>): (r: Result<(seq<Item>, seq<Item>), Error>)
    ensures elements == [] ==> r == Failure(ValueError)
    ensures elements != [] && elements[0].Dict? && "name" !in elements[0].fields ==> r == Failure(KeyError)
    ensures r.Success? ==> Parallel(r.value.0, r.value.1) && |r.value.1| == |elements| > 0
    ensures r.Success? && elements[0].Dict? ==> r.value.1 == elements
    ensures r.Success? && !elements[0].Dict? ==>
              r.value.0 == elements && forall i :: 0 <= i < |elements| ==> r.value.1[i] == Record(elements[i])
    ensures r.Success? <==>
              elements != [] &&
              (elements[0].Dict? ==> forall i :: 0 <= i < |elements| ==> elements[i].Dict? && "name" in elements[i].fields)
    ensures r.Failure? ==> r.error in {ValueError, KeyError, TypeError}
  {
    if elements == [] then Failure(ValueError)
    else if elements[0].Dict? then
      if "name" !in elements[0].fields then Failure(KeyError)
      else
        match NamesOf(elements)
        case Failure(e) => Failure(e)
        case Success(ids) => Success((ids, elements))
    else
      Success((elements, seq(|elements|, i requires 0 <= i < |elements| => Record(elements[i]))))
  }

  /** The stored records are a normal form: deriving again from them keeps
      the same ids and records. */
  lemma DeriveIdempotent(elements: seq<Item>)
    requires DeriveElements(elements).Success?
    ensures DeriveElements(DeriveElements(elements).value.1) == DeriveElements(elements)
  {
    var (ids, records) := DeriveElements(elements).value;
    var again := NamesOf(records).value;
    assert again == ids by {
      assert |again| == |ids|;
      forall i | 0 <= i < |ids| ensures again[i] == ids[i] {
      }
    }
  }

  /** Giving plain identifiers and giving their `{'name': id}` records lead
      to the same ids and records. */
  lemma PlainAndRecordFormsAgree(ids: seq<Item>)
    requires ids != [] && !ids[0].Dict?
    ensures DeriveElements(ids).Success?
    ensures var records := DeriveElements(ids).value.1;
            DeriveElements(records) == DeriveElements(ids)
  {
    DeriveIdempotent(ids);
  }

  class Coordinates {
    var name: string
    var ids: seq<Item>
    var elements: seq<Item>

    ghost predicate Valid()
      reads this
    {
      elements != [] && Parallel(ids, elements)
    }

    /** `__init__` for elements that pass `_set_elements`. */
    constructor (name: string, elements: seq<Item>)
      requires DeriveElements(elements).Success?
      ensures this.name == name
      ensures (this.ids, this.elements) == DeriveElements(elements).value
      ensures Valid()
    {
      this.name := name;
      this.ids := DeriveElements(elements).value.0;
      this.elements := DeriveElements(elements).value.1;
    }

    /** `dim`: an alias for the name. */
    function Dim(): (d: string)
      reads this
      ensures d == name
    {
      name
    }

    /** The `dim` setter: renames the coordinates and nothing else. */
    method SetDim(dim: string)
      modifies this
      ensures Dim() == dim
      ensures ids == old(ids) && elements == old(elements)
    {
      name := dim;
    }

    /** `__eq__`: same name and same records; ids are not compared. */
    predicate Equals(other: Coordinates)
      reads this, other
    {
      name == other.name && elements == other.elements
    }
  }

  /** Equal coordinates also have equal ids, because the records determine
      the ids; and equality is an equivalence. */
  lemma EqualCoordinatesHaveEqualIds(a: Coordinates, b: Coordinates, c: Coordinates)
    requires a.Valid() && b.Valid()
    ensures a.Equals(b) ==> a.ids == b.ids
    ensures a.Equals(a)
    ensures a.Equals(b) ==> b.Equals(a)
    ensures a.Equals(b) && b.Equals(c) ==> a.Equals(c)
  {
    if a.Equals(b) {
      assert |a.ids| == |b.ids|;
      forall i | 0 <= i < |a.ids| ensures a.ids[i] == b.ids[i] {
      }
    }
  }

  /** `Coordinates(name, elements)`: the constructed coordinates, or the
      error `_set_elements` raises. */
  method NewCoordinates(name: string, elements: seq<Item>) returns (r: Result<Coordinates, Error>)
    ensures r.Failure? <==> DeriveElements(elements).Failure?
    ensures r.Failure? ==> r.error == DeriveElements(elements).error
    ensures r.Success? ==>
              fresh(r.value) && r.value.Valid() && r.value.name == name &&
              (r.value.ids, r.value.elements) == DeriveElements(elements).value
  {
    var derived := DeriveElements(elements);
    if derived.Failure? {
      return Failure(derived.error);
    }
    var c := new Coordinates(name, elements);
    r := Success(c);
  }
}
