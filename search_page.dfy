/**
 * The schema data the search page hands to its template (lines 94-120): the
 * filterable field list without the schema's active field, the relations that may
 * be filtered on, and the names of the relations that exist.
 */
module SearchPage {
  import opened Sequences
  import opened PhpValues
  import opened Flattener

  /** A schema relation as the search page reads it: its name and its `many` cardinality. */
  datatype Relation = Relation(name: string, many: int)

  /** The test of line 99, `$filter === $active`, negated: the entries kept. */
  function NotActive(active: Value): string -> bool
  {
    f => Str(f) != active
  }

  /** The filterable list as the template receives it. */
  function ActiveDropped(filterable: seq<string>, active: Value): seq<string>
  {
    if Truthy(active) then Filter(filterable, NotActive(active)) else filterable
  }

  /**
   * Lines 96-106: when the schema names an active field, every filterable entry
   * identical to it is unset; `array_values` then renumbers what is left, which a
   * sequence does by construction.
   */
  method DropActiveField(filterable: seq<string>, active: Value) returns (kept: seq<string>)
    ensures kept == ActiveDropped(filterable, active)
  {
    if !Truthy(active) {
      return filterable;
    }
    kept := [];
    var i := 0;
    while i < |filterable|
      invariant 0 <= i <= |filterable|
      invariant kept == Filter(filterable[..i], NotActive(active))
    {
      FilterConcat(filterable[..i], [filterable[i]], NotActive(active));
      assert filterable[..i + 1] == filterable[..i] + [filterable[i]];
      if Str(filterable[i]) != active {
        kept := kept + [filterable[i]];
      }
      i := i + 1;
    }
    assert filterable[..i] == filterable;
  }

  /**
   * With an active field, the list keeps exactly the entries that differ from it, in
   * their original order; without one it is untouched.
   */
  lemma ActiveDroppedSpec(filterable: seq<string>, active: Value, x: string)
    ensures !Truthy(active) ==> ActiveDropped(filterable, active) == filterable
    ensures Truthy(active) ==>
      && (x in ActiveDropped(filterable, active) <==> x in filterable && Str(x) != active)
      && Subseq(ActiveDropped(filterable, active), filterable)
  {
    FilterMember(filterable, NotActive(active), x);
    FilterIsSubseq(filterable, NotActive(active));
  }

  /** The test of line 110. */
  predicate ManyToOne(r: Relation)
  {
    r.many < 2
  }

  /** Lines 108-113: the relations whose `many` is below 2, in schema order. */
  method FilterableRelations(relations: seq<Relation>) returns (kept: seq<Relation>)
    ensures kept == Filter(relations, ManyToOne)
  {
    kept := [];
    var i := 0;
    while i < |relations|
      invariant 0 <= i <= |relations|
      invariant kept == Filter(relations[..i], ManyToOne)
    {
      FilterConcat(relations[..i], [relations[i]], ManyToOne);
      assert relations[..i + 1] == relations[..i] + [relations[i]];
      if relations[i].many < 2 {
        kept := kept + [relations[i]];
      }
      i := i + 1;
    }
    assert relations[..i] == relations;
  }

  /** A relation is offered as a filter exactly when its `many` is below 2; order is kept. */
  lemma FilterableRelationsSpec(relations: seq<Relation>, r: Relation)
    ensures r in Filter(relations, ManyToOne) <==> r in relations && r.many < 2
    ensures Subseq(Filter(relations, ManyToOne), relations)
  {
    FilterMember(relations, ManyToOne, r);
    FilterIsSubseq(relations, ManyToOne);
  }

  /** Lines 117-120: the `name` column of every row the schema search returned, in order. */
  method ValidRelations(rows: seq<Row>) returns (names: seq<Value>)
    ensures |names| == |rows|
    ensures forall i :: 0 <= i < |rows| ==> names[i] == Lookup(rows[i], Name("name"))
  {
    names := [];
    var i := 0;
    while i < |rows|
      invariant 0 <= i <= |rows|
      invariant |names| == i
      invariant forall m :: 0 <= m < i ==> names[m] == Lookup(rows[m], Name("name"))
    {
      names := names + [Lookup(rows[i], Name("name"))];
      i := i + 1;
    }
  }
}
