/**
 * Field preprocessing on the create and update routes: before the object event
 * fires, the stage is walked once per schema field. Fields of a type the user may
 * not set are removed, and fields sent with a falsy value are set to null.
 */
module FieldPrep {
  import opened PhpValues
  import opened Stage

  /** One schema field: its name (the key in `getFields()`), its form type and its default. */
  datatype Field = Field(name: Key, fieldType: string, default: Value)

  /**
   * The types never taken from the request. None of them looks numeric, so the loose
   * `in_array` of the source agrees with plain membership here.
   */
  const InvalidTypes: seq<string> := ["none", "active", "created", "updated"]

  predicate Settable(f: Field)
  {
    f.fieldType !in InvalidTypes
  }

  predicate IsTrimmed(c: char)
  {
    c == ' ' || c == '\t' || c == '\n' || c == '\r' || c == '\0' || c == '\U{000B}'
  }

  function TrimLeft(s: string): (r: string)
    ensures |r| <= |s|
  {
    if s != [] && IsTrimmed(s[0]) then TrimLeft(s[1..]) else s
  }

  function TrimRight(s: string): (r: string)
    ensures |r| <= |s|
  {
    if s != [] && IsTrimmed(s[|s| - 1]) then TrimRight(s[..|s| - 1]) else s
  }

  /**
   * PHP's `trim` with its default character list: a slice of the input from which only
   * strippable characters were cut at either end, and which neither starts nor ends
   * with one.
   */
  function Trim(s: string): (r: string)
    ensures r == [] || (!IsTrimmed(r[0]) && !IsTrimmed(r[|r| - 1]))
    ensures exists i, j :: 0 <= i <= j <= |s| && r == s[i..j] && CutOnlyTrimmed(s, i, j)
  {
    TrimEnds(s);
    TrimSlice(s);
    TrimRight(TrimLeft(s))
  }

  /** Every character of `s` outside `s[i..j]` is one `trim` strips. */
  ghost predicate CutOnlyTrimmed(s: string, i: int, j: int)
  {
    forall k :: 0 <= k < |s| && (k < i || j <= k) ==> IsTrimmed(s[k])
  }

  /** The trimmed string is a slice of the input, cut only at strippable characters. */
  lemma {:induction false} TrimSlice(s: string)
    ensures exists i, j :: 0 <= i <= j <= |s| && TrimRight(TrimLeft(s)) == s[i..j] && CutOnlyTrimmed(s, i, j)
  {
    var t := TrimLeft(s);
    var r := TrimRight(t);
    TrimLeftSuffix(s);
    TrimRightPrefix(t);
    var i := |s| - |t|;
    var j := i + |r|;
    assert r == s[i..j];
    forall k | j <= k < |s| ensures IsTrimmed(s[k]) {
      assert s[k] == t[k - i];
    }
    assert CutOnlyTrimmed(s, i, j);
  }

  /** Trimming the left end keeps a suffix, and every character cut is strippable. */
  lemma {:induction false} TrimLeftSuffix(s: string)
    ensures TrimLeft(s) == s[|s| - |TrimLeft(s)|..]
    ensures forall k :: 0 <= k < |s| - |TrimLeft(s)| ==> IsTrimmed(s[k])
  {
    if s != [] && IsTrimmed(s[0]) {
      TrimLeftSuffix(s[1..]);
      forall k | 1 <= k < |s| - |TrimLeft(s)| ensures IsTrimmed(s[k]) {
        assert s[k] == s[1..][k - 1];
      }
    }
  }

  lemma {:induction false} TrimEnds(s: string)
    ensures TrimLeft(s) == [] || !IsTrimmed(TrimLeft(s)[0])
    ensures TrimRight(TrimLeft(s)) == [] || !IsTrimmed(TrimRight(TrimLeft(s))[|TrimRight(TrimLeft(s))| - 1])
    ensures TrimRight(TrimLeft(s)) == [] || !IsTrimmed(TrimRight(TrimLeft(s))[0])
  {
    TrimLeftStart(s);
    TrimRightEnd(TrimLeft(s));
    TrimRightPrefix(TrimLeft(s));
  }

  lemma {:induction false} TrimLeftStart(s: string)
    ensures TrimLeft(s) == [] || !IsTrimmed(TrimLeft(s)[0])
  {
    if s != [] && IsTrimmed(s[0]) {
      TrimLeftStart(s[1..]);
    }
  }

  lemma {:induction false} TrimRightEnd(s: string)
    ensures TrimRight(s) == [] || !IsTrimmed(TrimRight(s)[|TrimRight(s)| - 1])
  {
    if s != [] && IsTrimmed(s[|s| - 1]) {
      TrimRightEnd(s[..|s| - 1]);
    }
  }

  /**
   * Trimming the right end keeps a prefix, so the first character is kept when anything
   * is, and every character cut is strippable.
   */
  lemma {:induction false} TrimRightPrefix(s: string)
    ensures TrimRight(s) == s[..|TrimRight(s)|]
    ensures forall k :: |TrimRight(s)| <= k < |s| ==> IsTrimmed(s[k])
  {
    if s != [] && IsTrimmed(s[|s| - 1]) {
      TrimRightPrefix(s[..|s| - 1]);
      forall k | |TrimRight(s)| <= k < |s| - 1 ensures IsTrimmed(s[k]) {
        assert s[k] == s[..|s| - 1][k];
      }
    }
  }

  /** What one pass of the loop body does to the stage for field `f`. */
  function PrepareField(stage: Entries, f: Field): Entries
  {
    if !Settable(f) then RemoveKey(stage, f.name)
    else if Lookup(stage, f.name) != Null && !Truthy(Lookup(stage, f.name)) then Put(stage, f.name, Null)
    else stage
  }

  /** The stage after the loop has handled `fields` in order. */
  function PreparedStage(stage: Entries, fields: seq<Field>): Entries
    decreases |fields|
  {
    if fields == [] then stage
    else PrepareField(PreparedStage(stage, fields[..|fields| - 1]), fields[|fields| - 1])
  }

  /** Some field named `q` clears it: the field is not settable, or the value sent for it is falsy. */
  predicate Cleared(stage: Entries, fields: seq<Field>, q: Key)
  {
    exists j :: 0 <= j < |fields| && fields[j].name == q && (!Settable(fields[j]) || !Truthy(Lookup(stage, q)))
  }

  /** Some field named `q` is of a type the request may not set. */
  predicate Forbidden(fields: seq<Field>, q: Key)
  {
    exists j :: 0 <= j < |fields| && fields[j].name == q && !Settable(fields[j])
  }

  /**
   * The loop of lines 608-640 (and 742-774): remove each unsettable field, null each
   * field sent with a falsy value. The third branch, which would apply the field's
   * default, needs the very condition the second branch has just ruled out, so it is
   * never taken.
   */
  method PrepareFields(req: Request, fields: seq<Field>)
    requires req.Valid()
    modifies req
    ensures req.Valid()
    ensures req.stage == PreparedStage(old(req.stage), fields)
  {
    ghost var stage0 := req.stage;
    var i := 0;
    while i < |fields|
      invariant 0 <= i <= |fields|
      invariant req.Valid()
      invariant req.stage == PreparedStage(stage0, fields[..i])
    {
      var f := fields[i];
      assert fields[..i + 1][..i] == fields[..i];
      if f.fieldType in InvalidTypes {
        req.RemoveStage(f.name);
      } else if req.HasStage(f.name) && !Truthy(req.GetStage(f.name)) {
        req.SetStage(f.name, Null);
      } else if f.default != Null && !f.default.Arr? && Truthy(Str(Trim(Text(f.default))))
        && req.HasStage(f.name) && !Truthy(req.GetStage(f.name))
      {
        assert false;
      }
      i := i + 1;
    }
    assert fields[..|fields|] == fields;
  }

  /**
   * The update route first copies the `id` route parameter into the primary key
   * (lines 733-736), then runs the same loop.
   */
  method PrepareUpdate(req: Request, primary: Key, fields: seq<Field>)
    requires req.Valid()
    modifies req
    ensures req.Valid()
    ensures req.stage == PreparedStage(Put(old(req.stage), primary, Lookup(old(req.stage), Name("id"))), fields)
  {
    WellFormedLookup(req.stage, Name("id"));
    req.SetStage(primary, req.GetStage(Name("id")));
    PrepareFields(req, fields);
  }

  /** One field's pass, read at key `q`. */
  lemma PrepareFieldLookup(before: Entries, f: Field, q: Key)
    ensures Lookup(PrepareField(before, f), q) ==
      if q == f.name && (!Settable(f) || !Truthy(Lookup(before, q))) then Null else Lookup(before, q)
  {
    LookupRemoveKey(before, f.name, q);
    LookupPut(before, f.name, Null, q);
  }

  /** One field's pass removes the key only for an unsettable field, and adds none. */
  lemma PrepareFieldKeys(before: Entries, f: Field, q: Key)
    ensures q in KeysOf(PrepareField(before, f)) <==> q in KeysOf(before) && !(q == f.name && !Settable(f))
  {
    RemoveKeyKeys(before, f.name, q);
    if Settable(f) && Lookup(before, f.name) != Null {
      if f.name !in KeysOf(before) {
        LookupAbsent(before, f.name);
      }
      PutKeys(before, f.name, Null);
    }
  }

  /** `Cleared` over a longer field list: the shorter list's answer, or the last field. */
  lemma ClearedSnoc(stage: Entries, fields: seq<Field>, q: Key)
    requires fields != []
    ensures var f := fields[|fields| - 1];
      Cleared(stage, fields, q) <==>
        Cleared(stage, fields[..|fields| - 1], q) || (q == f.name && (!Settable(f) || !Truthy(Lookup(stage, q))))
  {
    var init := fields[..|fields| - 1];
    if Cleared(stage, init, q) {
      var j :| 0 <= j < |init| && init[j].name == q && (!Settable(init[j]) || !Truthy(Lookup(stage, q)));
      assert fields[j] == init[j];
    }
    if Cleared(stage, fields, q) {
      var j :| 0 <= j < |fields| && fields[j].name == q && (!Settable(fields[j]) || !Truthy(Lookup(stage, q)));
      if j < |init| {
        assert init[j] == fields[j];
      }
    }
  }

  /** `Forbidden` over a longer field list: the shorter list's answer, or the last field. */
  lemma ForbiddenSnoc(fields: seq<Field>, q: Key)
    requires fields != []
    ensures var f := fields[|fields| - 1];
      Forbidden(fields, q) <==> Forbidden(fields[..|fields| - 1], q) || (q == f.name && !Settable(f))
  {
    var init := fields[..|fields| - 1];
    if Forbidden(init, q) {
      var j :| 0 <= j < |init| && init[j].name == q && !Settable(init[j]);
      assert fields[j] == init[j];
    }
    if Forbidden(fields, q) {
      var j :| 0 <= j < |fields| && fields[j].name == q && !Settable(fields[j]);
      if j < |init| {
        assert init[j] == fields[j];
      }
    }
  }

  /**
   * Entry by entry: a key is read as null after preprocessing exactly when some field
   * named by it is unsettable or was sent falsy; every other key keeps its value.
   */
  lemma {:induction false} PreparedLookup(stage: Entries, fields: seq<Field>, q: Key)
    ensures Lookup(PreparedStage(stage, fields), q) ==
      if Cleared(stage, fields, q) then Null else Lookup(stage, q)
    decreases |fields|
  {
    if fields != [] {
      var init := fields[..|fields| - 1];
      var f := fields[|fields| - 1];
      PreparedLookup(stage, init, q);
      PrepareFieldLookup(PreparedStage(stage, init), f, q);
      ClearedSnoc(stage, fields, q);
    }
  }

  /** A key survives preprocessing exactly when it was there and no unsettable field names it. */
  lemma {:induction false} PreparedKeys(stage: Entries, fields: seq<Field>, q: Key)
    ensures q in KeysOf(PreparedStage(stage, fields)) <==> q in KeysOf(stage) && !Forbidden(fields, q)
    decreases |fields|
  {
    if fields != [] {
      var init := fields[..|fields| - 1];
      var f := fields[|fields| - 1];
      PreparedKeys(stage, init, q);
      PrepareFieldKeys(PreparedStage(stage, init), f, q);
      ForbiddenSnoc(fields, q);
    }
  }
}
