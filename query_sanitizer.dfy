/**
 * The filter/order sanitizers of the search page and of the export page. Both walk a
 * copy of the `filter` (or `order`) array held in the stage and delete, in place, every
 * entry their policy rejects; they never add an entry or change a value.
 */
module QuerySanitizer {
  import opened Sequences
  import opened PhpValues
  import opened PhpCompare
  import opened Stage

  const FilterKey: Key := Name("filter")
  const OrderKey: Key := Name("order")
  const RangeKey: Key := Name("range")
  const RelationKey: Key := Name("relation")

  type Policy = ((Key, Value)) -> bool

  // ----- key policies -----

  predicate IsWordChar(c: char)
  {
    'a' <= c <= 'z' || 'A' <= c <= 'Z' || '0' <= c <= '9' || c == '_'
  }

  /** What `/^[a-zA-Z0-9_]+$/` is meant to accept: one or more letters, digits or underscores. */
  predicate IsIdentifier(t: string)
  {
    |t| > 0 && forall i :: 0 <= i < |t| ==> IsWordChar(t[i])
  }

  /**
   * What `preg_match('/^[a-zA-Z0-9_]+$/', $t)` accepts as written: without the D
   * modifier, PCRE's `$` also matches just before a final newline.
   */
  predicate PregMatchesIdentifier(t: string)
  {
    IsIdentifier(t) || (|t| > 1 && t[|t| - 1] == '\n' && IsIdentifier(t[..|t| - 1]))
  }

  /** Search page, filters: an identifier key and a value of non-zero length. */
  predicate SearchFilterKept(e: (Key, Value))
  {
    IsIdentifier(KeyText(e.0)) && StrLen(e.1) > 0
  }

  /** Search page, order: an identifier key, whatever the direction. */
  predicate SearchOrderKept(e: (Key, Value))
  {
    IsIdentifier(KeyText(e.0))
  }

  /** Export page: the key is one of the allowed field names, compared strictly (the corrected check). */
  predicate WhitelistKept(allowed: seq<string>, e: (Key, Value))
  {
    KeyText(e.0) in allowed
  }

  function WhitelistPolicy(allowed: seq<string>): Policy
  {
    e => WhitelistKept(allowed, e)
  }

  // ----- the in-place deletion loop -----

  /** The stage once the array under `field` has lost the entries `keep` rejects; unchanged when `field` holds no array. */
  function Sanitized(stage: Entries, field: Key, keep: Policy): Entries
  {
    match Lookup(stage, field)
    case Arr(e) => Put(stage, field, Arr(Filter(e, keep)))
    case _ => stage
  }

  /** `if (is_array($request->getStage($field))) foreach (... as $key => $value) if (!keep) removeStage($field, $key)` */
  method RemoveRejected(req: Request, field: Key, keep: Policy)
    requires req.Valid()
    modifies req
    ensures req.Valid()
    ensures req.stage == Sanitized(old(req.stage), field, keep)
  {
    var held := req.GetStage(field);
    if held.Arr? {
      ghost var stage0 := req.stage;
      WellFormedLookup(stage0, field);
      var entries := held.entries;
      PutLookup(stage0, field);
      LoopEnds(entries, keep);
      var i := 0;
      while i < |entries|
        invariant 0 <= i <= |entries|
        invariant req.Valid()
        invariant req.stage == Put(stage0, field, Arr(Filter(entries[..i], keep) + entries[i..]))
      {
        SanitizeEntry(req, field, keep, stage0, entries, i);
        i := i + 1;
      }
    }
  }

  /** The loop's array before the first pass is the original, after the last one the filtered array. */
  lemma LoopEnds(entries: Entries, keep: Policy)
    ensures Filter(entries[..0], keep) + entries[0..] == entries
    ensures Filter(entries[..|entries|], keep) + entries[|entries|..] == Filter(entries, keep)
  {
    assert entries[..|entries|] == entries && entries[|entries|..] == [];
  }

  /** One pass of the deletion loop: the i-th entry is removed from the stage when the policy rejects it. */
  method SanitizeEntry(req: Request, field: Key, keep: Policy, ghost stage0: Entries, entries: Entries, i: int)
    requires req.Valid() && UniqueKeys(entries) && 0 <= i < |entries|
    requires req.stage == Put(stage0, field, Arr(Filter(entries[..i], keep) + entries[i..]))
    modifies req
    ensures req.Valid()
    ensures req.stage == Put(stage0, field, Arr(Filter(entries[..i + 1], keep) + entries[i + 1..]))
  {
    ghost var cur := Filter(entries[..i], keep) + entries[i..];
    ghost var next := Filter(entries[..i + 1], keep) + entries[i + 1..];
    SanitizeStep(entries, i, keep);
    if !keep(entries[i]) {
      assert req.GetStage(field) == Arr(cur) by {
        LookupPut(stage0, field, Arr(cur), field);
      }
      req.RemoveStageEntry(field, entries[i].0);
      PutPut(stage0, field, Arr(cur), Arr(next));
    }
  }

  lemma {:induction false} PutLookup(a: Entries, k: Key)
    requires Lookup(a, k) != Null
    ensures Put(a, k, Lookup(a, k)) == a
  {
    if a[0].0 != k {
      PutLookup(a[1..], k);
    }
  }

  /** Filtering one more entry of a prefix. */
  lemma FilterPrefixStep(entries: Entries, i: int, keep: Policy)
    requires 0 <= i < |entries|
    ensures Filter(entries[..i + 1], keep) == Filter(entries[..i], keep) + (if keep(entries[i]) then [entries[i]] else [])
  {
    assert entries[..i + 1] == entries[..i] + [entries[i]];
    FilterConcat(entries[..i], [entries[i]], keep);
    assert Filter([entries[i]], keep) == if keep(entries[i]) then [entries[i]] else [];
  }

  /** With unique keys, no entry other than the i-th carries the i-th key. */
  lemma KeyOnlyAt(entries: Entries, i: int, keep: Policy)
    requires UniqueKeys(entries) && 0 <= i < |entries|
    ensures entries[i].0 !in KeysOf(Filter(entries[..i], keep))
    ensures entries[i].0 !in KeysOf(entries[i + 1..])
  {
    var k := entries[i].0;
    var done := Filter(entries[..i], keep);
    forall m | 0 <= m < |done| ensures KeysOf(done)[m] != k {
      FilterMember(entries[..i], keep, done[m]);
      var j :| 0 <= j < i && entries[..i][j] == done[m];
    }
    var rest := entries[i + 1..];
    forall m | 0 <= m < |rest| ensures KeysOf(rest)[m] != k {
      assert rest[m] == entries[i + 1 + m];
    }
  }

  /** One iteration of the deletion loop: a kept entry stays, a rejected one is removed by its key. */
  lemma SanitizeStep(entries: Entries, i: int, keep: Policy)
    requires UniqueKeys(entries) && 0 <= i < |entries|
    ensures keep(entries[i]) ==>
      Filter(entries[..i + 1], keep) + entries[i + 1..] == Filter(entries[..i], keep) + entries[i..]
    ensures !keep(entries[i]) ==>
      Filter(entries[..i + 1], keep) + entries[i + 1..] == RemoveKey(Filter(entries[..i], keep) + entries[i..], entries[i].0)
  {
    var done := Filter(entries[..i], keep);
    var rest := entries[i + 1..];
    FilterPrefixStep(entries, i, keep);
    assert entries[i..] == [entries[i]] + rest;
    if !keep(entries[i]) {
      KeyOnlyAt(entries, i, keep);
      RejectStep(done, entries[i], rest);
    } else {
      assert done + [entries[i]] + rest == done + ([entries[i]] + rest);
    }
  }

  /** Removing the key of an entry found nowhere else leaves the other entries. */
  lemma RejectStep(done: Entries, e: (Key, Value), rest: Entries)
    requires e.0 !in KeysOf(done) && e.0 !in KeysOf(rest)
    ensures RemoveKey(done + ([e] + rest), e.0) == done + rest
  {
    RemoveKeyAbsent(done, e.0);
    RemoveKeyAbsent(rest, e.0);
    RemoveKeyConcat(done, [e] + rest, e.0);
    RemoveKeyConcat([e], rest, e.0);
    assert RemoveKey([e], e.0) == [];
  }

  /** What Sanitized does to the stage: the array under `field` is filtered, every other key is untouched. */
  lemma {:induction false} SanitizedLookup(stage: Entries, field: Key, keep: Policy, q: Key)
    ensures Lookup(Sanitized(stage, field, keep), q) ==
      if q == field && Lookup(stage, field).Arr? then Arr(Filter(Lookup(stage, field).entries, keep)) else Lookup(stage, q)
  {
    if Lookup(stage, field).Arr? {
      LookupPut(stage, field, Arr(Filter(Lookup(stage, field).entries, keep)), q);
    }
  }

  // ----- search page (lines 46-71) -----

  /** The stage the search page hands to the search event. */
  function SearchQuery(stage: Entries): Entries
  {
    var ranged := if Lookup(stage, RangeKey) != Null then stage else Put(stage, RangeKey, Int(50));
    Sanitized(Sanitized(ranged, FilterKey, SearchFilterKept), OrderKey, SearchOrderKept)
  }

  /** Default range 50, then the pattern-based filter and order sanitizers. */
  method PrepareSearchQuery(req: Request)
    requires req.Valid()
    modifies req
    ensures req.Valid()
    ensures req.stage == SearchQuery(old(req.stage))
  {
    if !req.HasStage(RangeKey) {
      req.SetStage(RangeKey, Int(50));
    }
    RemoveRejected(req, FilterKey, SearchFilterKept);
    RemoveRejected(req, OrderKey, SearchOrderKept);
  }

  /** Lookups in the search query: filter and order are filtered, range defaults to 50, nothing else changes. */
  lemma SearchQueryLookup(stage: Entries, q: Key)
    ensures var r := Lookup(SearchQuery(stage), q);
      && (q == RangeKey ==> r == if Lookup(stage, RangeKey) != Null then Lookup(stage, RangeKey) else Int(50))
      && (q == FilterKey ==> r == if Lookup(stage, FilterKey).Arr? then Arr(Filter(Lookup(stage, FilterKey).entries, SearchFilterKept)) else Lookup(stage, FilterKey))
      && (q == OrderKey ==> r == if Lookup(stage, OrderKey).Arr? then Arr(Filter(Lookup(stage, OrderKey).entries, SearchOrderKept)) else Lookup(stage, OrderKey))
      && (q != RangeKey && q != FilterKey && q != OrderKey ==> r == Lookup(stage, q))
  {
    var ranged := if Lookup(stage, RangeKey) != Null then stage else Put(stage, RangeKey, Int(50));
    if Lookup(stage, RangeKey) == Null {
      LookupPut(stage, RangeKey, Int(50), q);
      LookupPut(stage, RangeKey, Int(50), FilterKey);
      LookupPut(stage, RangeKey, Int(50), OrderKey);
    }
    SanitizedLookup(ranged, FilterKey, SearchFilterKept, q);
    SanitizedLookup(ranged, FilterKey, SearchFilterKept, OrderKey);
    SanitizedLookup(Sanitized(ranged, FilterKey, SearchFilterKept), OrderKey, SearchOrderKept, q);
  }

  /**
   * Search page: a filter entry survives iff its key is an identifier and its value
   * has non-zero length; survivors keep their values and relative order.
   */
  lemma SearchFiltersKept(stage: Entries, k: Key, v: Value)
    requires Lookup(stage, FilterKey).Arr?
    ensures Lookup(SearchQuery(stage), FilterKey).Arr?
    ensures var before := Lookup(stage, FilterKey).entries;
            var after := Lookup(SearchQuery(stage), FilterKey).entries;
      && ((k, v) in after <==> (k, v) in before && IsIdentifier(KeyText(k)) && StrLen(v) > 0)
      && Subseq(after, before)
  {
    SearchQueryLookup(stage, FilterKey);
    FilterMember(Lookup(stage, FilterKey).entries, SearchFilterKept, (k, v));
    FilterIsSubseq(Lookup(stage, FilterKey).entries, SearchFilterKept);
  }

  /** Search page: an order entry survives iff its key is an identifier, whatever its value. */
  lemma SearchOrdersKept(stage: Entries, k: Key, v: Value)
    requires Lookup(stage, OrderKey).Arr?
    ensures Lookup(SearchQuery(stage), OrderKey).Arr?
    ensures var before := Lookup(stage, OrderKey).entries;
            var after := Lookup(SearchQuery(stage), OrderKey).entries;
      && ((k, v) in after <==> (k, v) in before && IsIdentifier(KeyText(k)))
      && Subseq(after, before)
  {
    SearchQueryLookup(stage, OrderKey);
    FilterMember(Lookup(stage, OrderKey).entries, SearchOrderKept, (k, v));
    FilterIsSubseq(Lookup(stage, OrderKey).entries, SearchOrderKept);
  }

  /** The regular expression as written lets a key with a trailing newline through. */
  lemma RegexAcceptsTrailingNewline()
    ensures PregMatchesIdentifier("id\n") && !IsIdentifier("id\n")
  {
    assert "id\n"[..2] == "id";
    assert !IsWordChar("id\n"[2]);
  }

  // ----- export page (lines 1079-1113) -----

  /** `$relation['schema']['primary']` when it is set to a string. */
  function RelationPrimary(relation: Value): Option<string>
  {
    if !relation.Arr? then None
    else
      var schema := Lookup(relation.entries, Name("schema"));
      if !schema.Arr? then None
      else
        match Lookup(schema.entries, Name("primary"))
        case Str(p) => Some(p)
        case _ => None
  }

  /** The filter whitelist: the schema's filterable names, plus the relation's primary key when set. */
  function FilterWhitelist(stage: Entries, filterable: seq<string>): seq<string>
  {
    match RelationPrimary(Lookup(stage, RelationKey))
    case Some(p) => filterable + [p]
    case None => filterable
  }

  /** The stage the export page hands to the search event. */
  function ExportQuery(stage: Entries, filterable: seq<string>, sortable: seq<string>): Entries
  {
    var filtered := Sanitized(stage, FilterKey, WhitelistPolicy(FilterWhitelist(stage, filterable)));
    Put(Sanitized(filtered, OrderKey, WhitelistPolicy(sortable)), RangeKey, Int(0))
  }

  /** Whitelist-based filter and order sanitizers, then `range` 0 (export everything). */
  method PrepareExportQuery(req: Request, filterable: seq<string>, sortable: seq<string>)
    requires req.Valid()
    modifies req
    ensures req.Valid()
    ensures req.stage == ExportQuery(old(req.stage), filterable, sortable)
  {
    var relation := Null;
    if req.HasStage(RelationKey) {
      relation := req.GetStage(RelationKey);
    }
    var allowed := filterable;
    var primary := RelationPrimary(relation);
    if primary.Some? {
      allowed := allowed + [primary.value];
    }
    RemoveRejected(req, FilterKey, WhitelistPolicy(allowed));
    RemoveRejected(req, OrderKey, WhitelistPolicy(sortable));
    req.SetStage(RangeKey, Int(0));
  }

  /**
   * Export page: a filter entry survives iff its key is a filterable name or the
   * relation's primary key; an order entry iff its key is a sortable name. No entry
   * is added, values and order are kept, and range becomes 0.
   */
  lemma ExportFiltersKept(stage: Entries, filterable: seq<string>, sortable: seq<string>, k: Key, v: Value)
    requires Lookup(stage, FilterKey).Arr?
    ensures Lookup(ExportQuery(stage, filterable, sortable), FilterKey).Arr?
    ensures var before := Lookup(stage, FilterKey).entries;
            var after := Lookup(ExportQuery(stage, filterable, sortable), FilterKey).entries;
            var primary := RelationPrimary(Lookup(stage, RelationKey));
      && ((k, v) in after <==>
            (k, v) in before && (KeyText(k) in filterable || (primary.Some? && KeyText(k) == primary.value)))
      && Subseq(after, before)
  {
    ExportQueryLookup(stage, filterable, sortable, FilterKey);
    var allowed := FilterWhitelist(stage, filterable);
    FilterMember(Lookup(stage, FilterKey).entries, WhitelistPolicy(allowed), (k, v));
    FilterIsSubseq(Lookup(stage, FilterKey).entries, WhitelistPolicy(allowed));
  }

  lemma ExportOrdersKept(stage: Entries, filterable: seq<string>, sortable: seq<string>, k: Key, v: Value)
    requires Lookup(stage, OrderKey).Arr?
    ensures Lookup(ExportQuery(stage, filterable, sortable), OrderKey).Arr?
    ensures var before := Lookup(stage, OrderKey).entries;
            var after := Lookup(ExportQuery(stage, filterable, sortable), OrderKey).entries;
      && ((k, v) in after <==> (k, v) in before && KeyText(k) in sortable)
      && Subseq(after, before)
  {
    ExportQueryLookup(stage, filterable, sortable, OrderKey);
    FilterMember(Lookup(stage, OrderKey).entries, WhitelistPolicy(sortable), (k, v));
    FilterIsSubseq(Lookup(stage, OrderKey).entries, WhitelistPolicy(sortable));
  }

  lemma ExportQueryLookup(stage: Entries, filterable: seq<string>, sortable: seq<string>, q: Key)
    ensures var r := Lookup(ExportQuery(stage, filterable, sortable), q);
      && (q == RangeKey ==> r == Int(0))
      && (q == FilterKey ==> r == if Lookup(stage, FilterKey).Arr?
            then Arr(Filter(Lookup(stage, FilterKey).entries, WhitelistPolicy(FilterWhitelist(stage, filterable))))
            else Lookup(stage, FilterKey))
      && (q == OrderKey ==> r == if Lookup(stage, OrderKey).Arr?
            then Arr(Filter(Lookup(stage, OrderKey).entries, WhitelistPolicy(sortable)))
            else Lookup(stage, OrderKey))
      && (q != RangeKey && q != FilterKey && q != OrderKey ==> r == Lookup(stage, q))
  {
    var filtered := Sanitized(stage, FilterKey, WhitelistPolicy(FilterWhitelist(stage, filterable)));
    SanitizedLookup(stage, FilterKey, WhitelistPolicy(FilterWhitelist(stage, filterable)), q);
    SanitizedLookup(stage, FilterKey, WhitelistPolicy(FilterWhitelist(stage, filterable)), OrderKey);
    SanitizedLookup(filtered, OrderKey, WhitelistPolicy(sortable), q);
    LookupPut(Sanitized(filtered, OrderKey, WhitelistPolicy(sortable)), RangeKey, Int(0), q);
  }

  /**
   * `in_array($key, $filterable)` and `in_array($key, $sortable)` as written compare
   * loosely: on PHP 7 the integer key 0 (from `filter[0]=...` or `order[0]=...`)
   * equals every name that does not start with a digit, so it passes any such
   * whitelist, while the intended whitelist rejects it.
   */
  lemma LooseWhitelistAdmitsKeyZero(allowed: seq<string>, v: Value)
    requires |allowed| > 0 && |allowed[0]| > 0 && 'a' <= allowed[0][0] <= 'z'
    requires "0" !in allowed
    ensures InArrayLoose(KeyValue(Idx(0)), allowed)
    ensures !WhitelistKept(allowed, (Idx(0), v))
  {
    WordIsNotNumeric(allowed[0]);
    assert LooseEquals(Int(0), allowed[0]);
    assert KeyText(Idx(0)) == "0";
  }
}
