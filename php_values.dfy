/**
 * PHP values as the controller receives them: request parameters, schema data and
 * result rows. A PHP array is an ordered list of key/value entries; PHP turns a
 * decimal-integer string key into an integer key, so such keys are written `Idx`.
 */
module PhpValues {
  import opened Sequences

  datatype Key = Idx(n: int) | Name(s: string)

  datatype Value =
    | Null
    | Bool(b: bool)
    | Int(i: int)
    | Str(s: string)
    | Arr(entries: seq<(Key, Value)>)

  type Entries = seq<(Key, Value)>

  datatype Option<T> = None | Some(value: T)

  /** array_keys */
  function KeysOf(a: Entries): seq<Key>
  {
    seq(|a|, i requires 0 <= i < |a| => a[i].0)
  }

  /** array_values */
  function ValuesOf(a: Entries): seq<Value>
  {
    seq(|a|, i requires 0 <= i < |a| => a[i].1)
  }

  /** A key read back as a value, as array_keys hands it out. */
  function KeyValue(k: Key): Value
  {
    match k
    case Idx(n) => Int(n)
    case Name(s) => Str(s)
  }

  /** No key occurs twice: the invariant of every PHP array. */
  predicate UniqueKeys(a: Entries)
  {
    forall i, j :: 0 <= i < j < |a| ==> a[i].0 != a[j].0
  }

  /** Unique keys at every level of nesting. */
  predicate WellFormed(v: Value)
  {
    match v
    case Arr(e) => UniqueKeys(e) && forall i :: 0 <= i < |e| ==> WellFormed(e[i].1)
    case _ => true
  }

  /** `$a[$k]`, with null for a missing key (as `$request->getStage($k)` returns). */
  function Lookup(a: Entries, k: Key): Value
  {
    if a == [] then Null
    else if a[0].0 == k then a[0].1
    else Lookup(a[1..], k)
  }

  /** `$a[$k] = $v`: an existing key keeps its position, a new key goes last. */
  function Put(a: Entries, k: Key, v: Value): Entries
  {
    if a == [] then [(k, v)]
    else if a[0].0 == k then [(k, v)] + a[1..]
    else [a[0]] + Put(a[1..], k, v)
  }

  /** `unset($a[$k])` */
  function RemoveKey(a: Entries, k: Key): Entries
  {
    Filter(a, (e: (Key, Value)) => e.0 != k)
  }

  /** PHP truthiness: null, false, 0, "", "0" and the empty array are falsy. */
  predicate Truthy(v: Value)
  {
    match v
    case Null => false
    case Bool(b) => b
    case Int(i) => i != 0
    case Str(s) => s != "" && s != "0"
    case Arr(e) => |e| > 0
  }

  function DigitChar(d: int): char
    requires 0 <= d < 10
  {
    (d + '0' as int) as char
  }

  function NatText(n: nat): string
  {
    if n < 10 then [DigitChar(n)] else NatText(n / 10) + [DigitChar(n % 10)]
  }

  /** An integer as PHP prints it. */
  function DecimalText(n: int): string
  {
    if n < 0 then "-" + NatText(-n) else NatText(n)
  }

  /** A key as a string, as `preg_match` and `addChild` read it. */
  function KeyText(k: Key): string
  {
    match k
    case Idx(n) => DecimalText(n)
    case Name(s) => s
  }

  /** PHP's string conversion; an array converts to "Array" (with a notice). */
  function Text(v: Value): string
  {
    match v
    case Null => ""
    case Bool(b) => if b then "1" else ""
    case Int(i) => DecimalText(i)
    case Str(s) => s
    case Arr(_) => "Array"
  }

  /** PHP 7 `strlen`: scalars are converted to strings first; an array yields null (with a warning), which reads as 0. */
  function StrLen(v: Value): nat
  {
    if v.Arr? then 0 else |Text(v)|
  }

  /** `implode($sep, $values)` */
  function Join(sep: string, vs: seq<Value>): string
  {
    if vs == [] then ""
    else if |vs| == 1 then Text(vs[0])
    else Text(vs[0]) + sep + Join(sep, vs[1..])
  }

  // ----- lemmas about the array operations -----

  lemma {:induction false} LookupPut(a: Entries, k: Key, v: Value, q: Key)
    ensures Lookup(Put(a, k, v), q) == if q == k then v else Lookup(a, q)
  {
    if a != [] && a[0].0 != k {
      LookupPut(a[1..], k, v, q);
    }
  }

  /** With unique keys, Put at an existing key is an update at that key's index. */
  lemma {:induction false} PutAt(a: Entries, j: int, v: Value)
    requires UniqueKeys(a) && 0 <= j < |a|
    ensures Put(a, a[j].0, v) == a[j := (a[j].0, v)]
  {
    if j > 0 {
      assert a[0].0 != a[j].0;
      PutAt(a[1..], j - 1, v);
      assert a[1..][j - 1 := (a[j].0, v)] == a[j := (a[j].0, v)][1..];
    }
  }

  lemma KeysOfCons(e: (Key, Value), a: Entries)
    ensures KeysOf([e] + a) == [e.0] + KeysOf(a)
  {
  }

  lemma {:induction false} PutKeys(a: Entries, k: Key, v: Value)
    ensures KeysOf(Put(a, k, v)) == if k in KeysOf(a) then KeysOf(a) else KeysOf(a) + [k]
  {
    if a != [] {
      var tail := a[1..];
      assert a == [a[0]] + tail;
      KeysOfCons(a[0], tail);
      if a[0].0 != k {
        var put := Put(tail, k, v);
        PutKeys(tail, k, v);
        assert Put(a, k, v) == [a[0]] + put;
        KeysOfCons(a[0], put);
        assert k in KeysOf(a) <==> k in KeysOf(tail);
      } else {
        assert Put(a, k, v) == [(k, v)] + tail;
        KeysOfCons((k, v), tail);
      }
    }
  }

  lemma {:induction false} PutPut(a: Entries, k: Key, v: Value, w: Value)
    ensures Put(Put(a, k, v), k, w) == Put(a, k, w)
  {
    if a != [] && a[0].0 != k {
      PutPut(a[1..], k, v, w);
    }
  }

  /** Key uniqueness is the same as the keys forming a sequence without repeats. */
  lemma UniqueKeysByKeys(a: Entries, b: Entries)
    requires KeysOf(a) == KeysOf(b)
    ensures UniqueKeys(a) <==> UniqueKeys(b)
  {
    assert forall i :: 0 <= i < |a| ==> a[i].0 == KeysOf(a)[i] == KeysOf(b)[i] == b[i].0;
  }

  lemma {:induction false} PutUnique(a: Entries, k: Key, v: Value)
    requires UniqueKeys(a)
    ensures UniqueKeys(Put(a, k, v))
  {
    PutKeys(a, k, v);
    if k in KeysOf(a) {
      UniqueKeysByKeys(a, Put(a, k, v));
    } else {
      var p := Put(a, k, v);
      assert |p| == |a| + 1;
      forall i, j | 0 <= i < j < |p| ensures p[i].0 != p[j].0 {
        assert p[i].0 == KeysOf(p)[i] && p[j].0 == KeysOf(p)[j];
        if j == |a| {
          assert KeysOf(p)[i] == KeysOf(a)[i];
        } else {
          assert KeysOf(p)[i] == a[i].0 && KeysOf(p)[j] == a[j].0;
        }
      }
    }
  }

  lemma {:induction false} LookupAbsent(a: Entries, k: Key)
    requires k !in KeysOf(a)
    ensures Lookup(a, k) == Null
  {
    if a != [] {
      assert KeysOf(a) == [a[0].0] + KeysOf(a[1..]);
      LookupAbsent(a[1..], k);
    }
  }

  lemma {:induction false} LookupAt(a: Entries, j: int)
    requires UniqueKeys(a) && 0 <= j < |a|
    ensures Lookup(a, a[j].0) == a[j].1
  {
    if j > 0 {
      assert a[0].0 != a[j].0;
      LookupAt(a[1..], j - 1);
    }
  }

  lemma {:induction false} RemoveKeyAbsent(a: Entries, k: Key)
    requires k !in KeysOf(a)
    ensures RemoveKey(a, k) == a
  {
    forall i | 0 <= i < |a| ensures a[i].0 != k {
      assert KeysOf(a)[i] == a[i].0;
    }
    FilterAll(a, (e: (Key, Value)) => e.0 != k);
  }

  lemma RemoveKeyConcat(a: Entries, b: Entries, k: Key)
    ensures RemoveKey(a + b, k) == RemoveKey(a, k) + RemoveKey(b, k)
  {
    FilterConcat(a, b, (e: (Key, Value)) => e.0 != k);
  }

  lemma RemoveKeyMember(a: Entries, k: Key, e: (Key, Value))
    ensures e in RemoveKey(a, k) <==> e in a && e.0 != k
  {
    FilterMember(a, (e: (Key, Value)) => e.0 != k, e);
  }

  lemma {:induction false} LookupRemoveKey(a: Entries, k: Key, q: Key)
    ensures Lookup(RemoveKey(a, k), q) == if q == k then Null else Lookup(a, q)
  {
    if a != [] {
      var rest := RemoveKey(a[1..], k);
      assert RemoveKey(a, k) == (if a[0].0 != k then [a[0]] else []) + rest;
      LookupRemoveKey(a[1..], k, q);
      if a[0].0 != k {
        var r := [a[0]] + rest;
        assert r != [] && r[0] == a[0] && r[1..] == rest;
      } else {
        assert RemoveKey(a, k) == rest;
      }
    }
  }

  lemma RemoveKeyKeys(a: Entries, k: Key, q: Key)
    ensures q in KeysOf(RemoveKey(a, k)) <==> q in KeysOf(a) && q != k
  {
    if q in KeysOf(RemoveKey(a, k)) {
      var i :| 0 <= i < |RemoveKey(a, k)| && RemoveKey(a, k)[i].0 == q;
      RemoveKeyMember(a, k, RemoveKey(a, k)[i]);
      var j :| 0 <= j < |a| && a[j] == RemoveKey(a, k)[i];
      assert KeysOf(a)[j] == q;
    }
    if q in KeysOf(a) && q != k {
      var j :| 0 <= j < |a| && a[j].0 == q;
      RemoveKeyMember(a, k, a[j]);
      var i :| 0 <= i < |RemoveKey(a, k)| && RemoveKey(a, k)[i] == a[j];
      assert KeysOf(RemoveKey(a, k))[i] == q;
    }
  }

  /** An element of a sequence that is a subsequence of `b` is an element of `b`. */
  lemma {:induction false} SubseqMember<T>(a: seq<T>, b: seq<T>, x: T)
    requires Subseq(a, b) && x in a
    ensures x in b
    decreases |b|
  {
    if a[0] == b[0] {
      if x != a[0] {
        assert x in a[1..];
        SubseqMember(a[1..], b[1..], x);
      }
    } else {
      SubseqMember(a, b[1..], x);
    }
  }

  /** Deleting entries keeps keys unique and nested arrays well formed. */
  lemma {:induction false} SubseqUnique(a: Entries, b: Entries)
    requires Subseq(a, b) && UniqueKeys(b)
    ensures UniqueKeys(a)
    decreases |b|
  {
    if a != [] {
      if a[0] == b[0] {
        SubseqUnique(a[1..], b[1..]);
        forall j | 0 < j < |a| ensures a[0].0 != a[j].0 {
          assert a[j] in a[1..];
          SubseqMember(a[1..], b[1..], a[j]);
          var m :| 0 <= m < |b[1..]| && b[1..][m] == a[j];
          assert b[0].0 != b[m + 1].0;
        }
      } else {
        SubseqUnique(a, b[1..]);
      }
    }
  }

  lemma RemoveKeyWellFormed(e: Entries, k: Key)
    requires WellFormed(Arr(e))
    ensures WellFormed(Arr(RemoveKey(e, k)))
  {
    FilterKeepsWellFormed(e, (x: (Key, Value)) => x.0 != k);
  }

  lemma FilterKeepsWellFormed(e: Entries, p: ((Key, Value)) -> bool)
    requires WellFormed(Arr(e))
    ensures WellFormed(Arr(Filter(e, p)))
  {
    var f := Filter(e, p);
    FilterIsSubseq(e, p);
    SubseqUnique(f, e);
    forall i | 0 <= i < |f| ensures WellFormed(f[i].1) {
      FilterMember(e, p, f[i]);
    }
  }

  lemma WellFormedLookup(a: Entries, k: Key)
    requires forall i :: 0 <= i < |a| ==> WellFormed(a[i].1)
    ensures WellFormed(Lookup(a, k))
  {
    if a != [] && a[0].0 != k {
      WellFormedLookup(a[1..], k);
    }
  }

  lemma {:induction false} PutWellFormed(a: Entries, k: Key, v: Value)
    requires forall i :: 0 <= i < |a| ==> WellFormed(a[i].1)
    requires WellFormed(v)
    ensures forall i :: 0 <= i < |Put(a, k, v)| ==> WellFormed(Put(a, k, v)[i].1)
  {
    if a != [] && a[0].0 != k {
      PutWellFormed(a[1..], k, v);
    }
  }
}
