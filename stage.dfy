/**
 * The request's "stage": the per-request parameter bag that every route reads and
 * rewrites in place (`getStage`, `hasStage`, `setStage`, `removeStage`).
 * The framework's Request class is not part of this model; these methods give it
 * the array semantics the controller relies on.
 */
module Stage {
  import opened PhpValues

  class Request {
    var stage: Entries

    /** The stage is a PHP array: unique keys, nested arrays well formed. */
    ghost predicate Valid()
      reads this
    {
      UniqueKeys(stage) && forall i :: 0 <= i < |stage| ==> WellFormed(stage[i].1)
    }

    constructor (initial: Entries)
      requires UniqueKeys(initial) && forall i :: 0 <= i < |initial| ==> WellFormed(initial[i].1)
      ensures Valid() && stage == initial
    {
      stage := initial;
    }

    /** `getStage($name)`: null when absent. */
    function GetStage(name: Key): Value
      reads this
    {
      Lookup(stage, name)
    }

    /** `hasStage($name)`: the key is set to something other than null (isset). */
    predicate HasStage(name: Key)
      reads this
    {
      Lookup(stage, name) != Null
    }

    /** `setStage($name, $value)` */
    method SetStage(name: Key, v: Value)
      requires Valid() && WellFormed(v)
      modifies this
      ensures Valid()
      ensures stage == Put(old(stage), name, v)
    {
      PutUnique(stage, name, v);
      PutWellFormed(stage, name, v);
      stage := Put(stage, name, v);
    }

    /** `removeStage($name)` */
    method RemoveStage(name: Key)
      requires Valid()
      modifies this
      ensures Valid()
      ensures stage == RemoveKey(old(stage), name)
    {
      assert WellFormed(Arr(stage));
      RemoveKeyWellFormed(stage, name);
      stage := RemoveKey(stage, name);
    }

    /** `removeStage($name, $key)`: unset one entry of the array held under `$name`. */
    method RemoveStageEntry(name: Key, key: Key)
      requires Valid()
      modifies this
      ensures Valid()
      ensures stage == match Lookup(old(stage), name)
                      case Arr(e) => Put(old(stage), name, Arr(RemoveKey(e, key)))
                      case _ => old(stage)
    {
      var held := Lookup(stage, name);
      if held.Arr? {
        WellFormedLookup(stage, name);
        RemoveKeyWellFormed(held.entries, key);
        SetStage(name, Arr(RemoveKey(held.entries, key)));
      }
    }
  }
}
