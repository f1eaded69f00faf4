/**
 * The bulk action of the search page (lines 475-583): the chosen ids are removed
 * or restored one by one, and the messages of the ids that came back with an error
 * are collected. The object events themselves are outside this model: `handler`
 * stands for them and maps the event, the id and the response's error state before
 * the event to the error state after it.
 */
module BulkAction {
  import opened PhpValues
  import opened PhpCompare
  import opened Stage

  /** The part of the response the loop reads: `isError()` and `getMessage()`. */
  datatype Reply = Reply(isError: bool, message: string)

  type Handler = (string, Value, Reply) -> Reply

  datatype BulkOutcome =
    | Rejected(message: string)
    | Completed(errors: seq<string>)

  const ActionKey: Key := Name("bulk-action")

  /** The `switch ($action)` of lines 516-526, whose cases compare loosely. */
  function SwitchAction(action: Value): (r: Option<string>)
    ensures r == if action == Str("remove") || action == Bool(true) || action == Int(0) then Some("remove")
                 else if action == Str("restore") then Some("restore")
                 else None
  {
    LooseEqualsWord(action, "remove");
    LooseEqualsWord(action, "restore");
    if LooseEquals(action, "remove") then Some("remove")
    else if LooseEquals(action, "restore") then Some("restore")
    else None
  }

  /** The response's error state after the event has run for each of `ids` in turn. */
  function ReplyAfter(handler: Handler, event: string, ids: seq<Value>, r0: Reply): Reply
    decreases |ids|
  {
    if ids == [] then r0
    else handler(event, ids[|ids| - 1], ReplyAfter(handler, event, ids[..|ids| - 1], r0))
  }

  /** `$errors` after the loop has handled `ids`: one message per id after whose event the response is in error. */
  function Errors(handler: Handler, event: string, ids: seq<Value>, r0: Reply): seq<string>
    decreases |ids|
  {
    if ids == [] then []
    else
      var r := ReplyAfter(handler, event, ids, r0);
      Errors(handler, event, ids[..|ids| - 1], r0) + (if r.isError then [r.message] else [])
  }

  /**
   * The route's processing step. `reply0` is the response's error state on entry,
   * `reply` the state on exit.
   */
  method RunBulkAction(req: Request, primary: Key, handler: Handler, reply0: Reply)
    returns (outcome: BulkOutcome, reply: Reply)
    requires req.Valid()
    modifies req
    ensures req.Valid()
    ensures var ids := old(req.GetStage(primary));
      !Truthy(ids) ==>
        && outcome == Rejected("No IDs chosen")
        && reply == Reply(true, "No IDs chosen")
        && req.stage == old(req.stage)
    ensures var ids := old(req.GetStage(primary));
      Truthy(ids) && !ids.Arr? ==>
        outcome == Completed([]) && reply == reply0 && req.stage == old(req.stage)
    ensures var ids := old(req.GetStage(primary)); var action := old(req.GetStage(ActionKey));
      ids.Arr? && |ids.entries| > 0 && SwitchAction(action).None? ==>
        && outcome == Rejected("No valid action chosen")
        && reply == Reply(true, "No valid action chosen")
        && req.stage == Put(old(req.stage), primary, ids.entries[0].1)
    ensures var ids := old(req.GetStage(primary)); var action := old(req.GetStage(ActionKey));
      ids.Arr? && |ids.entries| > 0 && SwitchAction(action).Some? ==>
        && outcome == Completed(Errors(handler, SwitchAction(action).value, ValuesOf(ids.entries), reply0))
        && reply == ReplyAfter(handler, SwitchAction(action).value, ValuesOf(ids.entries), reply0)
        && req.stage == Put(old(req.stage), primary, ids.entries[|ids.entries| - 1].1)
  {
    var action := req.GetStage(ActionKey);
    var idsValue := req.GetStage(primary);
    if !Truthy(idsValue) {
      return Rejected("No IDs chosen"), Reply(true, "No IDs chosen");
    }
    if !idsValue.Arr? {
      // `foreach` over a scalar only warns and runs no iteration
      return Completed([]), reply0;
    }
    WellFormedLookup(req.stage, primary);
    outcome, reply := ProcessIds(req, primary, handler, SwitchAction(action), ValuesOf(idsValue.entries), reply0);
  }

  /**
   * The `foreach ($ids as $id)` loop (lines 511-544): stage the id, then run the chosen
   * event, or give up at once when no action was chosen.
   */
  method ProcessIds(req: Request, primary: Key, handler: Handler, choice: Option<string>, ids: seq<Value>, reply0: Reply)
    returns (outcome: BulkOutcome, reply: Reply)
    requires req.Valid()
    requires |ids| > 0 && forall i :: 0 <= i < |ids| ==> WellFormed(ids[i])
    modifies req
    ensures req.Valid()
    ensures choice.None? ==>
      && outcome == Rejected("No valid action chosen")
      && reply == Reply(true, "No valid action chosen")
      && req.stage == Put(old(req.stage), primary, ids[0])
    ensures choice.Some? ==>
      && outcome == Completed(Errors(handler, choice.value, ids, reply0))
      && reply == ReplyAfter(handler, choice.value, ids, reply0)
      && req.stage == Put(old(req.stage), primary, ids[|ids| - 1])
  {
    ghost var stage0 := req.stage;
    var errors: seq<string> := [];
    reply := reply0;
    var i := 0;
    while i < |ids|
      invariant 0 <= i <= |ids|
      invariant req.Valid()
      invariant i == 0 ==> req.stage == stage0
      invariant i > 0 ==> req.stage == Put(stage0, primary, ids[i - 1])
      invariant i > 0 ==> choice.Some?
      invariant choice.Some? ==>
        && reply == ReplyAfter(handler, choice.value, ids[..i], reply0)
        && errors == Errors(handler, choice.value, ids[..i], reply0)
    {
      req.SetStage(primary, ids[i]);
      if i > 0 {
        PutPut(stage0, primary, ids[i - 1], ids[i]);
      }
      match choice
      case None =>
        return Rejected("No valid action chosen"), Reply(true, "No valid action chosen");
      case Some(event) =>
        reply := handler(event, ids[i], reply);
        assert ids[..i + 1][..i] == ids[..i];
        if reply.isError {
          errors := errors + [reply.message];
        }
      i := i + 1;
    }
    assert ids[..i] == ids;
    outcome := Completed(errors);
  }

  /** The number of ids whose event left the response in error. */
  function FailedCount(handler: Handler, event: string, ids: seq<Value>, r0: Reply): nat
    decreases |ids|
  {
    if ids == [] then 0
    else
      var failed := if ReplyAfter(handler, event, ids, r0).isError then 1 else 0;
      FailedCount(handler, event, ids[..|ids| - 1], r0) + failed
  }

  /** There is one message per id that left the response in error, so never more than ids. */
  lemma {:induction false} ErrorsCount(handler: Handler, event: string, ids: seq<Value>, r0: Reply)
    ensures |Errors(handler, event, ids, r0)| == FailedCount(handler, event, ids, r0)
    ensures FailedCount(handler, event, ids, r0) <= |ids|
    decreases |ids|
  {
    if ids != [] {
      ErrorsCount(handler, event, ids[..|ids| - 1], r0);
    }
  }

  /**
   * An event that decides the error state afresh for every id (it sets or clears the
   * error whatever the state before it).
   */
  ghost predicate Resets(handler: Handler, event: string)
  {
    forall id, r1: Reply, r2: Reply :: handler(event, id, r1) == handler(event, id, r2)
  }

  /** The messages of the ids whose own event fails, in id order. */
  function OwnFailures(handler: Handler, event: string, ids: seq<Value>): seq<string>
    decreases |ids|
  {
    if ids == [] then []
    else
      var r := handler(event, ids[|ids| - 1], Reply(false, ""));
      OwnFailures(handler, event, ids[..|ids| - 1]) + (if r.isError then [r.message] else [])
  }

  /** With an event that resets the error, `$errors` holds exactly one message per failing id, in order. */
  lemma {:induction false} ErrorsOfResettingEvent(handler: Handler, event: string, ids: seq<Value>, r0: Reply)
    requires Resets(handler, event)
    ensures Errors(handler, event, ids, r0) == OwnFailures(handler, event, ids)
    decreases |ids|
  {
    if ids != [] {
      ErrorsOfResettingEvent(handler, event, ids[..|ids| - 1], r0);
      var last := ids[|ids| - 1];
      assert ReplyAfter(handler, event, ids, r0)
        == handler(event, last, ReplyAfter(handler, event, ids[..|ids| - 1], r0))
        == handler(event, last, Reply(false, ""));
    }
  }

  /**
   * An event that only ever sets the error never clears it again: once the response is
   * in error, every later id adds a message, whether or not its own event failed.
   */
  ghost predicate NeverClears(handler: Handler, event: string)
  {
    forall id, r: Reply :: r.isError ==> handler(event, id, r).isError
  }

  lemma {:induction false} StickyError(handler: Handler, event: string, ids: seq<Value>, r0: Reply)
    requires NeverClears(handler, event) && r0.isError
    ensures ReplyAfter(handler, event, ids, r0).isError
    ensures |Errors(handler, event, ids, r0)| == |ids|
    decreases |ids|
  {
    if ids != [] {
      StickyError(handler, event, ids[..|ids| - 1], r0);
    }
  }

  /** All ids succeed exactly when the error list is empty. */
  lemma {:induction false} NoErrorsIffAllSucceed(handler: Handler, event: string, ids: seq<Value>, r0: Reply)
    ensures Errors(handler, event, ids, r0) == [] <==>
      forall n :: 0 < n <= |ids| ==> !ReplyAfter(handler, event, ids[..n], r0).isError
    decreases |ids|
  {
    if ids != [] {
      var init := ids[..|ids| - 1];
      NoErrorsIffAllSucceed(handler, event, init, r0);
      assert ids[..|ids|] == ids;
      forall n | 0 < n <= |init| ensures ids[..n] == init[..n] { }
      if Errors(handler, event, ids, r0) != [] {
        if Errors(handler, event, init, r0) != [] {
          var n :| 0 < n <= |init| && ReplyAfter(handler, event, init[..n], r0).isError;
          assert ids[..n] == init[..n];
        }
      }
    }
  }
}
