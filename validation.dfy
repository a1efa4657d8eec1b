/** What both plan validators share: the verdict they return, the check on
    a step's `action`, and the in-order scan that stops at the first
    defective step. */
module Validation {
  import opened PyValues

  /** The diagnostic of `validate_plan`'s `(bool, message)` pair. The step
      (and the offending action) are kept as values; their textual rendering
      is not modelled. */
  datatype Message =
    | OkMessage                                 // "ok"
    | StepNotDict(step: Value)                  // "Step is not a dict: <step>"
    | MissingAction(step: Value)                // "Missing 'action' key in step: <step>"
    | InvalidAction(action: Value, step: Value) // "Invalid action '<action>' in step: <step>"

  /** A validator either returns its pair or raises. */
  datatype Validation =
    | Returned(accepted: bool, message: Message)
    | Raised(error: PyError)

  const Accepted := Returned(true, OkMessage)

  /** A step the validators let through: a dict whose `action` is one of `allowed`. */
  predicate WellFormed(allowed: set<string>, step: Value) {
    step.VDict? && "action" in step.fields && step.fields["action"].VStr? && step.fields["action"].s in allowed
  }

  /** The checks `not action` and `action not in ALLOWED_ACTIONS` on the
      `action` of a dict step; `None` when both pass. */
  function ActionCheck(allowed: set<string>, step: Value): (r: Option<Validation>)
    requires step.VDict? && "" !in allowed
    ensures r.None? <==> WellFormed(allowed, step)
    ensures r != Some(Accepted)
    ensures "action" !in step.fields ==> r == Some(Returned(false, MissingAction(step)))
    ensures "action" in step.fields && step.fields["action"].VStr? && step.fields["action"].s !in allowed ==>
              r == Some(Returned(false, if step.fields["action"].s == "" then MissingAction(step)
                                        else InvalidAction(step.fields["action"], step)))
    ensures "action" in step.fields && !step.fields["action"].VStr? ==>
              r == Some(if !Truthy(step.fields["action"]) then Returned(false, MissingAction(step))
                        else if !Hashable(step.fields["action"]) then Raised(TypeError)
                        else Returned(false, InvalidAction(step.fields["action"], step)))
  {
    var action := Get(step.fields, "action", VNone);
    if !Truthy(action) then Some(Returned(false, MissingAction(step)))
    else if !Hashable(action) then Some(Raised(TypeError))
    else if action.VStr? && action.s in allowed then None
    else Some(Returned(false, InvalidAction(action, step)))
  }

  /** Index of the first step the check rejects, or |plan| if none. */
  function FirstDefect(check: Value -> Option<Validation>, plan: seq<Value>): (k: nat)
    ensures k <= |plan|
    ensures forall j :: 0 <= j < k ==> check(plan[j]).None?
    ensures k < |plan| ==> check(plan[k]).Some?
  {
    if plan == [] then 0
    else if check(plan[0]).Some? then 0
    else 1 + FirstDefect(check, plan[1..])
  }

  /** The `for step in plan` loop of `validate_plan`, with its early return:
      the verdict is that of the first step the check rejects, and
      acceptance when there is none. */
  function Scan(check: Value -> Option<Validation>, plan: seq<Value>): (r: Validation)
    ensures var k := FirstDefect(check, plan);
            r == if k < |plan| then check(plan[k]).value else Accepted
  {
    if plan == [] then Accepted
    else match check(plan[0])
      case Some(v) => v
      case None =>
        assert forall j :: 0 <= j < |plan| - 1 ==> plan[1..][j] == plan[j + 1];
        Scan(check, plan[1..])
  }

  /** A check that never answers with acceptance accepts exactly the plans
      none of whose steps it rejects. */
  lemma ScanAcceptsIffAllPass(check: Value -> Option<Validation>, plan: seq<Value>)
    requires forall v :: check(v) != Some(Accepted)
    ensures Scan(check, plan) == Accepted <==> forall j :: 0 <= j < |plan| ==> check(plan[j]).None?
  {
    var k := FirstDefect(check, plan);
    if k < |plan| {
      assert check(plan[k]) != Some(Accepted);
    }
  }

  /** Short-circuit: once a defective step is met, no later step is examined. */
  lemma {:induction false} ScanStopsAtDefect(check: Value -> Option<Validation>, p: seq<Value>, q: seq<Value>)
    requires exists j :: 0 <= j < |p| && check(p[j]).Some?
    ensures Scan(check, p + q) == Scan(check, p)
  {
    assert p != [];
    assert (p + q)[0] == p[0];
    if check(p[0]).None? {
      var j :| 0 <= j < |p| && check(p[j]).Some?;
      assert j > 0 && check(p[1..][j - 1]).Some?;
      assert (p + q)[1..] == p[1..] + q;
      ScanStopsAtDefect(check, p[1..], q);
    }
  }
}
