/** The executor of `mcp_agent.py`: plans of `click`, `read_text` and
    `wait` steps against an already opened page, with `index` selecting
    among the matches of a selector. */
module RootAgent {
  import opened PyValues
  import opened Browser
  import opened Validation
  import opened Interpreter

  const AllowedActions: set<string> := {"click", "read_text", "wait"}

  /** The bound, in milliseconds, on every selector wait. */
  const SelectorTimeoutMs: nat := 5000

  // ----- validate_plan -----

  /** One iteration of `validate_plan`: `step.get("action")` raises on a
      value that is not a dict, then the action checks apply. */
  function CheckStep(step: Value): (r: Option<Validation>)
    ensures r.None? <==> WellFormed(AllowedActions, step)
    ensures r != Some(Accepted)
    ensures !step.VDict? ==> r == Some(Raised(AttributeError))
  {
    match step
    case VDict(_) => ActionCheck(AllowedActions, step)
    case _ => Some(Raised(AttributeError))
  }

  /** `validate_plan`, which never touches the page: the plan is accepted,
      with "ok", exactly when every step is a dict whose action is
      `click`, `read_text` or `wait`; the empty plan is accepted. */
  function ValidatePlan(plan: seq<Value>): (r: Validation)
    ensures r == Accepted <==> forall j :: 0 <= j < |plan| ==> WellFormed(AllowedActions, plan[j])
    ensures plan == [] ==> r == Accepted
  {
    ScanAcceptsIffAllPass(CheckStep, plan);
    Scan(CheckStep, plan)
  }

  /** The first step whose action is missing, falsy or not allowed decides
      the verdict: "Missing 'action' key" for an absent or falsy action,
      "Invalid action" for a truthy string outside the allowed set (so a
      `goto` or `fill` step is rejected by this variant). */
  lemma ValidatePlanFirstDefect(plan: seq<Value>, k: nat)
    requires k < |plan|
    requires forall j :: 0 <= j < k ==> WellFormed(AllowedActions, plan[j])
    requires plan[k].VDict?
    requires !WellFormed(AllowedActions, plan[k])
    ensures var fields := plan[k].fields;
            ("action" !in fields || !Truthy(fields["action"]) ==>
               ValidatePlan(plan) == Returned(false, MissingAction(plan[k]))) &&
            ("action" in fields && fields["action"].VStr? && fields["action"].s != "" ==>
               ValidatePlan(plan) == Returned(false, InvalidAction(fields["action"], plan[k])))
  {
  }

  /** Short-circuit: no step after the first defective one is examined. */
  lemma ValidatePlanStopsAtDefect(p: seq<Value>, q: seq<Value>)
    requires exists j :: 0 <= j < |p| && !WellFormed(AllowedActions, p[j])
    ensures ValidatePlan(p + q) == ValidatePlan(p)
  {
    var j :| 0 <= j < |p| && !WellFormed(AllowedActions, p[j]);
    assert CheckStep(p[j]).Some?;
    ScanStopsAtDefect(CheckStep, p, q);
  }

  // ----- execute_plan: one step -----

  /** The `click` branch. */
  function ClickStep(step: Step, env: Env): (out: (StepResult, Env))
    requires "action" in step
    ensures out.0.step == step && out.1.slept == env.slept
    ensures out.0.Error? ==> out.0.reason.NotFoundAtIndex?
  {
    if "selector" !in step then (Exception(step, KeyError("selector")), env)
    else
      var selector := step["selector"];
      var index := Get(step, "index", VInt(0));
      var (waited, p1) := env.page.WaitForSelector(selector, SelectorTimeoutMs);
      if waited.Failure? then (Exception(step, waited.error), env.(page := p1))
      else
        var (elements, p2) := p1.QuerySelectorAll(selector.s);
        var inRange := LessThan(index, |elements|);
        if inRange.Failure? then (Exception(step, inRange.error), env.(page := p2))
        else if !inRange.value then (Error(step, NotFoundAtIndex(index, selector)), env.(page := p2))
        else
          var at := Subscript(index, |elements|);
          if at.Failure? then (Exception(step, at.error), env.(page := p2))
          else
            var (clicked, p3) := p2.HandleClick(elements[at.value]);
            if clicked.Failure? then (Exception(step, clicked.error), env.(page := p3))
            else (Ok(step, None), env.(page := p3))
  }

  /** The `read_text` branch: `elements[index]` is reached whenever there is
      at least one match, so an index past the matches raises IndexError. */
  function ReadTextStep(step: Step, env: Env): (out: (StepResult, Env))
    requires "action" in step
    ensures out.0.step == step && out.1.slept == env.slept
    ensures !out.0.Error?
  {
    if "selector" !in step then (Exception(step, KeyError("selector")), env)
    else
      var selector := step["selector"];
      var index := Get(step, "index", VInt(0));
      var (waited, p1) := env.page.WaitForSelector(selector, SelectorTimeoutMs);
      if waited.Failure? then (Exception(step, waited.error), env.(page := p1))
      else
        VisibleMatchIsMatched(env.page.doc, selector.s);
        var (elements, p2) := p1.QuerySelectorAll(selector.s);
        if elements == [] then (Error(step, NotFound(selector)), env.(page := p2))
        else
          var at := Subscript(index, |elements|);
          if at.Failure? then (Exception(step, at.error), env.(page := p2))
          else
            var (text, p3) := p2.HandleInnerText(elements[at.value]);
            (Ok(step, Some(text)), env.(page := p3))
  }

  /** The body of the `try` for one step: `step["action"]` raises KeyError
      when absent; an action matching no branch yields no result and changes
      nothing; every result carries its step; the only `error` is a `click`
      index past the matches. */
  function Dispatch(step: Step, env: Env): (out: (Option<StepResult>, Env))
    ensures out.0.None? <==> "action" in step && step["action"] !in {VStr("click"), VStr("read_text"), VStr("wait")}
    ensures out.0.None? ==> out.1 == env
    ensures out.0.Some? ==> out.0.value.step == step
    ensures out.0.Some? && out.0.value.Error? ==>
              "action" in step && step["action"] == VStr("click") && out.0.value.reason.NotFoundAtIndex?
  {
    if "action" !in step then (Some(Exception(step, KeyError("action"))), env)
    else if step["action"] == VStr("click") then var (r, e) := ClickStep(step, env); (Some(r), e)
    else if step["action"] == VStr("read_text") then var (r, e) := ReadTextStep(step, env); (Some(r), e)
    else if step["action"] == VStr("wait") then var (r, e) := WaitStep(step, env); (Some(r), e)
    else (None, env)
  }

  // ----- what one step does -----

  /** A missing `action` key raises KeyError before any backend call. */
  lemma MissingActionRaises(step: Step, env: Env)
    requires "action" !in step
    ensures Dispatch(step, env) == (Some(Exception(step, KeyError("action"))), env)
  {
  }

  /** A selector wait that finds no visible match raises the 5000 ms
      timeout, after which nothing else is called. */
  lemma SelectorWaitTimesOut(step: Step, env: Env, selector: string)
    requires "action" in step && step["action"] in {VStr("click"), VStr("read_text")}
    requires "selector" in step && step["selector"] == VStr(selector)
    requires !HasVisibleMatch(env.page.doc, selector)
    ensures Dispatch(step, env) ==
              (Some(Exception(step, TimeoutError(selector, SelectorTimeoutMs))),
               env.(page := env.page.Issue(WaitForSelector(VStr(selector), SelectorTimeoutMs))))
  {
  }

  /** `click` with `index` i (default 0) below the number of matches clicks
      exactly the match at position i (counted from the end when negative),
      after waiting for and querying the selector; the step is `ok` when
      that match is visible. */
  lemma ClickInRange(step: Step, env: Env, selector: string, i: int)
    requires "action" in step && step["action"] == VStr("click")
    requires "selector" in step && step["selector"] == VStr(selector)
    requires Get(step, "index", VInt(0)) == VInt(i)
    requires HasVisibleMatch(env.page.doc, selector)
    requires var n := |Matches(env.page.doc.nodes, selector)|; -n <= i < n
    ensures var m := Matches(env.page.doc.nodes, selector);
            var target := m[if i >= 0 then i else |m| + i];
            var (r, e) := Dispatch(step, env);
            var clicked := env.page.Issue(WaitForSelector(VStr(selector), SelectorTimeoutMs))
                                    .Issue(QuerySelectorAll(selector)).Issue(HandleClick(target));
            e.slept == env.slept &&
            e.page.log == env.page.log + [WaitForSelector(VStr(selector), SelectorTimeoutMs),
                                          QuerySelectorAll(selector), HandleClick(target)] &&
            (env.page.doc.nodes[target].visible ==> r == Some(Ok(step, None)) && e.page == clicked.Activate(target)) &&
            (!env.page.doc.nodes[target].visible ==> r == Some(Exception(step, ActionTimeout)) && e.page == clicked)
  {
    ClickStepReaches(step, env, selector, i);
  }

  /** With an index among the matches, the `click` branch waits, queries,
      and ends with the click on the designated match. */
  lemma ClickStepReaches(step: Step, env: Env, selector: string, i: int)
    requires "action" in step && "selector" in step && step["selector"] == VStr(selector)
    requires Get(step, "index", VInt(0)) == VInt(i)
    requires HasVisibleMatch(env.page.doc, selector)
    requires var n := |Matches(env.page.doc.nodes, selector)|; -n <= i < n
    ensures var m := Matches(env.page.doc.nodes, selector);
            var p2 := env.page.Issue(WaitForSelector(VStr(selector), SelectorTimeoutMs)).Issue(QuerySelectorAll(selector));
            var (clicked, p3) := p2.HandleClick(m[if i >= 0 then i else |m| + i]);
            ClickStep(step, env) == (if clicked.Success? then Ok(step, None) else Exception(step, clicked.error), env.(page := p3))
  {
    var m := Matches(env.page.doc.nodes, selector);
    assert LessThan(VInt(i), |m|) == Success(true);
    assert Subscript(VInt(i), |m|) == Success(if i >= 0 then i else |m| + i);
  }

  /** `click` with an `index` at or past the number of matches records one
      `error` naming the index and the selector, and clicks nothing. */
  lemma ClickPastMatchesIsError(step: Step, env: Env, selector: string, i: int)
    requires "action" in step && step["action"] == VStr("click")
    requires "selector" in step && step["selector"] == VStr(selector)
    requires Get(step, "index", VInt(0)) == VInt(i)
    requires HasVisibleMatch(env.page.doc, selector)
    requires i >= |Matches(env.page.doc.nodes, selector)|
    ensures Dispatch(step, env) ==
              (Some(Error(step, NotFoundAtIndex(VInt(i), VStr(selector)))),
               env.(page := env.page.Issue(WaitForSelector(VStr(selector), SelectorTimeoutMs))
                                    .Issue(QuerySelectorAll(selector))))
  {
  }

  /** A negative `index` below minus the number of matches passes the bound
      check and then raises IndexError at `elements[index]`. */
  lemma ClickBeforeMatchesRaises(step: Step, env: Env, selector: string, i: int)
    requires "action" in step && step["action"] == VStr("click")
    requires "selector" in step && step["selector"] == VStr(selector)
    requires Get(step, "index", VInt(0)) == VInt(i)
    requires HasVisibleMatch(env.page.doc, selector)
    requires i < -|Matches(env.page.doc.nodes, selector)|
    ensures Dispatch(step, env).0 == Some(Exception(step, IndexError))
  {
  }

  /** `read_text` with an `index` among the matches records `ok` with the
      inner text of exactly that match. */
  lemma ReadTextInRange(step: Step, env: Env, selector: string, i: int)
    requires "action" in step && step["action"] == VStr("read_text")
    requires "selector" in step && step["selector"] == VStr(selector)
    requires Get(step, "index", VInt(0)) == VInt(i)
    requires HasVisibleMatch(env.page.doc, selector)
    requires var n := |Matches(env.page.doc.nodes, selector)|; -n <= i < n
    ensures var m := Matches(env.page.doc.nodes, selector);
            var target := m[if i >= 0 then i else |m| + i];
            var (r, e) := Dispatch(step, env);
            r == Some(Ok(step, Some(env.page.doc.nodes[target].text))) &&
            e == env.(page := env.page.Issue(WaitForSelector(VStr(selector), SelectorTimeoutMs))
                                  .Issue(QuerySelectorAll(selector)).Issue(HandleInnerText(target)))
  {
    VisibleMatchIsMatched(env.page.doc, selector);
  }

  /** `read_text` with an `index` at or past the number of matches is not an
      `error`: `elements[index]` raises IndexError and the step is an
      `exception`. */
  lemma ReadTextPastMatchesRaises(step: Step, env: Env, selector: string, i: int)
    requires "action" in step && step["action"] == VStr("read_text")
    requires "selector" in step && step["selector"] == VStr(selector)
    requires Get(step, "index", VInt(0)) == VInt(i)
    requires HasVisibleMatch(env.page.doc, selector)
    requires i >= |Matches(env.page.doc.nodes, selector)|
    ensures Dispatch(step, env).0 == Some(Exception(step, IndexError))
  {
    VisibleMatchIsMatched(env.page.doc, selector);
  }

  /** `wait` sleeps `seconds` (1 when absent), makes no page call and is
      `ok`; a negative length raises ValueError. */
  lemma WaitSleeps(step: Step, env: Env)
    requires "action" in step && step["action"] == VStr("wait")
    requires AsReal(Get(step, "seconds", VInt(1))).Some?
    ensures var x := AsReal(Get(step, "seconds", VInt(1))).value;
            var (r, e) := Dispatch(step, env);
            e.page == env.page &&
            (x >= 0.0 ==> r == Some(Ok(step, None)) && e.slept == env.slept + [x]) &&
            (x < 0.0 ==> r == Some(Exception(step, ValueError)) && e.slept == env.slept)
    ensures "seconds" !in step ==> Dispatch(step, env) == (Some(Ok(step, None)), env.(slept := env.slept + [1.0]))
  {
  }

  // ----- what a run does -----

  /** The trace lists plan steps in plan order, at most one result per step. */
  lemma ExecutePlanFollowsPlan(plan: seq<Step>, env: Env)
    ensures var t := Exec(Dispatch, plan, env).0;
            |t| <= |plan| && Subsequence(Steps(t), plan)
  {
    TraceFollowsPlan(Dispatch, plan, env);
  }

  /** For a plan `validate_plan` accepts, every step yields a result, so the
      trace is a prefix of the plan, shorter only when the walk halted on an
      `error` or `exception`. */
  lemma ValidatedPlanTraceIsPrefix(plan: seq<Value>, env: Env)
    requires ValidatePlan(plan) == Accepted
    ensures forall j :: 0 <= j < |plan| ==> plan[j].VDict?
    ensures var steps := Records(plan);
            var t := Exec(Dispatch, steps, env).0;
            Steps(t) == steps[..|t|] && (|t| < |steps| ==> Halted(t))
  {
    var steps := Records(plan);
    forall k | 0 <= k < |steps| ensures AlwaysRecords(Dispatch, steps[k]) {
      assert WellFormed(AllowedActions, plan[k]);
      assert VDict(steps[k]) == plan[k];
    }
    TraceIsPrefix(Dispatch, steps, env);
  }

  // ----- the executor object -----

  class Executor {
    const page: Page
    const clock: Clock

    constructor (page: Page, clock: Clock)
      ensures this.page == page && this.clock == clock
    {
      this.page := page;
      this.clock := clock;
    }

    /** The page and clock as the pure model sees them. */
    function Snapshot(): Env
      reads page, clock
    {
      Env(page.State(), clock.slept)
    }

    method Click(step: Step) returns (r: StepResult)
      requires "action" in step
      modifies page
      ensures (r, Snapshot()) == ClickStep(step, old(Snapshot()))
    {
      if "selector" !in step {
        return Exception(step, KeyError("selector"));
      }
      var selector := step["selector"];
      var index := Get(step, "index", VInt(0));
      var waited := page.WaitForSelector(selector, SelectorTimeoutMs);
      if waited.Failure? {
        return Exception(step, waited.error);
      }
      var elements := page.QuerySelectorAll(selector.s);
      var inRange := LessThan(index, |elements|);
      if inRange.Failure? {
        return Exception(step, inRange.error);
      }
      if inRange.value {
        var at := Subscript(index, |elements|);
        if at.Failure? {
          return Exception(step, at.error);
        }
        var clicked := page.HandleClick(elements[at.value]);
        if clicked.Failure? {
          return Exception(step, clicked.error);
        }
        r := Ok(step, None);
      } else {
        r := Error(step, NotFoundAtIndex(index, selector));
      }
    }

    method ReadText(step: Step) returns (r: StepResult)
      requires "action" in step
      modifies page
      ensures (r, Snapshot()) == ReadTextStep(step, old(Snapshot()))
    {
      if "selector" !in step {
        return Exception(step, KeyError("selector"));
      }
      var selector := step["selector"];
      var index := Get(step, "index", VInt(0));
      var waited := page.WaitForSelector(selector, SelectorTimeoutMs);
      if waited.Failure? {
        return Exception(step, waited.error);
      }
      var elements := page.QuerySelectorAll(selector.s);
      if elements != [] {
        var at := Subscript(index, |elements|);
        if at.Failure? {
          return Exception(step, at.error);
        }
        var text := page.HandleInnerText(elements[at.value]);
        r := Ok(step, Some(text));
      } else {
        r := Error(step, NotFound(selector));
      }
    }

    method Wait(step: Step) returns (r: StepResult)
      modifies clock
      ensures (r, Snapshot()) == WaitStep(step, old(Snapshot()))
    {
      var slept := clock.Sleep(Get(step, "seconds", VInt(1)));
      if slept.Failure? {
        return Exception(step, slept.error);
      }
      r := Ok(step, None);
    }

    /** One pass of the loop body, exceptions caught at the step boundary. */
    method Attempt(step: Step) returns (r: Option<StepResult>)
      modifies page, clock
      ensures (r, Snapshot()) == Dispatch(step, old(Snapshot()))
    {
      if "action" !in step {
        return Some(Exception(step, KeyError("action")));
      }
      var action := step["action"];
      if action == VStr("click") {
        var res := Click(step);
        r := Some(res);
      } else if action == VStr("read_text") {
        var res := ReadText(step);
        r := Some(res);
      } else if action == VStr("wait") {
        var res := Wait(step);
        r := Some(res);
      } else {
        r := None;
      }
    }

    /** `execute_plan`: the trace and the final page and clock are those of
        the fail-fast walk `Exec` with this variant's dispatch. */
    method ExecutePlan(plan: seq<Step>) returns (results: seq<StepResult>)
      modifies page, clock
      ensures (results, Snapshot()) == Exec(Dispatch, plan, old(Snapshot()))
    {
      results := [];
      var i := 0;
      assert plan[i..] == plan;
      assert results + Exec(Dispatch, plan, Snapshot()).0 == Exec(Dispatch, plan, Snapshot()).0;
      while i < |plan|
        invariant 0 <= i <= |plan|
        invariant forall j :: 0 <= j < |results| ==> results[j].Ok?
        invariant Exec(Dispatch, plan, old(Snapshot())) ==
                  (results + Exec(Dispatch, plan[i..], Snapshot()).0, Exec(Dispatch, plan[i..], Snapshot()).1)
      {
        ExecFrom(Dispatch, plan, i, Snapshot());
        var r := Attempt(plan[i]);
        if r.Some? {
          ghost var rest := Exec(Dispatch, plan[i + 1..], Snapshot());
          if !r.value.Ok? {
            results := results + [r.value];
            return;
          }
          assert results + ([r.value] + rest.0) == (results + [r.value]) + rest.0;
          results := results + [r.value];
        }
        i := i + 1;
      }
      assert results + [] == results;
    }
  }
}
