/** The executor of `MCP_Agent/mcp_agent.py`: plans of `goto`, `click`,
    `fill`, `read_text` and `wait` steps, where selector actions target the
    first match through the page-level calls. */
module PackageAgent {
  import opened PyValues
  import opened Browser
  import opened Validation
  import opened Interpreter

  const AllowedActions: set<string> := {"goto", "click", "fill", "read_text", "wait"}

  /** The bound, in milliseconds, on every selector wait. */
  const SelectorTimeoutMs: nat := 5000

  // ----- validate_plan -----

  /** One iteration of `validate_plan`: a step that is not a dict is
      rejected first, then the action checks apply. */
  function CheckStep(step: Value): (r: Option<Validation>)
    ensures r.None? <==> WellFormed(AllowedActions, step)
    ensures r != Some(Accepted)
    ensures !step.VDict? ==> r == Some(Returned(false, StepNotDict(step)))
  {
    match step
    case VDict(_) => ActionCheck(AllowedActions, step)
    case _ => Some(Returned(false, StepNotDict(step)))
  }

  /** `validate_plan`, which never touches the page: the plan is accepted,
      with "ok", exactly when every step is a dict whose action is
      one of the five; the empty plan is accepted. */
  function ValidatePlan(plan: seq<Value>): (r: Validation)
    ensures r == Accepted <==> forall j :: 0 <= j < |plan| ==> WellFormed(AllowedActions, plan[j])
    ensures plan == [] ==> r == Accepted
  {
    ScanAcceptsIffAllPass(CheckStep, plan);
    Scan(CheckStep, plan)
  }

  /** The first defective step decides the verdict: "Step is not a dict"
      for a value that is not a dict (checked before its action), "Missing
      'action' key" for an absent or falsy action, "Invalid action" for a
      truthy string outside the five. */
  lemma ValidatePlanFirstDefect(plan: seq<Value>, k: nat)
    requires k < |plan|
    requires forall j :: 0 <= j < k ==> WellFormed(AllowedActions, plan[j])
    requires !WellFormed(AllowedActions, plan[k])
    ensures !plan[k].VDict? ==> ValidatePlan(plan) == Returned(false, StepNotDict(plan[k]))
    ensures plan[k].VDict? ==>
              var fields := plan[k].fields;
              ("action" !in fields || !Truthy(fields["action"]) ==>
                 ValidatePlan(plan) == Returned(false, MissingAction(plan[k]))) &&
              ("action" in fields && fields["action"].VStr? && fields["action"].s != "" ==>
                 ValidatePlan(plan) == Returned(false, InvalidAction(fields["action"], plan[k])))
  {
  }

  /** Short-circuit: no step after the first defective one is examined. */
  lemma ValidatePlanStopsAtDefect(p: seq<Value>, q: seq<Value>)
    requires exists j :: 0 <= j < |p| && !WellFormed(AllowedActions, p[j])
    ensures ValidatePlan(p + q) == ValidatePlan(p)
  {
    var j :| 0 <= j < |p| && !WellFormed(AllowedActions, p[j]);
    assert CheckStep(p[j]).Some?;
    ScanStopsAtDefect(CheckStep, p, q);
  }

  // ----- execute_plan: one step -----

  /** The `goto` branch: `step["url"]` raises KeyError when absent. */
  function GotoStep(step: Step, env: Env): (out: (StepResult, Env))
    ensures out.0.step == step && out.1.slept == env.slept && !out.0.Error?
  {
    if "url" !in step then (Exception(step, KeyError("url")), env)
    else
      var (went, p1) := env.page.Goto(step["url"]);
      if went.Failure? then (Exception(step, went.error), env.(page := p1))
      else (Ok(step, None), env.(page := p1))
  }

  /** The `click` branch: wait for the selector, then click its first match. */
  function ClickStep(step: Step, env: Env): (out: (StepResult, Env))
    ensures out.0.step == step && out.1.slept == env.slept && !out.0.Error?
  {
    if "selector" !in step then (Exception(step, KeyError("selector")), env)
    else
      var selector := step["selector"];
      var (waited, p1) := env.page.WaitForSelector(selector, SelectorTimeoutMs);
      if waited.Failure? then (Exception(step, waited.error), env.(page := p1))
      else
        var (clicked, p2) := p1.Click(selector);
        if clicked.Failure? then (Exception(step, clicked.error), env.(page := p2))
        else (Ok(step, None), env.(page := p2))
  }

  /** The `fill` branch: `value` defaults to the empty string. */
  function FillStep(step: Step, env: Env): (out: (StepResult, Env))
    ensures out.0.step == step && out.1.slept == env.slept && !out.0.Error?
  {
    if "selector" !in step then (Exception(step, KeyError("selector")), env)
    else
      var selector := step["selector"];
      var value := Get(step, "value", VStr(""));
      var (waited, p1) := env.page.WaitForSelector(selector, SelectorTimeoutMs);
      if waited.Failure? then (Exception(step, waited.error), env.(page := p1))
      else
        var (filled, p2) := p1.Fill(selector, value);
        if filled.Failure? then (Exception(step, filled.error), env.(page := p2))
        else (Ok(step, None), env.(page := p2))
  }

  /** The `read_text` branch: the inner text of the first match. */
  function ReadTextStep(step: Step, env: Env): (out: (StepResult, Env))
    ensures out.0.step == step && out.1.slept == env.slept && !out.0.Error?
  {
    if "selector" !in step then (Exception(step, KeyError("selector")), env)
    else
      var selector := step["selector"];
      var (waited, p1) := env.page.WaitForSelector(selector, SelectorTimeoutMs);
      if waited.Failure? then (Exception(step, waited.error), env.(page := p1))
      else
        var (text, p2) := p1.InnerText(selector);
        match text
        case Failure(e) => (Exception(step, e), env.(page := p2))
        case Success(v) => (Ok(step, Some(v)), env.(page := p2))
  }

  /** The body of the `try` for one step: `step["action"]` raises KeyError
      when absent; an action matching no branch yields no result and changes
      nothing; every result carries its step and is never an `error`. */
  function Dispatch(step: Step, env: Env): (out: (Option<StepResult>, Env))
    ensures out.0.None? <==>
              "action" in step &&
              step["action"] !in {VStr("goto"), VStr("click"), VStr("fill"), VStr("read_text"), VStr("wait")}
    ensures out.0.None? ==> out.1 == env
    ensures out.0.Some? ==> out.0.value.step == step && !out.0.value.Error?
  {
    if "action" !in step then (Some(Exception(step, KeyError("action"))), env)
    else if step["action"] == VStr("goto") then var (r, e) := GotoStep(step, env); (Some(r), e)
    else if step["action"] == VStr("click") then var (r, e) := ClickStep(step, env); (Some(r), e)
    else if step["action"] == VStr("fill") then var (r, e) := FillStep(step, env); (Some(r), e)
    else if step["action"] == VStr("read_text") then var (r, e) := ReadTextStep(step, env); (Some(r), e)
    else if step["action"] == VStr("wait") then var (r, e) := WaitStep(step, env); (Some(r), e)
    else (None, env)
  }

  // ----- what one step does -----

  /** A missing `action` key raises KeyError before any backend call. */
  lemma MissingActionRaises(step: Step, env: Env)
    requires "action" !in step
    ensures Dispatch(step, env) == (Some(Exception(step, KeyError("action"))), env)
  {
  }

  /** `goto` loads `url` and is `ok` when the backend can load it; a missing
      `url` is an `exception` with no backend call, an unloadable one an
      `exception` after the call. */
  lemma GotoLoads(step: Step, env: Env)
    requires "action" in step && step["action"] == VStr("goto")
    ensures "url" !in step ==> Dispatch(step, env) == (Some(Exception(step, KeyError("url"))), env)
    ensures "url" in step && step["url"].VStr? && step["url"].s in env.page.web ==>
              Dispatch(step, env) ==
                (Some(Ok(step, None)), env.(page := env.page.Issue(Goto(step["url"])).Visit(step["url"].s)))
    ensures "url" in step && step["url"].VStr? && step["url"].s !in env.page.web ==>
              Dispatch(step, env) ==
                (Some(Exception(step, NavigationError(step["url"].s))), env.(page := env.page.Issue(Goto(step["url"]))))
  {
  }

  /** `click` waits for the selector, then clicks its first match: `ok`
      when that match is visible, a timeout `exception` when it is not. */
  lemma ClickClicksFirstMatch(step: Step, env: Env, selector: string)
    requires "action" in step && step["action"] == VStr("click")
    requires "selector" in step && step["selector"] == VStr(selector)
    requires HasVisibleMatch(env.page.doc, selector)
    ensures var k := Matches(env.page.doc.nodes, selector)[0];
            var clicked := env.page.Issue(WaitForSelector(VStr(selector), SelectorTimeoutMs)).Issue(Click(VStr(selector)));
            var (r, e) := Dispatch(step, env);
            e.slept == env.slept &&
            (env.page.doc.nodes[k].visible ==> r == Some(Ok(step, None)) && e.page == clicked.Activate(k)) &&
            (!env.page.doc.nodes[k].visible ==> r == Some(Exception(step, ActionTimeout)) && e.page == clicked)
  {
    VisibleMatchIsMatched(env.page.doc, selector);
  }

  /** `fill` waits for the selector, then types `value` (the empty string
      when absent) into the first match. */
  lemma FillTypesValue(step: Step, env: Env, selector: string)
    requires "action" in step && step["action"] == VStr("fill")
    requires "selector" in step && step["selector"] == VStr(selector)
    requires HasVisibleMatch(env.page.doc, selector)
    requires Get(step, "value", VStr("")).VStr?
    requires env.page.doc.nodes[Matches(env.page.doc.nodes, selector)[0]].visible
    ensures var k := Matches(env.page.doc.nodes, selector)[0];
            var typed := Get(step, "value", VStr("")).s;
            var (r, e) := Dispatch(step, env);
            r == Some(Ok(step, None)) &&
            e.page.doc.nodes == env.page.doc.nodes[k := env.page.doc.nodes[k].(value := typed)] &&
            e.page.log == env.page.log + [WaitForSelector(VStr(selector), SelectorTimeoutMs),
                                          Fill(VStr(selector), VStr(typed))]
  {
    VisibleMatchIsMatched(env.page.doc, selector);
  }

  /** `read_text` records `ok` with the inner text of the first match. */
  lemma ReadTextReadsFirstMatch(step: Step, env: Env, selector: string)
    requires "action" in step && step["action"] == VStr("read_text")
    requires "selector" in step && step["selector"] == VStr(selector)
    requires HasVisibleMatch(env.page.doc, selector)
    ensures var k := Matches(env.page.doc.nodes, selector)[0];
            Dispatch(step, env) ==
              (Some(Ok(step, Some(env.page.doc.nodes[k].text))),
               env.(page := env.page.Issue(WaitForSelector(VStr(selector), SelectorTimeoutMs))
                                    .Issue(InnerText(VStr(selector)))))
  {
    VisibleMatchIsMatched(env.page.doc, selector);
  }

  /** A selector wait that finds no visible match raises the 5000 ms
      timeout, after which nothing else is called. */
  lemma SelectorWaitTimesOut(step: Step, env: Env, selector: string)
    requires "action" in step && step["action"] in {VStr("click"), VStr("fill"), VStr("read_text")}
    requires "selector" in step && step["selector"] == VStr(selector)
    requires !HasVisibleMatch(env.page.doc, selector)
    ensures Dispatch(step, env) ==
              (Some(Exception(step, TimeoutError(selector, SelectorTimeoutMs))),
               env.(page := env.page.Issue(WaitForSelector(VStr(selector), SelectorTimeoutMs))))
  {
  }

  /** `wait` sleeps `seconds` (1 when absent), makes no page call and is
      `ok`; a negative length raises ValueError. */
  lemma WaitSleeps(step: Step, env: Env)
    requires "action" in step && step["action"] == VStr("wait")
    requires AsReal(Get(step, "seconds", VInt(1))).Some?
    ensures var x := AsReal(Get(step, "seconds", VInt(1))).value;
            var (r, e) := Dispatch(step, env);
            e.page == env.page &&
            (x >= 0.0 ==> r == Some(Ok(step, None)) && e.slept == env.slept + [x]) &&
            (x < 0.0 ==> r == Some(Exception(step, ValueError)) && e.slept == env.slept)
    ensures "seconds" !in step ==> Dispatch(step, env) == (Some(Ok(step, None)), env.(slept := env.slept + [1.0]))
  {
  }

  // ----- what a run does -----

  /** The trace is a run of `ok` results followed by at most one
      `exception`, which is then its last record; it lists plan steps in
      plan order. */
  lemma ExecutePlanOkThenException(plan: seq<Step>, env: Env)
    ensures var t := Exec(Dispatch, plan, env).0;
            Subsequence(Steps(t), plan) &&
            (forall i :: 0 <= i < |t| ==> t[i].Ok? || (t[i].Exception? && i == |t| - 1))
  {
    TraceFollowsPlan(Dispatch, plan, env);
    NoErrorInTrace(plan, env);
  }

  lemma {:induction false} NoErrorInTrace(plan: seq<Step>, env: Env)
    ensures forall i :: 0 <= i < |Exec(Dispatch, plan, env).0| ==> !Exec(Dispatch, plan, env).0[i].Error?
  {
    if plan != [] {
      NoErrorInTrace(plan[1..], Dispatch(plan[0], env).1);
    }
  }

  /** For a plan `validate_plan` accepts, every step yields a result, so the
      trace is a prefix of the plan, shorter only when the walk halted on an
      `exception`. */
  lemma ValidatedPlanTraceIsPrefix(plan: seq<Value>, env: Env)
    requires ValidatePlan(plan) == Accepted
    ensures forall j :: 0 <= j < |plan| ==> plan[j].VDict?
    ensures var steps := Records(plan);
            var t := Exec(Dispatch, steps, env).0;
            Steps(t) == steps[..|t|] && (|t| < |steps| ==> Halted(t))
  {
    var steps := Records(plan);
    forall k | 0 <= k < |steps| ensures AlwaysRecords(Dispatch, steps[k]) {
      assert WellFormed(AllowedActions, plan[k]);
      assert VDict(steps[k]) == plan[k];
    }
    TraceIsPrefix(Dispatch, steps, env);
  }

  // ----- the executor object -----

  class Executor {
    const page: Page
    const clock: Clock

    constructor (page: Page, clock: Clock)
      ensures this.page == page && this.clock == clock
    {
      this.page := page;
      this.clock := clock;
    }

    /** The page and clock as the pure model sees them. */
    function Snapshot(): Env
      reads page, clock
    {
      Env(page.State(), clock.slept)
    }

    method Goto(step: Step) returns (r: StepResult)
      modifies page
      ensures (r, Snapshot()) == GotoStep(step, old(Snapshot()))
    {
      if "url" !in step {
        return Exception(step, KeyError("url"));
      }
      var went := page.Goto(step["url"]);
      if went.Failure? {
        return Exception(step, went.error);
      }
      r := Ok(step, None);
    }

    method Click(step: Step) returns (r: StepResult)
      modifies page
      ensures (r, Snapshot()) == ClickStep(step, old(Snapshot()))
    {
      if "selector" !in step {
        return Exception(step, KeyError("selector"));
      }
      var selector := step["selector"];
      var waited := page.WaitForSelector(selector, SelectorTimeoutMs);
      if waited.Failure? {
        return Exception(step, waited.error);
      }
      var clicked := page.Click(selector);
      if clicked.Failure? {
        return Exception(step, clicked.error);
      }
      r := Ok(step, None);
    }

    method Fill(step: Step) returns (r: StepResult)
      modifies page
      ensures (r, Snapshot()) == FillStep(step, old(Snapshot()))
    {
      if "selector" !in step {
        return Exception(step, KeyError("selector"));
      }
      var selector := step["selector"];
      var value := Get(step, "value", VStr(""));
      var waited := page.WaitForSelector(selector, SelectorTimeoutMs);
      if waited.Failure? {
        return Exception(step, waited.error);
      }
      var filled := page.Fill(selector, value);
      if filled.Failure? {
        return Exception(step, filled.error);
      }
      r := Ok(step, None);
    }

    method ReadText(step: Step) returns (r: StepResult)
      modifies page
      ensures (r, Snapshot()) == ReadTextStep(step, old(Snapshot()))
    {
      if "selector" !in step {
        return Exception(step, KeyError("selector"));
      }
      var selector := step["selector"];
      var waited := page.WaitForSelector(selector, SelectorTimeoutMs);
      if waited.Failure? {
        return Exception(step, waited.error);
      }
      // The wait left a visible match, so `inner_text` finds its first match.
      VisibleMatchIsMatched(page.doc, selector.s);
      var text := page.InnerText(selector);
      r := Ok(step, Some(text.value));
    }

    method Wait(step: Step) returns (r: StepResult)
      modifies clock
      ensures (r, Snapshot()) == WaitStep(step, old(Snapshot()))
    {
      var slept := clock.Sleep(Get(step, "seconds", VInt(1)));
      if slept.Failure? {
        return Exception(step, slept.error);
      }
      r := Ok(step, None);
    }

    /** One pass of the loop body, exceptions caught at the step boundary. */
    method Attempt(step: Step) returns (r: Option<StepResult>)
      modifies page, clock
      ensures (r, Snapshot()) == Dispatch(step, old(Snapshot()))
    {
      if "action" !in step {
        return Some(Exception(step, KeyError("action")));
      }
      var action := step["action"];
      var res: StepResult;
      if action == VStr("goto") {
        res := Goto(step);
      } else if action == VStr("click") {
        res := Click(step);
      } else if action == VStr("fill") {
        res := Fill(step);
      } else if action == VStr("read_text") {
        res := ReadText(step);
      } else if action == VStr("wait") {
        res := Wait(step);
      } else {
        return None;
      }
      r := Some(res);
    }

    /** `execute_plan`: the trace and the final page and clock are those of
        the fail-fast walk `Exec` with this variant's dispatch. */
    method ExecutePlan(plan: seq<Step>) returns (results: seq<StepResult>)
      modifies page, clock
      ensures (results, Snapshot()) == Exec(Dispatch, plan, old(Snapshot()))
    {
      results := [];
      var i := 0;
      assert plan[i..] == plan;
      assert results + Exec(Dispatch, plan, Snapshot()).0 == Exec(Dispatch, plan, Snapshot()).0;
      while i < |plan|
        invariant 0 <= i <= |plan|
        invariant forall j :: 0 <= j < |results| ==> results[j].Ok?
        invariant Exec(Dispatch, plan, old(Snapshot())) ==
                  (results + Exec(Dispatch, plan[i..], Snapshot()).0, Exec(Dispatch, plan[i..], Snapshot()).1)
      {
        ExecFrom(Dispatch, plan, i, Snapshot());
        var r := Attempt(plan[i]);
        if r.Some? {
          ghost var rest := Exec(Dispatch, plan[i + 1..], Snapshot());
          if !r.value.Ok? {
            results := results + [r.value];
            return;
          }
          assert results + ([r.value] + rest.0) == (results + [r.value]) + rest.0;
          results := results + [r.value];
        }
        i := i + 1;
      }
      assert results + [] == results;
    }
  }

  // ----- the planner's constant fallback plan -----

  /** The plan the planner falls back to when the language model fails. */
  const FallbackPlan: seq<Value> := [
    VDict(map["action" := VStr("goto"), "url" := VStr("https://www.saucedemo.com/")]),
    VDict(map["action" := VStr("wait"), "seconds" := VInt(2)]),
    VDict(map["action" := VStr("click"), "selector" := VStr("#login-button")])
  ]

  /** This variant accepts the fallback plan. */
  lemma FallbackPlanAccepted()
    ensures ValidatePlan(FallbackPlan) == Accepted
  {
    assert WellFormed(AllowedActions, FallbackPlan[0]);
    assert WellFormed(AllowedActions, FallbackPlan[1]);
    assert WellFormed(AllowedActions, FallbackPlan[2]);
  }
}
