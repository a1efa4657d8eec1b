/** The single-cursor walk shared by both `execute_plan` variants: every
    step is dispatched in order; a dispatched step yields at most one result;
    the walk stops after the first result that is not `ok`, and the trace
    gathered so far is returned. A variant supplies its dispatch function. */
module Interpreter {
  import opened PyValues
  import opened Browser

  /** A plan step as the executor receives it: a dict from field names to values. */
  type Step = map<string, Value>

  /** The steps of a plan whose every step is a dict, as the executor takes them. */
  function Records(plan: seq<Value>): (steps: seq<Step>)
    requires forall j :: 0 <= j < |plan| ==> plan[j].VDict?
    ensures |steps| == |plan| && forall j :: 0 <= j < |plan| ==> VDict(steps[j]) == plan[j]
  {
    if plan == [] then [] else [plan[0].fields] + Records(plan[1..])
  }

  /** Why a step ended in `error`. */
  datatype Reason =
    | NotFoundAtIndex(index: Value, selector: Value) // "Element not found at index <index> for selector '<selector>'"
    | NotFound(selector: Value)                      // "Element not found for selector '<selector>'"

  /** One record of the trace; every record keeps the step it came from. */
  datatype StepResult =
    | Ok(step: Step, value: Option<string>)   // {"status": "ok", "step": .., "value": ..}
    | Error(step: Step, reason: Reason)       // {"status": "error", "step": .., "reason": ..}
    | Exception(step: Step, error: PyError)   // {"status": "exception", "error": str(e), "step": ..}

  /** What a run acts on: the page and the clock. */
  datatype Env = Env(page: PageState, slept: seq<real>)

  /** Runs the body of the loop for one step: the result it appends, if any,
      and the environment afterwards. */
  type Dispatcher = (Step, Env) -> (Option<StepResult>, Env)

  /** The `wait` branch, alike in both executors: sleeps `seconds`
      (default 1) and touches no page. */
  function WaitStep(step: Step, env: Env): (out: (StepResult, Env))
    ensures out.0.step == step && out.1.page == env.page && !out.0.Error?
  {
    var (slept, clock) := SleepFor(env.slept, Get(step, "seconds", VInt(1)));
    if slept.Failure? then (Exception(step, slept.error), env.(slept := clock))
    else (Ok(step, None), env.(slept := clock))
  }

  /** The trace ends with a result that is not `ok`: the walk halted there. */
  predicate Halted(trace: seq<StepResult>) {
    trace != [] && !trace[|trace| - 1].Ok?
  }

  /** The steps recorded in a trace, in trace order. */
  function Steps(trace: seq<StepResult>): (r: seq<Step>)
    ensures |r| == |trace|
    ensures forall i :: 0 <= i < |trace| ==> r[i] == trace[i].step
  {
    if trace == [] then [] else [trace[0].step] + Steps(trace[1..])
  }

  /** `xs` is `ys` with some elements left out, the rest in their order. */
  predicate Subsequence(xs: seq<Step>, ys: seq<Step>) {
    if xs == [] then true
    else if ys == [] then false
    else (xs[0] == ys[0] && Subsequence(xs[1..], ys[1..])) || Subsequence(xs, ys[1..])
  }

  /** The walk of `execute_plan`: the trace it returns and the environment it leaves. */
  function Exec(dispatch: Dispatcher, plan: seq<Step>, env: Env): (out: (seq<StepResult>, Env))
    ensures |out.0| <= |plan|
    ensures forall i :: 0 <= i < |out.0| - 1 ==> out.0[i].Ok?
    ensures plan == [] ==> out == ([], env)
  {
    if plan == [] then ([], env)
    else
      var (r, env1) := dispatch(plan[0], env);
      match r
      case None => Exec(dispatch, plan[1..], env1)
      case Some(res) =>
        if res.Ok? then
          var (rest, env2) := Exec(dispatch, plan[1..], env1);
          ([res] + rest, env2)
        else ([res], env1)
  }

  /** One turn of the walk from step `i`: dispatch it, then go on, record
      and go on, or record and stop. */
  lemma ExecFrom(dispatch: Dispatcher, plan: seq<Step>, i: nat, env: Env)
    requires i < |plan|
    ensures var (r, env1) := dispatch(plan[i], env);
            var rest := Exec(dispatch, plan[i + 1..], env1);
            Exec(dispatch, plan[i..], env) ==
              match r
              case None => rest
              case Some(res) => if res.Ok? then ([res] + rest.0, rest.1) else ([res], env1)
  {
    assert plan[i..][0] == plan[i] && plan[i..][1..] == plan[i + 1..];
  }

  /** Running `p + q` is running `p` and, unless `p` halted, running `q` from
      where `p` left off. So after a halting step the remaining steps are
      never dispatched: they add no result and no backend call. */
  lemma {:induction false} ExecAppend(dispatch: Dispatcher, p: seq<Step>, q: seq<Step>, env: Env)
    ensures var (tp, ep) := Exec(dispatch, p, env);
            Exec(dispatch, p + q, env) ==
              if Halted(tp) then (tp, ep)
              else (tp + Exec(dispatch, q, ep).0, Exec(dispatch, q, ep).1)
  {
    if p == [] {
      assert p + q == q;
      assert [] + Exec(dispatch, q, env).0 == Exec(dispatch, q, env).0;
    } else {
      assert (p + q)[0] == p[0];
      assert (p + q)[1..] == p[1..] + q;
      var (r, env1) := dispatch(p[0], env);
      ExecAppend(dispatch, p[1..], q, env1);
      match r
      case None =>
      case Some(res) =>
        if res.Ok? {
          var (rest, env2) := Exec(dispatch, p[1..], env1);
          assert Halted([res] + rest) == Halted(rest);
          assert [res] + rest + Exec(dispatch, q, env2).0 == [res] + (rest + Exec(dispatch, q, env2).0);
        }
    }
  }

  /** Fail-fast: when the walk reaches step `k` and that step yields an
      `error` or `exception`, the trace is the one gathered before it plus
      that one result, and the environment is the one step `k` left: the
      steps after `k` are never attempted. */
  lemma HaltingStepEndsRun(dispatch: Dispatcher, plan: seq<Step>, k: nat, env: Env)
    requires k < |plan|
    requires !Halted(Exec(dispatch, plan[..k], env).0)
    requires var r := dispatch(plan[k], Exec(dispatch, plan[..k], env).1).0;
             r.Some? && !r.value.Ok?
    ensures var (before, reached) := Exec(dispatch, plan[..k], env);
            var (r, after) := dispatch(plan[k], reached);
            Exec(dispatch, plan, env) == (before + [r.value], after)
  {
    var (before, reached) := Exec(dispatch, plan[..k], env);
    assert plan == plan[..k] + plan[k..];
    ExecAppend(dispatch, plan[..k], plan[k..], env);
    assert plan[k..] == [plan[k]] + plan[k + 1..];
    ExecAppend(dispatch, [plan[k]], plan[k + 1..], reached);
    assert [plan[k]][1..] == [];
  }

  /** If the dispatch keeps the step in the result it yields, the trace
      lists plan steps in plan order. */
  lemma {:induction false} TraceFollowsPlan(dispatch: Dispatcher, plan: seq<Step>, env: Env)
    requires forall s, e :: dispatch(s, e).0.Some? ==> dispatch(s, e).0.value.step == s
    ensures Subsequence(Steps(Exec(dispatch, plan, env).0), plan)
  {
    if plan != [] {
      var (r, env1) := dispatch(plan[0], env);
      TraceFollowsPlan(dispatch, plan[1..], env1);
      var tail := Steps(Exec(dispatch, plan[1..], env1).0);
      match r
      case None =>
        SubsequenceOfTail(tail, plan);
      case Some(res) =>
        var t := Exec(dispatch, plan, env).0;
        if res.Ok? {
          assert Steps(t)[0] == plan[0];
          assert Steps(t)[1..] == tail;
        } else {
          assert Steps(t) == [plan[0]];
          assert Subsequence(Steps(t)[1..], plan[1..]);
        }
    }
  }

  lemma SubsequenceOfTail(xs: seq<Step>, ys: seq<Step>)
    requires ys != [] && Subsequence(xs, ys[1..])
    ensures Subsequence(xs, ys)
  {
  }

  /** Whatever the environment, dispatching `s` yields a result carrying `s`. */
  ghost predicate AlwaysRecords(dispatch: Dispatcher, s: Step) {
    forall e :: dispatch(s, e).0.Some? && dispatch(s, e).0.value.step == s
  }

  /** When every step of the plan yields a result carrying that step (as for
      any plan the validator accepts), the trace is a prefix of the plan,
      and it is shorter than the plan only when the walk halted. */
  lemma {:induction false} TraceIsPrefix(dispatch: Dispatcher, plan: seq<Step>, env: Env)
    requires forall k :: 0 <= k < |plan| ==> AlwaysRecords(dispatch, plan[k])
    ensures var t := Exec(dispatch, plan, env).0;
            Steps(t) == plan[..|t|] && (|t| < |plan| ==> Halted(t))
  {
    if plan != [] {
      var (r, env1) := dispatch(plan[0], env);
      assert AlwaysRecords(dispatch, plan[0]);
      var res := r.value;
      assert res.step == plan[0];
      var tail := plan[1..];
      forall k | 0 <= k < |tail| ensures AlwaysRecords(dispatch, tail[k]) {
        assert tail[k] == plan[k + 1];
      }
      TraceIsPrefix(dispatch, tail, env1);
      var rest := Exec(dispatch, tail, env1).0;
      var t := if res.Ok? then [res] + rest else [res];
      assert Exec(dispatch, plan, env).0 == t;
      if res.Ok? {
        PrefixCons(plan, Steps(rest));
        assert Steps(t) == [plan[0]] + Steps(rest);
        assert Halted(t) == Halted(rest);
      }
    }
  }

  lemma PrefixCons(plan: seq<Step>, xs: seq<Step>)
    requires |xs| < |plan| && xs == plan[1..][..|xs|]
    ensures [plan[0]] + xs == plan[..|xs| + 1]
  {
  }
}
