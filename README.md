# playwright-robot: the action-plan executor, in Dafny

This project models the part of playwright-robot that validates and runs
*action plans*. A plan is a list of step dicts such as
`{"action": "click", "selector": "#login-button", "index": 0}`.
`MCPExecutor` drives a browser page through such a plan and returns a trace
with one record per step. Each record has the status `ok`, `error` or
`exception`. The walk is fail-fast: the first record that is not `ok` ends it.

The repository has two versions of `MCPExecutor`, and both are modelled:

- `mcp_agent.py` (module `RootAgent`) accepts `click`, `read_text` and
  `wait`. The `click` and `read_text` steps pick a match by `index`.
- `MCP_Agent/mcp_agent.py` (module `PackageAgent`) accepts `goto`,
  `click`, `fill`, `read_text` and `wait`. Every selector action targets
  the first match.

The project also models `find_product_by_keyword` from `main.py` (module
`Inventory`).

The modules are:

- `PyValues`: the Python values plans are made of (`None`, bools, ints,
  floats, strings, lists, dicts). It also holds the Python operations the
  executors depend on: truthiness, `dict.get`, `index < len(...)`,
  `xs[index]` with negative indices, and the exceptions they raise.
- `Browser`: the page as an abstract document. The document is a list of
  nodes; each node has the set of selectors it matches, its text, whether
  it is visible, an optional link and an input value. The page also keeps
  a log of every backend call issued.
  - `PageState` holds the pure meaning of each Playwright call.
  - The class `Page` is the live page object. Each of its methods changes
    the state exactly as the matching `PageState` function says.
  - `Clock` records the durations `time.sleep` was asked to sleep.
- `Validation`: the `validate_plan` loop, shared by both versions. It scans
  the plan, and the first defective step decides the answer.
- `Interpreter`: the `execute_plan` loop, shared by both versions. It is
  the fail-fast walk `Exec`, parameterised by the per-step dispatch of
  each version.
- `RootAgent` and `PackageAgent`: the two versions. Each has:
  - the pure step functions and the lemmas about each branch;
  - a class `Executor` whose methods update the page and the clock;
  - an `ExecutePlan` loop proved equal to `Exec`.
- `Variants`: how the two validators relate to each other.
- `Inventory`: the keyword search over the inventory listing.

The model follows the code as written, including where it evidently departs
from what its authors meant:

- The navigation action is called `goto` in `MCP_Agent/mcp_agent.py`
  and is not accepted at all by `mcp_agent.py`.
- A `read_text` whose `index` is at or past the number of matches was
  evidently meant to be an `error`, like the matching `click`. In
  `mcp_agent.py` it raises IndexError at `elements[index]` and is recorded
  as an `exception` (`RootAgent.ReadTextPastMatchesRaises`). The
  `read_text` "Element not found" `error` branch is unreachable in this
  model: a selector wait that succeeds leaves at least one match
  (`RootAgent.Dispatch`).
- A negative `index` passes the bound check `index < len(elements)`. It
  then counts from the end, or raises IndexError when it is below
  `-len(elements)`.
- In `MCP_Agent/mcp_agent.py`, a missing element is never an `error`. The
  selector wait times out instead, and the step is an `exception`
  (`PackageAgent.Dispatch`).
- The root validator calls `step.get` directly. A step that is not a dict
  therefore raises AttributeError instead of returning `False`. The model
  gives this result as `Raised(AttributeError)`.

## Model

| member | source | states |
|---|---|---|
| PyValues.LessThan | mcp_agent.py:42 | `index < len(elements)` compares numbers (bools count as 0 and 1) and raises TypeError for any other value |
| PyValues.Position | mcp_agent.py:43 | a list subscript in range designates position `i`, or `n + i` when `i` is negative; outside `-n <= i < n` it raises IndexError |
| PyValues.Subscript | mcp_agent.py:62 | `elements[index]` accepts ints and bools as positions; any other value, floats included, raises TypeError |
| Browser.Matches | mcp_agent.py:40 | `query_selector_all` yields exactly the positions of the nodes matching the selector, each once, in increasing document order |
| Browser.VisibleMatchIsMatched | mcp_agent.py:58-61 | once the selector wait succeeds, the query finds at least one element |
| Browser.PageState.WaitForSelector | mcp_agent.py:39 | the wait succeeds exactly when a string selector has a visible match; otherwise it raises a timeout naming the selector and 5000 ms; the call is logged and nothing else changes |
| Browser.PageState.HandleClick | mcp_agent.py:43 | clicking a handle succeeds exactly when its node is visible; success follows the node's link, if any; the call is logged |
| Browser.PageState.Goto | MCP_Agent/mcp_agent.py:34 | `goto` succeeds exactly for a URL the web serves and then shows that document; a failed load leaves the page as it was |
| Browser.PageState.Click | MCP_Agent/mcp_agent.py:40 | `page.click` succeeds exactly when the first match exists and is visible, and then acts on that node |
| Browser.PageState.Fill | MCP_Agent/mcp_agent.py:47 | `page.fill` succeeds exactly when the first match is visible and both arguments are strings; it changes only that node's value |
| Browser.PageState.InnerText | MCP_Agent/mcp_agent.py:53 | `page.inner_text` returns the text of the first match and fails when there is none |
| Browser.SleepFor | mcp_agent.py:77 | `time.sleep` records a non-negative number of seconds; a negative number raises ValueError and a non-number TypeError, both with nothing slept |
| Browser.Page.Goto | MCP_Agent/mcp_agent.py:34 | the live page changes as `PageState.Goto` says |
| Browser.Page.WaitForSelector | mcp_agent.py:39 | the live page changes as `PageState.WaitForSelector` says |
| Browser.Page.QuerySelectorAll | mcp_agent.py:40 | returns the matches and logs the call |
| Browser.Page.HandleClick | mcp_agent.py:43 | the live page changes as `PageState.HandleClick` says |
| Browser.Page.HandleInnerText | mcp_agent.py:62 | returns the node's text and logs the call |
| Browser.Page.Click | MCP_Agent/mcp_agent.py:40 | the live page changes as `PageState.Click` says |
| Browser.Page.Fill | MCP_Agent/mcp_agent.py:47 | the live page changes as `PageState.Fill` says |
| Browser.Page.InnerText | MCP_Agent/mcp_agent.py:53 | the live page changes as `PageState.InnerText` says |
| Browser.Clock.Sleep | mcp_agent.py:77 | the clock changes as `SleepFor` says |
| Validation.ActionCheck | mcp_agent.py:18-24 | a dict step passes exactly when its action is an allowed string; a falsy or absent action gives "Missing 'action' key", an unhashable one raises TypeError, any other gives "Invalid action" |
| Validation.FirstDefect | mcp_agent.py:17-24 | the position of the first step the check rejects: every earlier step passes |
| Validation.Scan | mcp_agent.py:17-26 | the verdict is that of the first step the check rejects, or `(True, "ok")` when there is none |
| Validation.ScanAcceptsIffAllPass | mcp_agent.py:17-26 | a plan is accepted exactly when no step is defective |
| Validation.ScanStopsAtDefect | mcp_agent.py:21-24 | after the first defective step, nothing further is examined: appending steps does not change the verdict |
| Interpreter.WaitStep | mcp_agent.py:76-78 | the `wait` branch of both executors records its step, never touches the page and never yields an `error` |
| Interpreter.Exec | mcp_agent.py:28-84 | at most one record per step; every record but the last is `ok`; the empty plan gives the empty trace and changes nothing |
| Interpreter.ExecAppend | mcp_agent.py:29-84 | running `p + q` runs `p`, then, unless `p` halted, runs `q` from the state `p` left |
| Interpreter.HaltingStepEndsRun | mcp_agent.py:46-82 | when step `k` is reached and yields `error` or `exception`, the trace is the earlier records plus that one, and no later step is dispatched |
| Interpreter.TraceFollowsPlan | mcp_agent.py:29-30 | the records list plan steps in plan order |
| Interpreter.TraceIsPrefix | MCP_Agent/mcp_agent.py:28-63 | when every step yields a record, the trace's steps are a prefix of the plan, shorter only when the walk halted |
| RootAgent.CheckStep | mcp_agent.py:17-24 | a step passes exactly when it is a dict with an allowed action; a step that is not a dict raises AttributeError |
| RootAgent.ValidatePlan | mcp_agent.py:16-26 | `(True, "ok")` exactly when every step is a dict whose action is `click`, `read_text` or `wait`; the empty plan is accepted |
| RootAgent.ValidatePlanFirstDefect | mcp_agent.py:17-24 | the first bad step decides: "Missing 'action' key" for an absent or falsy action, "Invalid action" for any other string |
| RootAgent.ValidatePlanStopsAtDefect | mcp_agent.py:21-24 | the validator returns at the first bad step |
| RootAgent.ClickStep | mcp_agent.py:35-51 | the `click` branch records its step, leaves the clock alone, and its only `error` is an index not found |
| RootAgent.ReadTextStep | mcp_agent.py:54-74 | the `read_text` branch records its step, leaves the clock alone and never yields an `error`: its "not found" branch is unreachable in this model, since a successful wait leaves a match |
| RootAgent.Dispatch | mcp_agent.py:31-82 | one step: a missing `action` raises KeyError; an action matching no branch adds no record and changes nothing; every record carries its step; the only `error` is a `click` index out of range, the `read_text` "not found" branch being unreachable in this model |
| RootAgent.MissingActionRaises | mcp_agent.py:32 | a step without `action` is an `exception` (KeyError), with no backend call |
| RootAgent.SelectorWaitTimesOut | mcp_agent.py:39 | with no visible match, `click` and `read_text` end in a timeout `exception` after the wait, with no further call |
| RootAgent.ClickInRange | mcp_agent.py:35-44 | with `-n <= index < n`, exactly the designated match is clicked after the wait and query; the step is `ok` when that node is visible |
| RootAgent.ClickPastMatchesIsError | mcp_agent.py:42-51 | an `index` at or past the number of matches yields an `error` naming the index and selector, and nothing is clicked |
| RootAgent.ClickBeforeMatchesRaises | mcp_agent.py:42-43 | an `index` below `-n` passes the bound check and raises IndexError |
| RootAgent.ReadTextInRange | mcp_agent.py:54-67 | `read_text` with an index among the matches is `ok` with exactly that node's text |
| RootAgent.ReadTextPastMatchesRaises | mcp_agent.py:61-62 | `read_text` with an index at or past the matches is an IndexError `exception`, not an `error` |
| RootAgent.WaitSleeps | mcp_agent.py:76-78 | `wait` sleeps `seconds` (1 by default) and is `ok`; a negative value raises ValueError; the page is untouched |
| RootAgent.ExecutePlanFollowsPlan | mcp_agent.py:28-84 | the trace has at most one record per step, in plan order |
| RootAgent.ValidatedPlanTraceIsPrefix | mcp_agent.py:28-84 | for a validated plan, the trace is a prefix of the plan, shorter only after a halt |
| RootAgent.Executor.constructor | mcp_agent.py:13-14 | the executor holds the given page |
| RootAgent.Executor.Click | mcp_agent.py:35-51 | the returned record, page and clock are those of `ClickStep` |
| RootAgent.Executor.ReadText | mcp_agent.py:54-74 | the returned record, page and clock are those of `ReadTextStep` |
| RootAgent.Executor.Wait | mcp_agent.py:76-78 | the returned record, page and clock are those of `WaitStep` |
| RootAgent.Executor.Attempt | mcp_agent.py:31-82 | one loop pass, with exceptions caught, behaves as `Dispatch` |
| RootAgent.Executor.ExecutePlan | mcp_agent.py:28-84 | the returned trace and the final page and clock are those of `Exec` with this version's dispatch |
| PackageAgent.CheckStep | MCP_Agent/mcp_agent.py:17-24 | a step passes exactly when it is a dict with an allowed action; a step that is not a dict gives "Step is not a dict" |
| PackageAgent.ValidatePlan | MCP_Agent/mcp_agent.py:16-25 | `(True, "ok")` exactly when every step is a dict whose action is one of the five; the empty plan is accepted |
| PackageAgent.ValidatePlanFirstDefect | MCP_Agent/mcp_agent.py:17-24 | the first bad step decides: not a dict, missing or falsy action, or an invalid action |
| PackageAgent.ValidatePlanStopsAtDefect | MCP_Agent/mcp_agent.py:18-24 | the validator returns at the first bad step |
| PackageAgent.GotoStep | MCP_Agent/mcp_agent.py:33-35 | the `goto` branch records its step, leaves the clock alone and never yields an `error` |
| PackageAgent.ClickStep | MCP_Agent/mcp_agent.py:37-41 | the `click` branch records its step, leaves the clock alone and never yields an `error` |
| PackageAgent.FillStep | MCP_Agent/mcp_agent.py:43-48 | the `fill` branch records its step, leaves the clock alone and never yields an `error` |
| PackageAgent.ReadTextStep | MCP_Agent/mcp_agent.py:50-54 | the `read_text` branch records its step, leaves the clock alone and never yields an `error` |
| PackageAgent.Dispatch | MCP_Agent/mcp_agent.py:30-63 | one step: a missing `action` raises KeyError; an action matching no branch adds no record and changes nothing; every record carries its step and is `ok` or `exception`, never `error` |
| PackageAgent.MissingActionRaises | MCP_Agent/mcp_agent.py:31 | a step without `action` is an `exception` (KeyError), with no backend call |
| PackageAgent.GotoLoads | MCP_Agent/mcp_agent.py:33-35 | `goto` loads a served URL and is `ok`; a missing `url` raises KeyError with no call; an unserved URL is an `exception` after the call |
| PackageAgent.ClickClicksFirstMatch | MCP_Agent/mcp_agent.py:37-41 | after a successful wait, `click` acts on the first match: `ok` when it is visible, a timeout `exception` otherwise |
| PackageAgent.FillTypesValue | MCP_Agent/mcp_agent.py:43-48 | `fill` sets the first match's value to `value`, or to "" when absent, and changes no other node |
| PackageAgent.ReadTextReadsFirstMatch | MCP_Agent/mcp_agent.py:50-54 | `read_text` is `ok` with the text of the first match |
| PackageAgent.SelectorWaitTimesOut | MCP_Agent/mcp_agent.py:39-52 | with no visible match, `click`, `fill` and `read_text` end in a timeout `exception` after the wait |
| PackageAgent.WaitSleeps | MCP_Agent/mcp_agent.py:56-59 | `wait` sleeps `seconds` (1 by default) and is `ok`; a negative value raises ValueError |
| PackageAgent.ExecutePlanOkThenException | MCP_Agent/mcp_agent.py:27-64 | the trace is a run of `ok` records, possibly followed by one final `exception`, in plan order |
| PackageAgent.NoErrorInTrace | MCP_Agent/mcp_agent.py:27-64 | no record in the trace is an `error` |
| PackageAgent.ValidatedPlanTraceIsPrefix | MCP_Agent/mcp_agent.py:27-64 | for a validated plan, the trace is a prefix of the plan, shorter only after a halt |
| PackageAgent.Executor.constructor | MCP_Agent/mcp_agent.py:13-14 | the executor holds the given page |
| PackageAgent.Executor.Goto | MCP_Agent/mcp_agent.py:33-35 | the returned record and the new state are those of `GotoStep` |
| PackageAgent.Executor.Click | MCP_Agent/mcp_agent.py:37-41 | the returned record and the new state are those of `ClickStep` |
| PackageAgent.Executor.Fill | MCP_Agent/mcp_agent.py:43-48 | the returned record and the new state are those of `FillStep` |
| PackageAgent.Executor.ReadText | MCP_Agent/mcp_agent.py:50-54 | the returned record and the new state are those of `ReadTextStep` |
| PackageAgent.Executor.Wait | MCP_Agent/mcp_agent.py:56-59 | the returned record and the new state are those of `WaitStep` |
| PackageAgent.Executor.Attempt | MCP_Agent/mcp_agent.py:30-63 | one loop pass, with exceptions caught, behaves as `Dispatch` |
| PackageAgent.Executor.ExecutePlan | MCP_Agent/mcp_agent.py:27-64 | the returned trace and the final state are those of `Exec` with this version's dispatch |
| PackageAgent.FallbackPlanAccepted | MCP_Agent/llm_cohere.py:64-69 | the planner's fallback plan (the constant `PackageAgent.FallbackPlan`: `goto` the Sauce Demo login page, `wait` 2 seconds, `click` `#login-button`) passes this version's validator |
| Variants.RootAcceptedIsPackageAccepted | MCP_Agent/mcp_agent.py:11 | every plan the root validator accepts, the `MCP_Agent` validator accepts too |
| Variants.FallbackPlanSeparatesVariants | MCP_Agent/llm_cohere.py:64-69 | the fallback plan is accepted by the `MCP_Agent` validator and rejected by the root one, which reports an invalid `goto` in its first step |
| Inventory.LeadingSpaces | main.py:33 | counts the whitespace `strip` removes at the front |
| Inventory.TrailingSpaces | main.py:33 | counts the whitespace `strip` removes at the back |
| Inventory.Strip | main.py:33-34 | the result is a slice of the input with no whitespace at either end, and only whitespace outside it |
| Inventory.Lower | main.py:35 | lower-casing keeps the length and maps each character separately |
| Inventory.SearchFrom | main.py:28-37 | the first complete item, from a given position on, whose stripped and lower-cased name contains the lower-cased keyword; `None` when there is no such item |
| Inventory.FindProductByKeyword | main.py:17-37 | `None` when the list does not appear; otherwise the first complete hit in query order, with its stripped name and price; `None` when nothing matches |
| Inventory.IncompleteItemSkipped | main.py:29-32 | an item lacking a name or price element is passed over: putting it first only moves the result one position down |
| Inventory.EmptyKeywordFindsFirstComplete | main.py:35 | the empty keyword finds the first complete item |
| Inventory.KeywordCaseIgnored | main.py:35 | a keyword and its lower-cased form find the same item |

## Left out

- Message text: `validate_plan`'s diagnostics and the `reason` and `error` strings of trace records are modelled as datatypes, not as formatted strings.
- `auto_login_sauce` (mcp_agent.py:86-91): a fixed sequence of backend calls with no logic of its own.
- `run_task` and the script entry point of main.py, api.py, the language-model client in MCP_Agent/llm_cohere.py (except its fallback plan), MCP_Agent/main.py and test_mcp_run.py: browser launching, HTTP, network and printing.
- Playwright itself: selector matching, visibility and `inner_text` rendering are given by the abstract document, not computed.
- Time: the 5000 ms selector timeout and `time.sleep` are recorded, not elapsed. A selector wait succeeds exactly when a visible match exists at the moment of the call.
- Floats are modelled as exact reals.
- Browser.PageState.Goto: a URL string outside the known web map fails with a navigation error; other Playwright failure modes are not modelled.
- Inventory.Lower: lower-cases the ASCII letters only, not the full Unicode mapping of Python's `str.lower`.
- Inventory.FindProductByKeyword: the returned name element is identified by the position of its item, and the inner texts of the name and price elements are given as inputs.
- The document changes only through the executor's own calls: no page script, timer or network activity changes it between two calls. In particular `PackageAgent.Executor.ReadText` relies on `inner_text` finding the match the selector wait just saw.
- `execute_plan` is modelled on dict steps only (a step is a `map<string, Value>`). For a step that is not a dict, the source records an `exception` (TypeError from `step["action"]`, mcp_agent.py:32 and MCP_Agent/mcp_agent.py:31); the model has no such step.
- The page and the clock are passed to the executor's constructor; the source creates the executor from a page and uses the process clock.
