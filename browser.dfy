/** The page-automation backend the interpreter drives, reduced to an
    abstract document: an ordered list of nodes, each carrying the set of
    selectors it matches, its visible text, whether it is visible, the URL
    a click on it leads to (if any) and the value typed into it. Every
    backend call is appended to a log, so that "which calls a run made" is
    part of the state. Also the process clock that `time.sleep` uses. */
module Browser {
  import opened PyValues

  datatype Node = Node(selectors: set<string>, text: string, visible: bool, link: Option<string>, value: string)

  datatype Doc = Doc(nodes: seq<Node>)

  /** The document shown after following a link to a URL the web does not serve. */
  const BlankDoc := Doc([])

  /** One call of the backend's capability interface, with its raw arguments. */
  datatype Call =
    | Goto(url: Value)
    | WaitForSelector(selector: Value, timeoutMs: nat)
    | QuerySelectorAll(query: string)
    | HandleClick(handle: nat)
    | HandleInnerText(handle: nat)
    | Click(selector: Value)
    | Fill(selector: Value, value: Value)
    | InnerText(selector: Value)

  /** Positions of the nodes matching `selector`, in document order. */
  function Matches(nodes: seq<Node>, selector: string): (r: seq<nat>)
    ensures forall j :: 0 <= j < |r| ==> r[j] < |nodes| && selector in nodes[r[j]].selectors
    ensures forall k :: 0 <= k < |nodes| && selector in nodes[k].selectors ==> k in r
    ensures forall i, j :: 0 <= i < j < |r| ==> r[i] < r[j]
  {
    if nodes == [] then []
    else
      var last := |nodes| - 1;
      var init := Matches(nodes[..last], selector);
      if selector in nodes[last].selectors then init + [last] else init
  }

  /** Some node matching `selector` is visible: what an explicit selector wait waits for. */
  predicate HasVisibleMatch(doc: Doc, selector: string) {
    exists k :: 0 <= k < |doc.nodes| && selector in doc.nodes[k].selectors && doc.nodes[k].visible
  }

  lemma {:induction false} VisibleMatchIsMatched(doc: Doc, selector: string)
    requires HasVisibleMatch(doc, selector)
    ensures |Matches(doc.nodes, selector)| > 0
  {
    var k :| 0 <= k < |doc.nodes| && selector in doc.nodes[k].selectors && doc.nodes[k].visible;
    assert k in Matches(doc.nodes, selector);
  }

  /** The backend's state: the URLs it can load, the current URL and
      document, and the log of calls issued so far. */
  datatype PageState = PageState(web: map<string, Doc>, url: string, doc: Doc, log: seq<Call>)
  {
    /** Record that `c` was issued. */
    function Issue(c: Call): PageState {
      this.(log := log + [c])
    }

    /** Load `url`; an unknown one shows a blank document. */
    function Visit(u: string): PageState {
      this.(url := u, doc := if u in web then web[u] else BlankDoc)
    }

    /** The effect of clicking node `k`: follow its link, if it has one. */
    function Activate(k: nat): (p: PageState)
      requires k < |doc.nodes|
      ensures p.web == web && p.log == log
    {
      match doc.nodes[k].link
      case None => this
      case Some(u) => Visit(u)
    }

    /** `page.goto(url)`: only a URL the web serves loads. */
    function Goto(url: Value): (out: (Result<()>, PageState))
      ensures out.1.web == web && out.1.log == log + [Call.Goto(url)]
      ensures out.0.Success? <==> url.VStr? && url.s in web
      ensures out.0.Success? ==> out.1.url == url.s && out.1.doc == web[url.s]
      ensures out.0.Failure? ==> out.1.doc == doc && out.1.url == this.url
    {
      var p := Issue(Call.Goto(url));
      match url
      case VStr(u) => if u in web then (Success(()), p.Visit(u)) else (Failure(NavigationError(u)), p)
      case _ => (Failure(InvalidArgument), p)
    }

    /** `page.wait_for_selector(selector, timeout=timeoutMs)`: succeeds
        when some match is visible, raises a timeout otherwise. */
    function WaitForSelector(selector: Value, timeoutMs: nat): (out: (Result<()>, PageState))
      ensures out.1 == Issue(Call.WaitForSelector(selector, timeoutMs))
      ensures out.0.Success? <==> selector.VStr? && HasVisibleMatch(doc, selector.s)
      ensures selector.VStr? && !HasVisibleMatch(doc, selector.s) ==>
                out.0 == Failure(TimeoutError(selector.s, timeoutMs))
    {
      var p := Issue(Call.WaitForSelector(selector, timeoutMs));
      match selector
      case VStr(s) => if HasVisibleMatch(doc, s) then (Success(()), p) else (Failure(TimeoutError(s, timeoutMs)), p)
      case _ => (Failure(InvalidArgument), p)
    }

    /** `page.query_selector_all(selector)`: handles of all matches, in document order. */
    function QuerySelectorAll(selector: string): (out: (seq<nat>, PageState))
      ensures out.1 == Issue(Call.QuerySelectorAll(selector))
      ensures out.0 == Matches(doc.nodes, selector)
    {
      (Matches(doc.nodes, selector), Issue(Call.QuerySelectorAll(selector)))
    }

    /** `handle.click()` on a node of the document: a hidden node is waited
        for in vain, a visible one is clicked. */
    function HandleClick(k: nat): (out: (Result<()>, PageState))
      requires k < |doc.nodes|
      ensures out.1.web == web && out.1.log == log + [Call.HandleClick(k)]
      ensures out.0.Success? <==> doc.nodes[k].visible
      ensures out.0.Success? ==> out.1 == Issue(Call.HandleClick(k)).Activate(k)
      ensures out.0.Failure? ==> out.1 == Issue(Call.HandleClick(k))
    {
      var p := Issue(Call.HandleClick(k));
      if !doc.nodes[k].visible then (Failure(ActionTimeout), p)
      else (Success(()), p.Activate(k))
    }

    /** `handle.inner_text()` on a node of the document. */
    function HandleInnerText(k: nat): (out: (string, PageState))
      requires k < |doc.nodes|
      ensures out == (doc.nodes[k].text, Issue(Call.HandleInnerText(k)))
    {
      (doc.nodes[k].text, Issue(Call.HandleInnerText(k)))
    }

    /** The first match of a selector, the node a page-level action targets. */
    function FirstMatch(selector: string): (r: Option<nat>)
      ensures r.Some? <==> |Matches(doc.nodes, selector)| > 0
      ensures r.Some? ==> r.value == Matches(doc.nodes, selector)[0] && r.value < |doc.nodes|
    {
      var m := Matches(doc.nodes, selector);
      if m == [] then None else Some(m[0])
    }

    /** `page.click(selector)`: clicks the first match once it is visible. */
    function Click(selector: Value): (out: (Result<()>, PageState))
      ensures out.1.web == web && out.1.log == log + [Call.Click(selector)]
      ensures out.0.Success? <==> selector.VStr? && FirstMatch(selector.s).Some? && doc.nodes[FirstMatch(selector.s).value].visible
      ensures out.0.Success? ==> out.1 == Issue(Call.Click(selector)).Activate(FirstMatch(selector.s).value)
      ensures out.0.Failure? ==> out.1 == Issue(Call.Click(selector))
    {
      var p := Issue(Call.Click(selector));
      match selector
      case VStr(s) =>
        (match FirstMatch(s)
         case None => (Failure(ActionTimeout), p)
         case Some(k) => if doc.nodes[k].visible then (Success(()), p.Activate(k)) else (Failure(ActionTimeout), p))
      case _ => (Failure(InvalidArgument), p)
    }

    /** `page.fill(selector, value)`: types `value` into the first match once it is visible. */
    function Fill(selector: Value, value: Value): (out: (Result<()>, PageState))
      ensures out.1.web == web && out.1.url == url && out.1.log == log + [Call.Fill(selector, value)]
      ensures out.0.Success? <==> selector.VStr? && value.VStr? && FirstMatch(selector.s).Some? && doc.nodes[FirstMatch(selector.s).value].visible
      ensures out.0.Success? ==> out.1.doc.nodes == doc.nodes[FirstMatch(selector.s).value := doc.nodes[FirstMatch(selector.s).value].(value := value.s)]
      ensures out.0.Failure? ==> out.1.doc == doc
    {
      var p := Issue(Call.Fill(selector, value));
      match (selector, value)
      case (VStr(s), VStr(v)) =>
        (match FirstMatch(s)
         case None => (Failure(ActionTimeout), p)
         case Some(k) =>
           if doc.nodes[k].visible then (Success(()), p.(doc := Doc(doc.nodes[k := doc.nodes[k].(value := v)])))
           else (Failure(ActionTimeout), p))
      case _ => (Failure(InvalidArgument), p)
    }

    /** `page.inner_text(selector)`: the text of the first match. */
    function InnerText(selector: Value): (out: (Result<string>, PageState))
      ensures out.1 == Issue(Call.InnerText(selector))
      ensures out.0.Success? <==> selector.VStr? && FirstMatch(selector.s).Some?
      ensures out.0.Success? ==> out.0.value == doc.nodes[FirstMatch(selector.s).value].text
    {
      var p := Issue(Call.InnerText(selector));
      match selector
      case VStr(s) =>
        (match FirstMatch(s)
         case None => (Failure(ActionTimeout), p)
         case Some(k) => (Success(doc.nodes[k].text), p))
      case _ => (Failure(InvalidArgument), p)
    }
  }

  /** `time.sleep(seconds)`: a non-negative number is slept (and recorded),
      a negative one raises ValueError, any other value TypeError. */
  function SleepFor(slept: seq<real>, seconds: Value): (out: (Result<()>, seq<real>))
    ensures out.0.Success? <==> AsReal(seconds).Some? && AsReal(seconds).value >= 0.0
    ensures out.0.Success? ==> out.1 == slept + [AsReal(seconds).value]
    ensures out.0.Failure? ==> out.1 == slept
    ensures AsReal(seconds).None? ==> out.0 == Failure(TypeError)
    ensures AsReal(seconds).Some? && AsReal(seconds).value < 0.0 ==> out.0 == Failure(ValueError)
  {
    match AsReal(seconds)
    case None => (Failure(TypeError), slept)
    case Some(x) => if x < 0.0 then (Failure(ValueError), slept) else (Success(()), slept + [x])
  }

  /** The live page object. Its methods are the capability interface; each
      changes the state exactly as the matching `PageState` function says. */
  class Page {
    const web: map<string, Doc>
    var url: string
    var doc: Doc
    var log: seq<Call>

    function State(): PageState
      reads this
    {
      PageState(web, url, doc, log)
    }

    constructor (web: map<string, Doc>, url: string, doc: Doc)
      ensures State() == PageState(web, url, doc, [])
    {
      this.web := web;
      this.url := url;
      this.doc := doc;
      this.log := [];
    }

    method Become(p: PageState)
      requires p.web == web
      modifies this
      ensures State() == p
    {
      url, doc, log := p.url, p.doc, p.log;
    }

    method Goto(url: Value) returns (r: Result<()>)
      modifies this
      ensures (r, State()) == old(State()).Goto(url)
    {
      var out := State().Goto(url);
      r := out.0;
      Become(out.1);
    }

    method WaitForSelector(selector: Value, timeoutMs: nat) returns (r: Result<()>)
      modifies this
      ensures (r, State()) == old(State()).WaitForSelector(selector, timeoutMs)
    {
      var out := State().WaitForSelector(selector, timeoutMs);
      r := out.0;
      Become(out.1);
    }

    method QuerySelectorAll(selector: string) returns (r: seq<nat>)
      modifies this
      ensures (r, State()) == old(State()).QuerySelectorAll(selector)
    {
      var out := State().QuerySelectorAll(selector);
      r := out.0;
      Become(out.1);
    }

    method HandleClick(k: nat) returns (r: Result<()>)
      requires k < |doc.nodes|
      modifies this
      ensures (r, State()) == old(State()).HandleClick(k)
    {
      var out := State().HandleClick(k);
      r := out.0;
      Become(out.1);
    }

    method HandleInnerText(k: nat) returns (r: string)
      requires k < |doc.nodes|
      modifies this
      ensures (r, State()) == old(State()).HandleInnerText(k)
    {
      var out := State().HandleInnerText(k);
      r := out.0;
      Become(out.1);
    }

    method Click(selector: Value) returns (r: Result<()>)
      modifies this
      ensures (r, State()) == old(State()).Click(selector)
    {
      var out := State().Click(selector);
      r := out.0;
      Become(out.1);
    }

    method Fill(selector: Value, value: Value) returns (r: Result<()>)
      modifies this
      ensures (r, State()) == old(State()).Fill(selector, value)
    {
      var out := State().Fill(selector, value);
      r := out.0;
      Become(out.1);
    }

    method InnerText(selector: Value) returns (r: Result<string>)
      modifies this
      ensures (r, State()) == old(State()).InnerText(selector)
    {
      var out := State().InnerText(selector);
      r := out.0;
      Become(out.1);
    }
  }

  /** The process clock `time.sleep` suspends: the durations slept so far. */
  class Clock {
    var slept: seq<real>

    constructor ()
      ensures slept == []
    {
      slept := [];
    }

    method Sleep(seconds: Value) returns (r: Result<()>)
      modifies this
      ensures (r, slept) == SleepFor(old(slept), seconds)
    {
      var out := SleepFor(slept, seconds);
      r := out.0;
      slept := out.1;
    }
  }
}
