/** The loosely typed values a plan is made of (JSON as Python decodes it),
    the exceptions the interpreter can meet, and the few Python operators
    the interpreter applies to step fields: truthiness, `dict.get`,
    `x < len(xs)` and `xs[x]`. */
module PyValues {

  datatype Option<+T> = None | Some(value: T)

  /** A Python value as it can occur in a decoded JSON plan. Floats are
      modelled by their exact real value. */
  datatype Value =
    | VNone
    | VBool(b: bool)
    | VInt(i: int)
    | VFloat(r: real)
    | VStr(s: string)
    | VList(items: seq<Value>)
    | VDict(fields: map<string, Value>)

  /** Exceptions raised while validating or executing a step: Python's own
      and those the page-automation backend raises. */
  datatype PyError =
    | KeyError(key: string)                        // `d[key]` with `key` absent
    | AttributeError                               // `.get` on a value that is not a dict
    | TypeError                                    // wrong operand type, unhashable value
    | IndexError                                   // list index out of range
    | ValueError                                   // e.g. a negative sleep length
    | TimeoutError(selector: string, timeoutMs: nat) // an explicit selector wait expired
    | ActionTimeout                                // an element action waited for its target in vain
    | NavigationError(url: string)                 // the backend could not load a URL
    | InvalidArgument                              // the backend refused an argument of the wrong type

  /** An operation that either yields a value or raises. */
  datatype Result<+T> = Success(value: T) | Failure(error: PyError)

  /** Python's truth value of `v` (`if not v` is `!Truthy(v)`). */
  predicate Truthy(v: Value) {
    match v
    case VNone => false
    case VBool(b) => b
    case VInt(i) => i != 0
    case VFloat(r) => r != 0.0
    case VStr(s) => s != ""
    case VList(items) => items != []
    case VDict(fields) => fields != map[]
  }

  /** Lists and dicts are unhashable: `v in some_set` raises TypeError for them. */
  predicate Hashable(v: Value) {
    !v.VList? && !v.VDict?
  }

  /** `d.get(key, default)`. */
  function Get(fields: map<string, Value>, key: string, default: Value): Value {
    if key in fields then fields[key] else default
  }

  /** The number a bool, int or float stands for (bool is a subclass of int). */
  function AsReal(v: Value): Option<real> {
    match v
    case VBool(b) => Some(if b then 1.0 else 0.0)
    case VInt(i) => Some(i as real)
    case VFloat(r) => Some(r)
    case _ => None
  }

  /** `v < n` where `n` is a list length: numbers compare, anything else
      raises TypeError. */
  function LessThan(v: Value, n: nat): (r: Result<bool>)
    ensures r.Success? <==> AsReal(v).Some?
    ensures r.Success? ==> (r.value <==> AsReal(v).value < n as real)
    ensures r.Failure? ==> r.error == TypeError
  {
    match AsReal(v)
    case Some(x) => Success(x < n as real)
    case None => Failure(TypeError)
  }

  /** The position `xs[i]` designates in a list of length `n`: negative
      indices count from the end, anything outside `-n <= i < n` raises
      IndexError. */
  function Position(i: int, n: nat): (r: Result<nat>)
    ensures r.Success? <==> -(n as int) <= i < n
    ensures r.Success? ==> r.value < n && r.value as int == (if i >= 0 then i else n + i)
    ensures r.Failure? ==> r.error == IndexError
  {
    if 0 <= i < n then Success(i)
    else if -(n as int) <= i < 0 then Success(n + i)
    else Failure(IndexError)
  }

  /** The position `xs[v]` designates: ints and bools index, any other
      value (floats included) raises TypeError. */
  function Subscript(v: Value, n: nat): (r: Result<nat>)
    ensures r.Success? ==> r.value < n
    ensures v.VInt? ==> r == Position(v.i, n)
    ensures v.VBool? ==> r == Position(if v.b then 1 else 0, n)
    ensures !v.VInt? && !v.VBool? ==> r == Failure(TypeError)
  {
    match v
    case VInt(i) => Position(i, n)
    case VBool(b) => Position(if b then 1 else 0, n)
    case _ => Failure(TypeError)
  }
}
