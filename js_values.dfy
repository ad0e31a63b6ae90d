/** The part of JavaScript's value semantics that the note handlers depend on. */
module JsValues {

  /**
   * A field of a parsed JSON request body. A field the body does not have reads as
   * `Undefined`. JSON text has no NaN literal, so NaN does not arise; an overflowing
   * literal (Infinity) matters here only as a truthy number.
   */
  datatype JsValue =
    | Undefined
    | Null
    | Bool(b: bool)
    | Number(x: real)
    | Str(s: string)
    | Array(items: seq<JsValue>)
    | Object(fields: map<string, JsValue>)

  /** JavaScript truthiness: `undefined`, `null`, `false`, `0` and `""` are falsy, everything else is truthy. */
  predicate Truthy(v: JsValue): (t: bool)
    ensures !t <==> v in {Undefined, Null, Bool(false), Number(0.0), Str("")}
  {
    match v
    case Undefined => false
    case Null => false
    case Bool(b) => b
    case Number(x) => x != 0.0
    case Str(s) => s != ""
    case Array(_) => true
    case Object(_) => true
  }

  /** The expression `a || b`: yields one of its operands, truthy exactly when either operand is. */
  function Or(a: JsValue, b: JsValue): (r: JsValue)
    ensures r == a || r == b
    ensures Truthy(r) <==> Truthy(a) || Truthy(b)
    ensures Truthy(a) ==> r == a
    ensures !Truthy(a) ==> r == b
  {
    if Truthy(a) then a else b
  }
}
