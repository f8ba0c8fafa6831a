/** The message script.js throws when the playlist proxy answers with a non-ok
    status (`analyzePlaylist`, web/script.js lines 37-45): the status text, unless
    the body parses as JSON and its `error` member, or that member's `message`,
    is truthy.

    JSON values are modelled with JavaScript's notions of truthiness, member access
    (which throws a TypeError on `null`), optional chaining and `||`. */
module WebErrors {
  import opened Common

  /** A JSON value as JavaScript sees it after `JSON.parse`. Numbers are integers
      here. Arrays are left out: `String` of an array joins its elements with
      commas, which no case below gives. */
  datatype JsValue =
    | Undefined
    | Null
    | Bool(b: bool)
    | Num(n: int)
    | Str(s: string)
    | Obj(fields: map<string, JsValue>)

  /** The body of an error response: text `JSON.parse` accepts, or text it rejects. */
  datatype Body = Json(value: JsValue) | NotJson

  /** The outcome of evaluating a JavaScript expression: a value or a thrown TypeError. */
  datatype Completion = Normal(value: JsValue) | TypeError

  predicate Truthy(v: JsValue)
  {
    match v
    case Undefined => false
    case Null => false
    case Bool(b) => b
    case Num(n) => n != 0
    case Str(s) => s != ""
    case Obj(_) => true
  }

  predicate Nullish(v: JsValue)
  {
    v.Undefined? || v.Null?
  }

  /** A field of an object, `undefined` when the object lacks it or is not an object. */
  function Field(v: JsValue, name: string): JsValue
  {
    if v.Obj? && name in v.fields then v.fields[name] else Undefined
  }

  /** `v.name`: a TypeError on `null` and `undefined`. */
  function Member(v: JsValue, name: string): (c: Completion)
    ensures c.TypeError? <==> Nullish(v)
    ensures c.Normal? ==> c.value == Field(v, name)
  {
    match v
    case Undefined => TypeError
    case Null => TypeError
    case Obj(fields) => Normal(if name in fields then fields[name] else Undefined)
    case _ => Normal(Undefined)
  }

  /** `v?.name`: `undefined` on `null` and `undefined`, never a TypeError. */
  function OptionalMember(v: JsValue, name: string): (c: Completion)
    ensures c == Normal(Field(v, name))
  {
    if Nullish(v) then Normal(Undefined) else Member(v, name)
  }

  /** `a || b` */
  function Or(a: JsValue, b: JsValue): JsValue
  {
    if Truthy(a) then a else b
  }

  /** `String(v)` for the values a message can be. */
  function ToText(v: JsValue): string
  {
    match v
    case Undefined => "undefined"
    case Null => "null"
    case Bool(b) => if b then "true" else "false"
    case Num(n) => Decimal(n)
    case Str(s) => s
    case Obj(_) => "[object Object]"
  }

  /** `new Error(v).message`: the empty string for `undefined`, otherwise `String(v)`. */
  function ErrorText(v: JsValue): string
  {
    if v.Undefined? then "" else ToText(v)
  }

  /** The message of the Error thrown for a non-ok response with the given status
      text and body, evaluated as the statement sequence of lines 39-44 runs. */
  function ErrorMessage(statusText: string, body: Body): (m: string)
    // text that is not JSON, and JSON whose top level is null, keep the status text
    ensures body.NotJson? || Nullish(body.value) ==> m == statusText
    // otherwise the first truthy of error.message, error, and the status text
    ensures body.Json? && !Nullish(body.value) ==>
      var error := Field(body.value, "error");
      var message := Field(error, "message");
      m == if Truthy(message) then ToText(message)
           else if Truthy(error) then ToText(error)
           else statusText
  {
    var fallback := Str(statusText);
    match body
    case NotJson => ErrorText(fallback)
    case Json(err) =>
      match Member(err, "error")
      case TypeError => ErrorText(fallback)
      case Normal(error) =>
        var chosen := Or(Or(OptionalMember(error, "message").value, error), fallback);
        ErrorText(chosen)
  }

  /** The Spotify Web API's error object `{"error": {"status": 404, "message": ...}}`
      yields its message. */
  lemma ApiErrorMessage(statusText: string, status: int, message: string)
    requires message != ""
    ensures ErrorMessage(statusText,
              Json(Obj(map["error" := Obj(map["status" := Num(status), "message" := Str(message)])])))
            == message
  {
  }

  /** The proxy's own error object `{"error": "Missing playlist_id"}` yields the string. */
  lemma ProxyErrorMessage(statusText: string, error: string)
    requires error != ""
    ensures ErrorMessage(statusText, Json(Obj(map["error" := Str(error)]))) == error
  {
  }
}
