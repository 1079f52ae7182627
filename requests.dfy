/**
 * The request side of the route handlers: the JSON body, object
 * destructuring of one property (`const { extension } = await
 * request.json()`), and the JavaScript truthiness and `typeof` tests the
 * handlers assert on.
 */
module Requests {
  import opened Optional
  import opened Assertions

  /** A parsed JSON value. Numbers are kept as reals; JSON has no NaN. */
  datatype Json =
    | JNull
    | JBool(b: bool)
    | JNumber(n: real)
    | JString(s: string)
    | JArray(items: seq<Json>)
    | JObject(fields: map<string, Json>)

  /** What destructuring one property yields: `undefined`, or a JSON value. */
  datatype Property = Undefined | Defined(value: Json)

  /**
   * `const { key } = await request.json()`, where `body` is `None` when the
   * request body is not valid JSON. An unparsable body makes `json()`
   * throw; destructuring `null` throws a `TypeError`; every other value
   * gives the property when it is an own key of an object and `undefined`
   * otherwise.
   */
  function Destructure(body: Option<Json>, key: string): (r: Outcome<Property>)
    ensures body.None? ==> r == Threw(Unexpected(MalformedJson))
    ensures body == Some(JNull) ==> r == Threw(Unexpected(NullDestructured))
    ensures r.Returned? && r.value.Defined? ==> body.Some? && body.value.JObject? && key in body.value.fields
    ensures body.Some? && body.value.JObject? && key in body.value.fields ==>
      r == Returned(Defined(body.value.fields[key]))
    ensures body.Some? && body.value != JNull ==> r.Returned?
    ensures r.Returned? ==> (r.value.Defined? <==> body.value.JObject? && key in body.value.fields)
  {
    match body
    case None => Threw(Unexpected(MalformedJson))
    case Some(JNull) => Threw(Unexpected(NullDestructured))
    case Some(JObject(fields)) => Returned(if key in fields then Defined(fields[key]) else Undefined)
    case Some(_) => Returned(Undefined)
  }

  /** JavaScript truthiness (`!!x`) of a destructured property. */
  predicate Truthy(p: Property)
  {
    match p
    case Undefined => false
    case Defined(JNull) => false
    case Defined(JBool(b)) => b
    case Defined(JNumber(n)) => n != 0.0
    case Defined(JString(s)) => s != []
    case Defined(_) => true
  }

  /** `typeof x === "string"`. */
  predicate IsString(p: Property)
  {
    p.Defined? && p.value.JString?
  }

  /** `typeof x === "boolean"`. */
  predicate IsBoolean(p: Property)
  {
    p.Defined? && p.value.JBool?
  }

  /** The handlers' `!!x && typeof x === "string"`: the property is a string and that string is not empty. */
  predicate IsNonEmptyString(p: Property)
  {
    Truthy(p) && IsString(p)
  }

  /** The parsed body is an object whose `key` is a non-empty string: what the handlers' first assert lets through. */
  predicate HasNonEmptyString(body: Json, key: string)
  {
    body.JObject? && key in body.fields && body.fields[key].JString? && body.fields[key].s != []
  }

  /** The parsed body is an object whose `key` is a boolean. */
  predicate HasBoolean(body: Json, key: string)
  {
    body.JObject? && key in body.fields && body.fields[key].JBool?
  }

  /** Of all JSON values, a truthy string is exactly a non-empty string. */
  lemma NonEmptyStringIff(p: Property)
    ensures IsNonEmptyString(p) <==> exists s :: p == Defined(JString(s)) && |s| > 0
  {
    if p.Defined? && p.value.JString? && |p.value.s| > 0 {
      assert p == Defined(JString(p.value.s));
    }
  }

  /** `false` passes the boolean test though it is not truthy, and the string "false" does not pass it. */
  lemma BooleanTestIsByType()
    ensures IsBoolean(Defined(JBool(false))) && !Truthy(Defined(JBool(false)))
    ensures !IsBoolean(Defined(JString("false"))) && Truthy(Defined(JString("false")))
  {
  }
}
