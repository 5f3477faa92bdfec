/**
 * The JavaScript values the engine handles: request and response bodies,
 * route matchers, matcher options and the fields of serialized documents.
 * Numbers are integers; floating point values, NaN, symbols and bigints are
 * outside the model.
 */
module JsValues {

  /** An element of a `Uint8Array`. */
  type byte = x: int | 0 <= x < 256

  datatype Value =
    | Undefined
    | Null
    | Bool(b: bool)
    | Num(n: int)
    | Str(s: string)
    | Arr(items: seq<Value>)
      /** A plain object; `members` lists its own enumerable properties in enumeration order. */
    | Obj(members: seq<Member>)
    | RegExp(source: string, flags: string)
      /** An `ArrayBuffer` holding `bytes`. */
    | Binary(bytes: seq<byte>)
      /** A function, with its source text. */
    | Func(source: string)

  datatype Member = Member(key: string, value: Value)

  /** The result of JavaScript's `typeof`. */
  function TypeOf(v: Value): string
  {
    match v
    case Undefined => "undefined"
    case Null => "object"
    case Bool(_) => "boolean"
    case Num(_) => "number"
    case Str(_) => "string"
    case Arr(_) => "object"
    case Obj(_) => "object"
    case RegExp(_, _) => "object"
    case Binary(_) => "object"
    case Func(_) => "function"
  }

  /** JavaScript truthiness: what `if (v)` accepts. */
  predicate Truthy(v: Value)
  {
    match v
    case Undefined => false
    case Null => false
    case Bool(b) => b
    case Num(n) => n != 0
    case Str(s) => s != ""
    case _ => true
  }

  /** The values `??` and `?.` treat as missing. */
  predicate Nullish(v: Value)
  {
    v.Undefined? || v.Null?
  }

  /** Property read `v[key]` on a value that is not nullish; only plain objects carry named properties here. */
  function Get(v: Value, key: string): Value
  {
    match v
    case Obj(members) => Lookup(members, key)
    case _ => Undefined
  }

  function Lookup(members: seq<Member>, key: string): Value
  {
    if |members| == 0 then Undefined
    else if members[0].key == key then members[0].value
    else Lookup(members[1..], key)
  }

  /** `a ?? b` */
  function Coalesce(a: Value, b: Value): Value
  {
    if Nullish(a) then b else a
  }
}
