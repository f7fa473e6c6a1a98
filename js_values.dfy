/** The loosely typed values that come back from a contract call, with JavaScript's truthiness. */
module JsValues {
  import opened Wrappers
  import opened Errors

  /** A JSON-like JavaScript value. `Num` is an integral `number`, `BigInt` a `bigint`. */
  datatype JsValue =
    | Undefined
    | Null
    | Bool(b: bool)
    | Num(n: int)
    | BigInt(i: int)
    | Str(s: string)
    | Arr(elems: seq<JsValue>)
    | Obj(fields: map<string, JsValue>)

  /** `!v` in JavaScript: undefined, null, false, 0, 0n and "" are falsy; every array and object is truthy. */
  predicate Falsy(v: JsValue)
    ensures Nullish(v) ==> Falsy(v)
    ensures v.Arr? || v.Obj? ==> !Falsy(v)
    ensures v.Str? ==> (Falsy(v) <==> v.s == "")
  {
    match v
    case Undefined => true
    case Null => true
    case Bool(b) => !b
    case Num(n) => n == 0
    case BigInt(i) => i == 0
    case Str(s) => s == ""
    case Arr(_) => false
    case Obj(_) => false
  }

  predicate Nullish(v: JsValue) {
    v.Undefined? || v.Null?
  }

  /** `v.key`: a TypeError on null or undefined, `undefined` when an object lacks the key
      or the value is not an object. */
  function Property(v: JsValue, key: string): (r: Result<JsValue, Error>)
    ensures r.Failure? <==> Nullish(v)
    ensures r.Failure? ==> r.error == NullishProperty(key)
    ensures v.Obj? && key in v.fields ==> r == Success(v.fields[key])
    ensures !Nullish(v) && !(v.Obj? && key in v.fields) ==> r == Success(Undefined)
  {
    match v
    case Undefined => Failure(NullishProperty(key))
    case Null => Failure(NullishProperty(key))
    case Obj(fields) => Success(if key in fields then fields[key] else Undefined)
    case _ => Success(Undefined)
  }

  /** `a ?? b`: unlike `||`, a defined but falsy left side (0, 0n, "", false) is kept. */
  function Coalesce(a: JsValue, b: JsValue): (r: JsValue)
    ensures Nullish(a) ==> r == b
    ensures !Nullish(a) ==> r == a
  {
    if Nullish(a) then b else a
  }

  /** JSON.stringify throws a TypeError when it meets a `bigint` anywhere in the value. */
  predicate HoldsBigInt(v: JsValue) {
    match v
    case BigInt(_) => true
    case Arr(elems) => exists i :: 0 <= i < |elems| && HoldsBigInt(elems[i])
    case Obj(fields) => exists k :: k in fields && HoldsBigInt(fields[k])
    case _ => false
  }
}
