/** Values, exceptions and completions of the JavaScript runtime, as far as the library's code
    observes them.  Functions of the library that "throw" return a `Completion` instead. */
module JsValues {

  datatype Option<+T> = None | Some(value: T)

  /** A JavaScript value as the validators see it.  Numbers are integers (floating point, NaN
      and the infinities are not modelled).  `Obj` is any non-null object, given by its own
      enumerable string-keyed properties. */
  datatype Value =
    | Undefined
    | Null
    | Bool(b: bool)
    | Num(n: int)
    | Str(s: string)
    | Obj(fields: map<string, Value>)

  /** `typeof v` (note that `typeof null` is "object"). */
  function TypeOf(v: Value): string {
    match v
    case Undefined => "undefined"
    case Null => "object"
    case Bool(_) => "boolean"
    case Num(_) => "number"
    case Str(_) => "string"
    case Obj(_) => "object"
  }

  /** `!!v`: undefined, null, false, 0 and "" are the falsy values. */
  predicate Truthy(v: Value) {
    match v
    case Undefined => false
    case Null => false
    case Bool(b) => b
    case Num(n) => n != 0
    case Str(s) => s != ""
    case Obj(_) => true
  }

  /** `o[key]` on a plain object: a key that is not an own property reads as `undefined`
      (members inherited from Object.prototype are not modelled). */
  function Get(fields: map<string, Value>, key: string): Value {
    if key in fields then fields[key] else Undefined
  }

  /** The exceptions the library can raise. */
  datatype Exception =
      /** the built-in `Error` */
    | Error(message: string)
      /** a `TypeError` raised by the engine itself: a property read on null or undefined,
          a call of something that is not a function, `new` on something that is not a
          constructor; its engine-specific message is not modelled */
    | TypeError
      /** src/utils/validator/error.ts */
    | ValidationError(message: string)
      /** src/utils/jwt/errors.ts */
    | InvalidJwt(message: string)
    | ExpiredJwt(message: string)
    | DirtyJwtSignature(message: string)
    | BadJwtHeader(message: string)
    | BadJwtClaim(message: string)

  /** How a call completes: with a result, or by throwing. */
  datatype Completion<+T> = Normal(value: T) | Throw(exception: Exception)
}
