/**
  The JavaScript values an injector stores, reduced to what the lookups observe:
  which of them are falsy. Objects, functions and classes are all `Obj`, and so
  are Symbols, which are always truthy; numbers are integers (NaN and -0 are
  not modelled, and a non-zero BigInt, always truthy, behaves as a non-zero `Num`).
 */
module JsValue {

  datatype Value =
    | Undefined
    | Null
    | Bool(b: bool)
    | Num(n: int)
    | Str(s: string)
    | Obj(id: nat)

  /** The five falsy values that remain once NaN, -0 and 0n are set aside. */
  predicate Falsy(v: Value) {
    v in {Undefined, Null, Bool(false), Num(0), Str("")}
  }

  /**
    The ToBoolean conversion of section 7.1.2 of ECMA-262, type by type; this is
    what `!instance` negates.
   */
  function ToBoolean(v: Value): (b: bool)
    ensures !b <==> Falsy(v)
  {
    match v
    case Undefined => false
    case Null => false
    case Bool(x) => x
    case Num(n) => n != 0
    case Str(s) => |s| > 0
    case Obj(_) => true
  }
}
