/** Python values, the exceptions the modelled code can raise, and the
    built-in conversions (`bool(x)`, `==`, `float(x)`, `int(x)`) that the
    capture-and-save code applies to its settings. */
module Py {

  datatype Option<+T> = None | Some(value: T)

  datatype Result<+T> = Ok(value: T) | Err(error: Error)

  /** The exceptions that can escape from the modelled code. None of them is
      caught inside the core: each one ends the current operation. */
  datatype Error =
    | TypeError       // float(None)
    | ValueError      // float("abc"), int("abc"), Path.relative_to outside its base
    | AttributeError  // .splitlines() on a setting that is not a string
    | FileNotFound    // reading or copying a file that does not exist
    | SameFileError   // shutil.copyfile onto its own source
    | IOError         // a searched file that cannot be opened or decoded

  /** A dynamically typed setting. Command-line defaults may be any of these;
      values read from a local configuration comment are always strings. */
  datatype Value = NoneV | StrV(s: string) | IntV(i: int) | FloatV(r: real) | BoolV(b: bool)

  /** Python truthiness of a setting (`if value:`). */
  predicate Truthy(v: Value)
  {
    match v
    case NoneV => false
    case StrV(s) => s != ""
    case IntV(i) => i != 0
    case FloatV(r) => r != 0.0
    case BoolV(b) => b
  }

  /** The numeric value of int, float and bool settings (True is 1). */
  function NumberOf(v: Value): Option<real>
  {
    match v
    case IntV(i) => Some(i as real)
    case FloatV(r) => Some(r)
    case BoolV(b) => Some(if b then 1.0 else 0.0)
    case _ => None
  }

  /** Python's `==` on two settings: numbers of different types compare by
      value (1 == 1.0 == True); None and strings only equal themselves. */
  predicate PyEq(v: Value, w: Value)
  {
    if NumberOf(v).Some? && NumberOf(w).Some? then NumberOf(v).value == NumberOf(w).value
    else v == w
  }

  lemma PyEqReflexive(v: Value)
    ensures PyEq(v, v)
  {
  }

  /** `==` is coarser than identity of the printed value: 1 == 1.0 although
      str(1) != str(1.0), so equal settings can have different hashes. */
  lemma PyEqCrossType()
    ensures PyEq(IntV(80), FloatV(80.0)) && IntV(80) != FloatV(80.0)
    ensures PyEq(BoolV(true), IntV(1)) && !PyEq(StrV("1"), IntV(1))
  {
  }

  /** Python's `float(v)`; string parsing is the given parser. */
  function FloatOf(v: Value, parse: string -> Option<real>): (r: Result<real>)
    ensures r.Err? <==> v.NoneV? || (v.StrV? && parse(v.s).None?)
    ensures v.NoneV? ==> r == Err(TypeError)
    ensures NumberOf(v).Some? ==> r == Ok(NumberOf(v).value)
  {
    match v
    case NoneV => Err(TypeError)
    case StrV(s) => if parse(s).Some? then Ok(parse(s).value) else Err(ValueError)
    case IntV(i) => Ok(i as real)
    case FloatV(x) => Ok(x)
    case BoolV(b) => Ok(if b then 1.0 else 0.0)
  }

  /** Truncation toward zero, as Python's int() applies to a float. */
  function Truncate(x: real): (n: int)
    ensures x >= 0.0 ==> n as real <= x < n as real + 1.0
    ensures x < 0.0 ==> n as real - 1.0 < x <= n as real
  {
    if x >= 0.0 then x.Floor else -((-x).Floor)
  }

  /** Python's `int(v)`; string parsing is the given parser. */
  function IntOf(v: Value, parse: string -> Option<int>): (r: Result<int>)
    ensures r.Err? <==> v.NoneV? || (v.StrV? && parse(v.s).None?)
    ensures v.IntV? ==> r == Ok(v.i)
  {
    match v
    case NoneV => Err(TypeError)
    case StrV(s) => if parse(s).Some? then Ok(parse(s).value) else Err(ValueError)
    case IntV(i) => Ok(i)
    case FloatV(x) => Ok(Truncate(x))
    case BoolV(b) => Ok(if b then 1 else 0)
  }
}
