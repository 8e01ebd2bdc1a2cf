/**
 * The dynamic values the JavaScript utilities receive: primitives, arrays
 * and plain objects. Numbers are the integer-valued ones of `JsNumbers`.
 * Arrays and objects are values here, without identity: two of them are
 * never `===`.
 */
module JsValues {
  import opened Wrappers
  import opened Strings
  import opened JsNumbers
  import opened JsObjects

  datatype Value =
    | Undefined
    | Null
    | Bool(b: bool)
    | Number(n: Num)
    | Str(s: string)
    | Arr(items: seq<Value>)
    | Obj(fields: Entries<Value>)

  /** A primitive: what a database column or a `Set` of codes holds here. */
  type Prim = v: Value | !v.Arr? && !v.Obj? witness Undefined

  /** `v === null || v === undefined` (what `v == null` and `??` test). */
  predicate IsNullish(v: Value) {
    v.Undefined? || v.Null?
  }

  /** ToBoolean: `undefined`, `null`, `false`, `0`, `NaN` and `""` are falsy. */
  predicate Truthy(v: Value) {
    match v
    case Undefined => false
    case Null => false
    case Bool(b) => b
    case Number(n) => JsNumbers.Truthy(n)
    case Str(s) => s != ""
    case Arr(_) => true
    case Obj(_) => true
  }

  /** `a || b`. */
  function Or(a: Value, b: Value): (r: Value)
    ensures Truthy(a) ==> r == a
    ensures !Truthy(a) ==> r == b
  {
    if Truthy(a) then a else b
  }

  /** `a ?? b`. */
  function Coalesce(a: Value, b: Value): (r: Value)
    ensures !IsNullish(a) ==> r == a
    ensures IsNullish(a) ==> r == b
  {
    if IsNullish(a) then b else a
  }

  /** `a === b`: same type and same primitive value; NaN equals nothing. */
  predicate StrictEquals(a: Value, b: Value) {
    match (a, b)
    case (Undefined, Undefined) => true
    case (Null, Null) => true
    case (Bool(x), Bool(y)) => x == y
    case (Number(x), Number(y)) => JsNumbers.StrictEquals(x, y)
    case (Str(x), Str(y)) => x == y
    case _ => false
  }

  /**
   * SameValueZero, the equality of `Set`, `Map` and `includes`: like `===`
   * except that NaN equals NaN.
   */
  predicate SameValueZero(a: Value, b: Value) {
    StrictEquals(a, b) || (a == Number(NaN) && b == Number(NaN))
  }

  /** On primitives `===` is equality, except that NaN equals nothing. */
  lemma StrictEqualsPrim(a: Prim, b: Prim)
    ensures StrictEquals(a, b) <==> a == b && a != Number(NaN)
  {
  }

  /** `xs.includes(x)`: SameValueZero membership. */
  predicate Includes(xs: seq<Value>, x: Value) {
    exists i | 0 <= i < |xs| :: SameValueZero(xs[i], x)
  }

  /** A primitive is SameValueZero-equal exactly to itself. */
  lemma SameValueZeroPrimitive(a: Value, b: Value)
    requires !a.Arr? && !a.Obj?
    ensures SameValueZero(a, b) <==> a == b
  {
  }

  /**
   * `String(v)`: an array is the comma-join of its elements, where `null`
   * and `undefined` elements are empty; a plain object is
   * `[object Object]`.
   */
  function ToText(v: Value): (s: string)
    ensures v.Str? ==> s == v.s
    ensures v.Number? ==> s == JsNumbers.ToText(v.n)
    ensures v.Undefined? ==> s == "undefined"
    ensures v.Null? ==> s == "null"
    decreases v
  {
    match v
    case Undefined => "undefined"
    case Null => "null"
    case Bool(b) => if b then "true" else "false"
    case Number(n) => JsNumbers.ToText(n)
    case Str(s) => s
    case Arr(items) => Join(seq(|items|, i requires 0 <= i < |items| => if IsNullish(items[i]) then "" else ToText(items[i])), ",")
    case Obj(_) => "[object Object]"
  }

  /** `Number(v)`. */
  function ToNumber(v: Value): (n: Num)
    ensures v.Number? ==> n == v.n
    ensures v.Str? ==> n == StringToNumber(v.s)
    ensures v.Undefined? ==> n == NaN
    ensures v.Null? ==> n == Int(0)
  {
    match v
    case Undefined => NaN
    case Null => Int(0)
    case Bool(b) => Int(if b then 1 else 0)
    case Number(n) => n
    case Str(s) => StringToNumber(s)
    case Arr(_) => StringToNumber(ToText(v))
    case Obj(_) => NaN
  }

  /** `o.k` (and `o?.k` when `o` is not nullish); reading a property of `null` or `undefined` throws. */
  function Field(o: Value, k: string): (r: Result<Value>)
    ensures r.Err? <==> IsNullish(o)
    ensures o.Obj? ==> r == Ok(Prop(o.fields, k))
  {
    match o
    case Undefined => Err("TypeError: Cannot read properties of undefined")
    case Null => Err("TypeError: Cannot read properties of null")
    case Obj(fs) => Ok(Prop(fs, k))
    case _ => Ok(Undefined)
  }

  /** `o?.k`: `undefined` when `o` is nullish. */
  function OptField(o: Value, k: string): (r: Value)
    ensures IsNullish(o) ==> r == Undefined
    ensures !IsNullish(o) ==> Ok(r) == Field(o, k)
  {
    match Field(o, k)
    case Err(_) => Undefined
    case Ok(x) => x
  }

  /** Property lookup `o.k` on a value already known to be an object. */
  function Prop(o: Entries<Value>, k: string): (r: Value)
    ensures k !in Keys(o) ==> r == Undefined
    ensures Get(o, k).Some? ==> r == Get(o, k).value
  {
    match Get(o, k)
    case Some(x) => x
    case None => Undefined
  }

  /** `Object.entries(v)`: an object's own entries, an array's or a string's by index, nothing for other primitives. */
  function EntriesOf(v: Value): Entries<Value> {
    match v
    case Obj(fs) => fs
    case Arr(items) => seq(|items|, i requires 0 <= i < |items| => (NatToString(i), items[i]))
    case Str(s) => seq(|s|, i requires 0 <= i < |s| => (NatToString(i), Str([s[i]])))
    case _ => []
  }

  /** Reading back the text of an integer gives the integer. */
  lemma NumberOfText(i: int)
    ensures ToNumber(Str(ToText(Number(Int(i))))) == Number(Int(i)).n
  {
    StringToNumberOfText(i);
  }
}
