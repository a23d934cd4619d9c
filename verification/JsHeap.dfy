/** JavaScript values as the glue of Source/JavaScriptGlue sees them, and the CF values
    that it builds from them. The heap is fixed during one conversion. */
module JsHeap {

  type Int32 = n: int | -0x8000_0000 <= n < 0x8000_0000

  /** A double; the two zeros are one value. */
  datatype Double = NaN | Infinite(negative: bool) | Finite(value: real)

  datatype Value =
    | Empty | Undefined | Null
    | Bool(b: bool) | Str(s: string) | Num(d: Double)
    | Obj(id: nat)

  /** What CopyCFValue of the user object behind a UserObjectImp has to offer: no
      callback result, an existing CF object, or the conversion of a wrapped JS value. */
  datatype Backing = Nothing | Data(ref: nat) | Wrapped(value: Value)

  /** How JSUserObject tags its data: kJSUserObjectDataTypeUnknown, ...JSValueWrapper, ...CFType. */
  datatype DataType = Unknown | JSValueWrapper | CFType

  datatype Cell =
    | User(backing: Backing, dataType: DataType)
    | Plain(className: string, elements: seq<Value>, names: seq<string>, props: map<string, Value>)

  /** `assoc` is the flag kJSFlagConvertAssociativeArray; `cast` gives the C++ conversion
      of a double to int where the value does not fit, which the language leaves open. */
  datatype World = World(cells: map<nat, Cell>, assoc: bool, cast: Double -> Int32)

  datatype CFNumber = IntNumber(n: int) | DoubleNumber(d: Double)

  /** `NoValue` is the null pointer, `NullRef` the object that GetCFNull returns. */
  datatype CF =
    | NoValue | NullRef
    | Boolean(b: bool) | String(s: string) | Number(number: CFNumber)
    | Existing(ref: nat)
    | Array(elements: seq<CF>) | Dictionary(entries: map<string, CF>)

  // ----- Numbers -----

  function Truncate(r: real): int {
    if r >= 0.0 then r.Floor else -((-r).Floor)
  }

  function ToInteger(d: Double): Double {
    match d
    case NaN => Finite(0.0)
    case Infinite(_) => d
    case Finite(r) => Finite(Truncate(r) as real)
  }

  function CastToInt(w: World, d: Double): Int32 {
    if d.Finite? && -0x8000_0000 <= Truncate(d.value) < 0x8000_0000 then Truncate(d.value) else w.cast(d)
  }

  function NumberToCF(w: World, d: Double): CFNumber {
    if d == ToInteger(d) then IntNumber(CastToInt(w, ToInteger(d))) else DoubleNumber(d)
  }

  // ----- Objects -----

  datatype Key = Index(i: nat) | Name(s: string)

  predicate AllDigits(s: string) { forall i :: 0 <= i < |s| ==> '0' <= s[i] <= '9' }

  /** Whether a plain object becomes an array: with the flag set, only if every
      property name consists of digits. */
  predicate AsArray(w: World, c: Cell)
    requires c.Plain?
  {
    c.className == "Array" && (w.assoc ==> forall i :: 0 <= i < |c.names| ==> AllDigits(c.names[i]))
  }

  function NamedKids(names: seq<string>, props: map<string, Value>): seq<(Key, Value)> {
    if names == [] then []
    else (if names[0] in props then [(Name(names[0]), props[names[0]])] else []) + NamedKids(names[1..], props)
  }

  /** The components that the conversion visits, in order. */
  function Kids(w: World, c: Cell): seq<(Key, Value)>
    requires c.Plain?
  {
    if AsArray(w, c) then seq(|c.elements|, (i: int) requires 0 <= i < |c.elements| => (Index(i), c.elements[i]))
    else NamedKids(c.names, c.props)
  }

  function Leaf(w: World, v: Value): CF
    requires !v.Obj?
  {
    match v
    case Empty => NoValue
    case Undefined => NullRef
    case Null => NullRef
    case Bool(b) => Boolean(b)
    case Str(s) => String(s)
    case Num(d) => Number(NumberToCF(w, d))
  }

  /** CFDictionaryAddValue: an existing key keeps its value; null values are skipped. */
  function AddValue(m: map<string, CF>, k: string, t: CF): map<string, CF> {
    if t == NoValue || k in m then m else m[k := t]
  }

  /** Nesting depth, a leaf counting one. */
  ghost predicate DepthAtMost(t: CF, n: nat)
    decreases n
  {
    n >= 1 &&
    match t
    case Array(ts) => forall i :: 0 <= i < |ts| ==> DepthAtMost(ts[i], n - 1)
    case Dictionary(m) => forall k :: k in m ==> DepthAtMost(m[k], n - 1)
    case _ => true
  }
}
