/** The untyped values the validators receive (what `JSON.parse` produces,
    plus `undefined` for a property that is not there) and the few
    JavaScript operations the validators apply to them. */
module Js {
  import opened Strings

  /** A JavaScript value as produced by `JSON.parse`, plus `Undefined`.
      A number carries its `String()` rendering: nothing here computes with it.
      An object's fields are listed in the order `Object.keys` enumerates them. */
  datatype Json =
    | Undefined
    | Null
    | Bool(b: bool)
    | Number(text: string)
    | Str(s: string)
    | Array(elems: seq<Json>)
    | Object(fields: seq<(string, Json)>)

  /** How evaluating an expression ends: with a value, or by throwing. */
  datatype Completion<T> = Normal(value: T) | Thrown(error: string)

  datatype Option<T> = None | Some(value: T)

  /** The error JavaScript throws when a property of `null` or `undefined` is read. */
  const TypeError := "TypeError"

  /** The `typeof` operator: `null` and arrays are both "object". */
  function TypeOf(v: Json): (r: string)
    ensures r == "object" <==> v.Null? || v.Array? || v.Object?
    ensures r == "string" <==> v.Str?
    ensures r == "boolean" <==> v.Bool?
    ensures r == "undefined" <==> v.Undefined?
  {
    match v
    case Undefined => "undefined"
    case Null => "object"
    case Bool(_) => "boolean"
    case Number(_) => "number"
    case Str(_) => "string"
    case Array(_) => "object"
    case Object(_) => "object"
  }

  predicate IsNullish(v: Json) {
    v.Null? || v.Undefined?
  }

  /** The first field named `key`, or `Undefined`. */
  function Lookup(fields: seq<(string, Json)>, key: string): (r: Json)
    ensures r != Undefined ==> exists i :: 0 <= i < |fields| && fields[i] == (key, r)
    ensures (forall i :: 0 <= i < |fields| ==> fields[i].0 != key) ==> r == Undefined
  {
    if |fields| == 0 then Undefined
    else if fields[0].0 == key then fields[0].1
    else Lookup(fields[1..], key)
  }

  /** Property access `v.key` on a value that is not `null` or `undefined`.
      Only own fields of objects are seen: the names the validators read
      (`version`, `iab`, `source`, `purposes`, `browserId`) are no inherited
      property, and no property of an array, a string or a primitive. */
  function Prop(v: Json, key: string): Json {
    if v.Object? then Lookup(v.fields, key) else Undefined
  }

  /** Property access `v.key`: throws on `null` and `undefined`. */
  function Get(v: Json, key: string): (r: Completion<Json>)
    ensures r.Thrown? <==> IsNullish(v)
    ensures r.Normal? ==> r.value == Prop(v, key)
  {
    if IsNullish(v) then Thrown(TypeError) else Normal(Prop(v, key))
  }

  /** `Object.entries(v)`: the own enumerable properties. Arrays and strings
      enumerate their indices; `null` and `undefined` make it throw. */
  function OwnEntries(v: Json): (r: Completion<seq<(string, Json)>>)
    ensures r.Thrown? <==> IsNullish(v)
    ensures v.Object? ==> r == Normal(v.fields)
    ensures v.Array? ==>
              && r.Normal? && |r.value| == |v.elems|
              && forall i :: 0 <= i < |v.elems| ==> r.value[i] == (NatToString(i), v.elems[i])
  {
    match v
    case Undefined => Thrown(TypeError)
    case Null => Thrown(TypeError)
    case Bool(_) => Normal([])
    case Number(_) => Normal([])
    case Str(s) => Normal(seq(|s|, i requires 0 <= i < |s| => (NatToString(i), Str([s[i]]))))
    case Array(es) => Normal(seq(|es|, i requires 0 <= i < |es| => (NatToString(i), es[i])))
    case Object(fs) => Normal(fs)
  }

  /** The names of a list of fields, in order. */
  function Names(fields: seq<(string, Json)>): (r: seq<string>)
    ensures |r| == |fields| && forall i :: 0 <= i < |fields| ==> r[i] == fields[i].0
  {
    seq(|fields|, i requires 0 <= i < |fields| => fields[i].0)
  }

  /** The string-named properties every object inherits from `Object.prototype`
      (ECMAScript 2023, section 20.1.3 and Annex B.2.2). */
  const ObjectPrototypeNames: seq<string> :=
    ["constructor", "hasOwnProperty", "isPrototypeOf", "propertyIsEnumerable", "toLocaleString",
     "toString", "valueOf", "__proto__", "__defineGetter__", "__defineSetter__",
     "__lookupGetter__", "__lookupSetter__"]

  /** The string-named properties every array inherits from `Array.prototype`
      (ECMAScript 2023, section 23.1.3), besides those of `Object.prototype`. */
  const ArrayPrototypeNames: seq<string> :=
    ["at", "concat", "copyWithin", "entries", "every", "fill", "filter", "find", "findIndex",
     "findLast", "findLastIndex", "flat", "flatMap", "forEach", "includes", "indexOf", "join",
     "keys", "lastIndexOf", "map", "pop", "push", "reduce", "reduceRight", "reverse", "shift",
     "slice", "some", "sort", "splice", "toReversed", "toSorted", "toSpliced", "unshift",
     "values", "with"]

  /** `Object.keys(v)`: the names of the own enumerable properties, in order. */
  function OwnKeys(v: Json): (r: Completion<seq<string>>)
    ensures r.Thrown? <==> IsNullish(v)
    ensures v.Object? ==> r == Normal(Names(v.fields))
    ensures v.Array? ==>
              && r.Normal? && |r.value| == |v.elems|
              && forall i :: 0 <= i < |v.elems| ==> r.value[i] == NatToString(i)
  {
    match OwnEntries(v)
    case Thrown(e) => Thrown(e)
    case Normal(es) => Normal(Names(es))
  }

  /** `ToString(v)` throws. A parsed object with an own `toString` property
      cannot be converted: no JSON value is callable, so the conversion falls
      back to the inherited `valueOf`, which returns the object itself and not a
      primitive. An array converts through `join`, which converts each element
      that is not `null` or `undefined`. */
  predicate ToStringThrows(v: Json) {
    match v
    case Object(fs) => "toString" in Names(fs)
    case Array(es) => exists i :: 0 <= i < |es| && ToStringThrows(es[i])
    case _ => false
  }

  /** JavaScript's `ToString`, as a template literal `${v}` applies it:
      an array joins its elements with "," (with `null` and `undefined` as ""),
      a plain object renders as "[object Object]". */
  function Display(v: Json): (r: Completion<string>)
    ensures r.Thrown? <==> ToStringThrows(v)
    ensures r.Thrown? ==> r.error == TypeError
    decreases v, 1, 0
  {
    match v
    case Undefined => Normal("undefined")
    case Null => Normal("null")
    case Bool(b) => Normal(if b then "true" else "false")
    case Number(text) => Normal(text)
    case Str(s) => Normal(s)
    case Array(es) =>
      (match DisplayFrom(v, 0)
       case Thrown(e) => Thrown(e)
       case Normal(pieces) => Normal(Join(pieces, ",")))
    case Object(fs) => if "toString" in Names(fs) then Thrown(TypeError) else Normal("[object Object]")
  }

  /** The elements of array `v` from index `k` on, converted as `join` converts them,
      left to right: the first conversion that throws ends the join. */
  function DisplayFrom(v: Json, k: nat): (r: Completion<seq<string>>)
    requires v.Array? && k <= |v.elems|
    ensures r.Thrown? <==> exists i :: k <= i < |v.elems| && ToStringThrows(v.elems[i])
    ensures r.Thrown? ==> r.error == TypeError
    ensures r.Normal? ==> |r.value| == |v.elems| - k
    decreases v, 0, |v.elems| - k
  {
    if k == |v.elems| then Normal([])
    else
      var e := v.elems[k];
      var head := if IsNullish(e) then Normal("") else Display(e);
      match head
      case Thrown(err) => Thrown(err)
      case Normal(piece) =>
        match DisplayFrom(v, k + 1)
        case Thrown(err) => Thrown(err)
        case Normal(rest) => Normal([piece] + rest)
  }
}
