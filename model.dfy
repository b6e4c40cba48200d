/** The earlier record model: fixed source and purpose lists, field
    predicates, a check that the required keys are present, and a
    `parseJson` that returns the parsed object itself or `null`. */
module LegacyModel {
  import opened Strings
  import opened Js

  /** The names of `enum SourceType`, in declaration order. */
  const SourceTypes: seq<string> := ["cmp-ui", "ios", "www", "support"]

  /** The names of `enum PurposeType`, in declaration order and with the enum's own spelling. */
  const PurposeTypes: seq<string> := ["essential", "performance", "functionality", "personaliseaAds"]

  /** The keys `validateObject` demands. */
  const RequiredKeys: seq<string> := ["iab", "version", "time"]

  /** `isValidSourceType(sourceType)`. */
  function IsValidSourceType(s: string): (b: bool)
    ensures b <==> s == "cmp-ui" || s == "ios" || s == "www" || s == "support"
  {
    s in SourceTypes
  }

  /** `isValidPurposeType(purposeType)`. */
  function IsValidPurposeType(s: string): (b: bool)
    ensures b <==> s == "essential" || s == "performance" || s == "functionality" || s == "personaliseaAds"
  {
    s in PurposeTypes
  }

  /** `isValidConsentString(base64ConsentString)`: `constructs(s)` holds when
      `new ConsentString(s)` returns normally; the object it returns is truthy. */
  function IsValidConsentString(s: string, constructs: string -> bool): (b: bool)
    ensures s == "" ==> !b
    ensures !constructs(s) ==> !b
    ensures s != "" && constructs(s) ==> b
  {
    if s == "" then false else constructs(s)
  }

  /** `keys.every(isValidPurposeType)`. */
  function EveryPurposeType(keys: seq<string>): (b: bool)
    ensures b <==> forall i :: 0 <= i < |keys| ==> IsValidPurposeType(keys[i])
  {
    if |keys| == 0 then true else IsValidPurposeType(keys[0]) && EveryPurposeType(keys[1..])
  }

  /** `values.every((value) => typeof value === 'boolean')`. */
  function EveryBoolean(es: seq<(string, Json)>): (b: bool)
    ensures b <==> forall i :: 0 <= i < |es| ==> es[i].1.Bool?
  {
    if |es| == 0 then true else TypeOf(es[0].1) == "boolean" && EveryBoolean(es[1..])
  }

  /** `isValidPurposes(purposeList)`: `Object.keys` and `Object.values` throw on `null`. */
  function IsValidPurposes(p: Json): (r: Completion<bool>)
    ensures r.Thrown? <==> IsNullish(p)
  {
    match OwnEntries(p)
    case Thrown(e) => Thrown(e)
    case Normal(es) => Normal(EveryPurposeType(Names(es)) && EveryBoolean(es))
  }

  /** An object's purposes are valid iff every key is a declared purpose and every value is boolean. */
  lemma IsValidPurposesObject(fields: seq<(string, Json)>)
    ensures IsValidPurposes(Object(fields)) ==
              Normal(forall i :: 0 <= i < |fields| ==> fields[i].0 in PurposeTypes && fields[i].1.Bool?)
  {
  }

  /** The empty object and the empty array are valid purposes; the current model's
      `personalisedAdvertising` is not one of the declared purposes. */
  lemma IsValidPurposesExamples()
    ensures IsValidPurposes(Object([])) == Normal(true)
    ensures IsValidPurposes(Array([])) == Normal(true)
    ensures IsValidPurposes(Object([("personalisedAdvertising", Bool(true))])) == Normal(false)
    ensures IsValidPurposes(Object([("essential", Bool(true)), ("performance", Bool(false))])) == Normal(true)
  {
    IsValidPurposesObject([("personalisedAdvertising", Bool(true))]);
    IsValidPurposesObject([("essential", Bool(true)), ("performance", Bool(false))]);
  }

  /** A non-empty array is never valid purposes: its first key is "0". */
  lemma NonEmptyArrayPurposesInvalid(es: seq<Json>)
    requires |es| > 0
    ensures IsValidPurposes(Array(es)) == Normal(false)
  {
    assert NatToString(0) == "0";
    assert Names(OwnEntries(Array(es)).value)[0] == "0";
  }

  /** `isValidBrowserId(browserId)`. */
  function IsValidBrowserId(s: string): (b: bool)
    ensures b <==> exists i :: 0 <= i < |s| && !IsWhitespace(s[i])
  {
    TrimNonEmpty(s);
    |Trim(s)| > 0
  }

  /** `key in value`: the own keys of an object or, failing that, the names it
      inherits; "length", the indices and the inherited names of an array; any
      other value makes `in` throw. */
  function HasKey(v: Json, key: string): (r: Completion<bool>)
    ensures r.Thrown? <==> !(v.Object? || v.Array?)
    ensures r.Thrown? ==> r.error == TypeError
    ensures v.Object? ==> r == Normal(key in Names(v.fields) || key in ObjectPrototypeNames)
    ensures v.Array? && (key == "length" || key in ArrayPrototypeNames || key in ObjectPrototypeNames) ==> r == Normal(true)
  {
    match v
    case Object(fs) => Normal(key in Names(fs) || key in ObjectPrototypeNames)
    case Array(es) =>
      Normal(|| key == "length" || key in ArrayPrototypeNames || key in ObjectPrototypeNames
             || exists i :: 0 <= i < |es| && key == NatToString(i))
    case _ => Thrown(TypeError)
  }

  /** An inherited name is found in every object and every array, even one without own keys. */
  lemma InheritedNamesFound(key: string)
    requires key in ObjectPrototypeNames
    ensures HasKey(Object([]), key) == Normal(true)
    ensures HasKey(Array([]), key) == Normal(true)
  {
  }

  /** An array has "length" and each of its indices. */
  lemma ArrayOwnNamesFound(es: seq<Json>, i: nat)
    requires i < |es|
    ensures HasKey(Array(es), "length") == Normal(true)
    ensures HasKey(Array(es), NatToString(i)) == Normal(true)
  {
  }

  /** None of the required keys is inherited, and none is "length" or an index. */
  lemma RequiredKeysNotInherited()
    ensures forall k :: k in RequiredKeys ==> k !in ObjectPrototypeNames && k !in ArrayPrototypeNames && k != "length"
    ensures forall k, i: nat :: k in RequiredKeys ==> k != NatToString(i)
  {
    forall k, i: nat | k in RequiredKeys ensures k != NatToString(i) {
      assert 'i' in k;
      assert 'i' !in NatToString(i);
    }
  }

  /** For a required key, `in` sees just the own keys of an object; an array never has one. */
  lemma {:induction false} HasRequiredKey(v: Json, key: string)
    requires key in RequiredKeys
    ensures v.Object? ==> HasKey(v, key) == Normal(key in Names(v.fields))
    ensures v.Array? ==> HasKey(v, key) == Normal(false)
  {
    RequiredKeysNotInherited();
  }

  /** `keys.every((key) => key in v)`: stops at the first absent key. */
  function EveryKeyIn(keys: seq<string>, v: Json): (r: Completion<bool>)
    ensures |keys| > 0 && !(v.Object? || v.Array?) ==> r.Thrown?
    ensures r.Thrown? ==> r.error == TypeError
    ensures v.Object? || v.Array? ==> r == Normal(forall i :: 0 <= i < |keys| ==> HasKey(v, keys[i]) == Normal(true))
  {
    if |keys| == 0 then Normal(true)
    else
      match HasKey(v, keys[0])
      case Thrown(e) => Thrown(e)
      case Normal(b) => if b then EveryKeyIn(keys[1..], v) else Normal(false)
  }

  /** `validateObject(jsonObject)`: an object passes iff it has the keys "iab",
      "version" and "time" itself; an array never does; anything else throws. */
  function ValidateObject(o: Json): (r: Completion<bool>)
    ensures o.Object? ==> r == Normal("iab" in Names(o.fields) && "version" in Names(o.fields) && "time" in Names(o.fields))
    ensures o.Array? ==> r == Normal(false)
    ensures !(o.Object? || o.Array?) ==> r.Thrown?
  {
    assert RequiredKeys[0] == "iab" && RequiredKeys[1] == "version" && RequiredKeys[2] == "time";
    HasRequiredKey(o, "iab");
    HasRequiredKey(o, "version");
    HasRequiredKey(o, "time");
    EveryKeyIn(RequiredKeys, o)
  }

  /** Only the keys count: two objects with the same keys in the same order are judged alike, whatever their values. */
  lemma ValidateObjectIgnoresValues(fs: seq<(string, Json)>, gs: seq<(string, Json)>)
    requires Names(fs) == Names(gs)
    ensures ValidateObject(Object(fs)) == ValidateObject(Object(gs))
  {
  }

  /** `parseJson(json)`: the parsed value itself when it has the three keys; `None`
      (`null`) when it lacks one or when parsing or the key check throws. */
  function ParseJson(text: string, parse: string -> Option<Json>): (r: Option<Json>)
    ensures r.Some? ==> parse(text) == r
  {
    match parse(text)
    case None => None
    case Some(v) =>
      match ValidateObject(v)
      case Thrown(_) => None
      case Normal(ok) => if ok then Some(v) else None
  }

  /** `parseJson` returns exactly the parsed object when it has the three keys, and nothing otherwise. */
  lemma ParseJsonSpec(text: string, parse: string -> Option<Json>)
    ensures var p := parse(text);
            ParseJson(text, parse) ==
              if p.Some? && p.value.Object? && forall i :: 0 <= i < |RequiredKeys| ==> RequiredKeys[i] in Names(p.value.fields)
              then p else None
  {
    assert RequiredKeys[0] == "iab" && RequiredKeys[1] == "version" && RequiredKeys[2] == "time";
  }

  /** `{}` and a `null` body give `null`; an object with the three keys comes back whatever
      its values are, even a non-string `iab`. */
  lemma ParseJsonExamples(text: string, parse: string -> Option<Json>, rest: seq<(string, Json)>)
    ensures parse(text) == Some(Object([])) ==> ParseJson(text, parse) == None
    ensures parse(text) == Some(Null) ==> ParseJson(text, parse) == None
    ensures var o := Object([("iab", Number("1")), ("version", Null), ("time", Bool(false))] + rest);
              parse(text) == Some(o) ==> ParseJson(text, parse) == Some(o)
  {
    var fs := [("iab", Number("1")), ("version", Null), ("time", Bool(false))] + rest;
    assert Names(fs)[0] == "iab" && Names(fs)[1] == "version" && Names(fs)[2] == "time";
  }
}
