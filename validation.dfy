/** The submission validator: leaf validators for each field, the per-version
    purposes validator, record assembly per version, the dispatch on
    `version`, and `parseJson`, which turns everything that throws into one
    fixed error. */
module Validation {
  import opened Strings
  import opened Js
  import opened Errors

  /** The supported schema versions, `"1"` and `"2"`. */
  datatype Version = V1 | V2

  /** The string a version is written as in a submission. */
  function Tag(v: Version): string {
    match v
    case V1 => "1"
    case V2 => "2"
  }

  /** `versions`. */
  const Versions: seq<string> := ["1", "2"]

  /** `sources`: the origins a submission may name. */
  const Sources: seq<string> := ["cmp-ui", "ios", "www", "support", "amp"]

  /** `v1Purposes` and `v2Purposes`: the purpose keys each version requires. */
  const V1Purposes: seq<string> := ["personalisedAdvertising"]
  const V2Purposes: seq<string> := ["essential", "performance", "functionality", "personalisedAdvertising"]

  function RequiredPurposes(v: Version): seq<string> {
    match v
    case V1 => V1Purposes
    case V2 => V2Purposes
  }

  /** `CmpRecordV1 | CmpRecordV2`: the version tag selects which purposes object it holds. */
  datatype ConsentRecord = ConsentRecord(
    iab: string,
    version: Version,
    time: int,
    source: string,
    purposes: Json,
    browserId: string)

  const ParseError := "Error parsing submission body"

  /** `validateBoolean(value, field)`. The message renders the value with
      `${value}`, which throws when the value has no string conversion. */
  function ValidateBoolean(v: Json, field: string): (r: Completion<Result<bool>>)
    ensures r.Thrown? <==> ToStringThrows(v)
    ensures r.Normal? ==> (r.value.Ok? <==> v.Bool?)
    ensures r.Normal? && r.value.Ok? ==> v == Bool(r.value.value)
    ensures r.Normal? && r.value.Err? ==> Contains(r.value.message, field)
  {
    if v.Bool? then Normal(Ok(v.b))
    else
      match Display(v)
      case Thrown(e) => Thrown(e)
      case Normal(shown) =>
        var msg := "expected boolean for " + field + ", got " + shown;
        ContainsMiddle("expected boolean for ", field, ", got " + shown);
        assert msg == "expected boolean for " + field + (", got " + shown);
        Normal(Err(msg))
  }

  /** `validateStringKey(key, allowedKeys, field)`. */
  function ValidateStringKey(key: Json, allowed: seq<string>, field: string): (r: Result<string>)
    ensures r.Ok? <==> key.Str? && key.s in allowed
    ensures r.Ok? ==> key == Str(r.value)
    ensures key.Str? && key.s !in allowed ==> r.Err? && Contains(r.message, field) && Contains(r.message, key.s)
    ensures !key.Str? ==> r == Err(field + " keys must be strings")
  {
    if key.Str? then
      if key.s in allowed then Ok(key.s)
      else
        var msg := "invalid " + field + ", " + key.s;
        ContainsMiddle("invalid ", field, ", " + key.s);
        assert msg == "invalid " + field + (", " + key.s);
        ContainsMiddle("invalid " + field + ", ", key.s, "");
        assert msg == "invalid " + field + ", " + key.s + "";
        Err(msg)
    else Err(field + " keys must be strings")
  }

  /** `isNonEmpty(value)`: something is left after trimming. */
  predicate IsNonEmpty(s: string): (b: bool)
    ensures b <==> exists i :: 0 <= i < |s| && !IsWhitespace(s[i])
  {
    TrimNonEmpty(s);
    |Trim(s)| > 0
  }

  /** `validateSourceType(source)`. */
  function ValidateSourceType(v: Json): (r: Result<string>)
    ensures r.Ok? <==> v.Str? && v.s in Sources
    ensures r.Ok? ==> v == Str(r.value)
    ensures !v.Str? ==> r == Err("expected string for source")
    ensures v.Str? && v.s !in Sources ==> r == Err("invalid sourceType, expected one of " + Join(Sources, ", "))
  {
    if v.Str? then
      if v.s in Sources then Ok(v.s)
      else Err("invalid sourceType, expected one of " + Join(Sources, ", "))
    else Err("expected string for source")
  }

  /** `validateIabConsentString(base64ConsentString)`. `decodes(s)` holds when
      `new ConsentString(s)` and `getVersion()` both return normally. */
  function ValidateIabConsentString(v: Json, decodes: string -> bool): (r: Result<string>)
    ensures r.Ok? <==> v.Str? && v.s != "" && decodes(v.s)
    ensures r.Ok? ==> v == Str(r.value)
    ensures !v.Str? ==> r == Err("expected a string value for the iab field")
    ensures v == Str("") ==> r == Err("iab string cannot be empty")
    ensures v.Str? && v.s != "" && !decodes(v.s) ==> r == Err("provided iab value was not a valid TCF consent string")
  {
    if v.Str? then
      if |v.s| > 0 then
        if decodes(v.s) then Ok(v.s)
        else Err("provided iab value was not a valid TCF consent string")
      else Err("iab string cannot be empty")
    else Err("expected a string value for the iab field")
  }

  /** `validateBrowserId(browserId)`. */
  function ValidateBrowserId(v: Json): (r: Result<string>)
    ensures r.Ok? <==> v.Str? && exists i :: 0 <= i < |v.s| && !IsWhitespace(v.s[i])
    ensures r.Ok? ==> v == Str(r.value)
    ensures !v.Str? ==> r == Err("expected string for browserId")
    ensures v.Str? && r.Err? ==> r == Err("invalid browserID")
  {
    if v.Str? then
      if IsNonEmpty(v.s) then Ok(v.s) else Err("invalid browserID")
    else Err("expected string for browserId")
  }

  /** `validateVersion(version)`. */
  function ValidateVersion(v: Json): (r: Result<Version>)
    ensures r.Ok? <==> v.Str? && v.s in Versions
    ensures r.Ok? ==> v == Str(Tag(r.value))
    ensures !v.Str? ==> r == Err("expected string for version")
    ensures v.Str? && v.s !in Versions ==> r == Err(v.s + " is not a valid version")
  {
    if v.Str? then
      if v.s == "1" then Ok(V1)
      else if v.s == "2" then Ok(V2)
      else Err(v.s + " is not a valid version")
    else Err("expected string for version")
  }

  /** `keys.map((key) => validateStringKey(key, allowed, 'purpose'))`. */
  function KeyChecks(keys: seq<string>, allowed: seq<string>): (rs: seq<Result<string>>)
    ensures |rs| == |keys|
    ensures forall i :: 0 <= i < |keys| ==> rs[i] == ValidateStringKey(Str(keys[i]), allowed, "purpose")
  {
    seq(|keys|, i requires 0 <= i < |keys| => ValidateStringKey(Str(keys[i]), allowed, "purpose"))
  }

  /** `Object.entries(purposes).map(([key, value]) => validateBoolean(value, key))`:
      the checks run left to right and the first one that throws ends the map. */
  function ValueChecks(es: seq<(string, Json)>): (r: Completion<seq<Result<bool>>>)
    ensures r.Thrown? <==> exists i :: 0 <= i < |es| && ToStringThrows(es[i].1)
    ensures r.Normal? ==>
              && |r.value| == |es|
              && forall i :: 0 <= i < |es| ==> ValidateBoolean(es[i].1, es[i].0) == Normal(r.value[i])
  {
    if |es| == 0 then Normal([])
    else
      match ValidateBoolean(es[0].1, es[0].0)
      case Thrown(e) => Thrown(e)
      case Normal(c) =>
        match ValueChecks(es[1..])
        case Thrown(e) => Thrown(e)
        case Normal(cs) => Normal([c] + cs)
  }

  /** Some value of `p`'s own entries has no string conversion. */
  predicate HasUnprintableValue(p: Json) {
    || (p.Object? && exists i :: 0 <= i < |p.fields| && ToStringThrows(p.fields[i].1))
    || (p.Array? && exists i :: 0 <= i < |p.elems| && ToStringThrows(p.elems[i]))
  }

  /** The body shared by `validateV1Purposes` and `validateV2Purposes`: type,
      then keys, then completeness, then values, each stage skipped once an
      earlier one fails. `Object.keys(null)` throws, and so does rendering a
      value without a string conversion in a boolean error. */
  function ValidatePurposes(p: Json, required: seq<string>): (r: Completion<Result<Json>>)
    ensures TypeOf(p) != "object" ==> r == Normal(Err("object expected for purposes"))
    ensures p.Null? ==> r.Thrown?
    ensures r.Thrown? ==> p.Null? || HasUnprintableValue(p)
    ensures r.Normal? && r.value.Ok? ==> r.value.value == p
  {
    if TypeOf(p) != "object" then Normal(Err("object expected for purposes"))
    else
      match OwnKeys(p)
      case Thrown(e) => Thrown(e)
      case Normal(keys) =>
        var keysValidation := Collect(KeyChecks(keys, required));
        if keysValidation.Err? then Normal(Err(keysValidation.message))
        else if forall i :: 0 <= i < |required| ==> required[i] in keysValidation.value then
          var es := OwnEntries(p).value;
          match ValueChecks(es)
          case Thrown(e) =>
            assert exists i :: 0 <= i < |es| && ToStringThrows(es[i].1);
            Thrown(e)
          case Normal(checks) =>
            var result := Collect(checks);
            if result.Err? then Normal(Err(result.message)) else Normal(Ok(p))
        else Normal(Err("missing required purpose"))
  }

  /** The names of an object's fields, as a set. */
  function KeySet(fields: seq<(string, Json)>): set<string> {
    set i | 0 <= i < |fields| :: fields[i].0
  }

  /** The elements of a list, as a set. */
  function Elements(xs: seq<string>): (r: set<string>)
    ensures forall k :: k in r <==> k in xs
  {
    set k | k in xs
  }

  /** `p` is an object whose key set is exactly `required` and whose values are all booleans. */
  predicate PurposesMatch(p: Json, required: seq<string>) {
    && p.Object?
    && KeySet(p.fields) == Elements(required)
    && forall i :: 0 <= i < |p.fields| ==> p.fields[i].1.Bool?
  }

  lemma ZeroIsNotAPurpose()
    ensures NatToString(0) == "0"
    ensures "0" !in V1Purposes && "0" !in V2Purposes
  {
  }

  /** Purposes are accepted exactly when the key set is the required set and every value is boolean. */
  lemma ValidatePurposesAccepts(p: Json, required: seq<string>)
    requires |required| > 0 && "0" !in required
    ensures ValidatePurposes(p, required) == Normal(Ok(p)) <==> PurposesMatch(p, required)
  {
    match p
    case Array(es) =>
      if |es| > 0 {
        ZeroIsNotAPurpose();
        var keys := OwnKeys(p).value;
        assert keys[0] == "0";
        assert KeyChecks(keys, required)[0].Err?;
      } else {
        assert OwnKeys(p).value == [];
        assert required[0] !in Collect(KeyChecks([], required)).value;
      }
    case Object(fs) =>
      KeyStage(Names(fs), required);
      if PurposesMatch(p, required) {
        MatchingObjectAccepted(fs, required);
      }
      if ValidatePurposes(p, required) == Normal(Ok(p)) {
        AcceptedObjectMatches(fs, required);
      }
    case _ =>
  }

  /** An object with exactly the required keys and boolean values is accepted. */
  lemma MatchingObjectAccepted(fs: seq<(string, Json)>, required: seq<string>)
    requires PurposesMatch(Object(fs), required)
    ensures ValidatePurposes(Object(fs), required) == Normal(Ok(Object(fs)))
  {
    var keys := Names(fs);
    KeyStage(keys, required);
    forall i | 0 <= i < |keys| ensures keys[i] in required {
      assert keys[i] in KeySet(fs);
    }
    forall i | 0 <= i < |required| ensures required[i] in keys {
      assert required[i] in Elements(required);
      assert required[i] in KeySet(fs);
      var j :| 0 <= j < |fs| && fs[j].0 == required[i];
      assert keys[j] == required[i];
    }
    assert !exists i :: 0 <= i < |fs| && ToStringThrows(fs[i].1);
    var checks := ValueChecks(fs).value;
    forall i | 0 <= i < |checks| ensures checks[i].Ok? {
      assert ValidateBoolean(fs[i].1, fs[i].0) == Normal(checks[i]);
    }
  }

  /** An accepted object has exactly the required keys and boolean values. */
  lemma AcceptedObjectMatches(fs: seq<(string, Json)>, required: seq<string>)
    requires ValidatePurposes(Object(fs), required) == Normal(Ok(Object(fs)))
    ensures PurposesMatch(Object(fs), required)
  {
    var keys := Names(fs);
    KeyStage(keys, required);
    forall k | k in KeySet(fs) ensures k in Elements(required) {
      var i :| 0 <= i < |fs| && fs[i].0 == k;
      assert keys[i] == k;
    }
    forall k | k in Elements(required) ensures k in KeySet(fs) {
      var j :| 0 <= j < |required| && required[j] == k;
      assert k in keys;
    }
    var checks := ValueChecks(fs).value;
    forall i | 0 <= i < |fs| ensures fs[i].1.Bool? {
      assert checks[i].Ok?;
      assert ValidateBoolean(fs[i].1, fs[i].0) == Normal(checks[i]);
    }
  }

  /** An unknown key fails with the joined key errors, which name that key; values are not looked at. */
  lemma ValidatePurposesUnknownKey(p: Json, required: seq<string>, i: nat)
    requires p.Object? && i < |p.fields| && p.fields[i].0 !in required
    ensures var r := ValidatePurposes(p, required);
              && r.Normal? && r.value.Err?
              && r.value.message == Join(Failures(KeyChecks(Names(p.fields), required)), Separator)
              && Contains(r.value.message, p.fields[i].0)
              && Contains(r.value.message, "purpose")
  {
    var checks := KeyChecks(Names(p.fields), required);
    assert checks[i].Err?;
    CollectContains(checks, i);
    var m := Collect(checks).message;
    StrContainsTrans(m, checks[i].message, "purpose");
    StrContainsTrans(m, checks[i].message, p.fields[i].0);
  }

  lemma StrContainsTrans(s: string, t: string, u: string)
    requires Contains(s, t) && Contains(t, u)
    ensures Contains(s, u)
  {
    var k :| 0 <= k <= |s| && OccursAt(s, t, k);
    assert s == s[..k] + t + s[k + |t|..];
    ContainsExtend(s[..k], t, s[k + |t|..], u);
  }

  /** When some key is unknown, the outcome depends on the keys alone, not on the values. */
  lemma ValidatePurposesKeysFirst(p: Json, q: Json, required: seq<string>, i: nat)
    requires p.Object? && q.Object? && Names(p.fields) == Names(q.fields)
    requires i < |p.fields| && p.fields[i].0 !in required
    ensures ValidatePurposes(p, required) == ValidatePurposes(q, required)
  {
    assert KeyChecks(Names(p.fields), required)[i].Err?;
  }

  /** All keys known but a required one absent: "missing required purpose". */
  lemma ValidatePurposesMissing(p: Json, required: seq<string>, j: nat)
    requires p.Object? && forall i :: 0 <= i < |p.fields| ==> p.fields[i].0 in required
    requires j < |required| && required[j] !in KeySet(p.fields)
    ensures ValidatePurposes(p, required) == Normal(Err("missing required purpose"))
  {
    var keys := Names(p.fields);
    var kv := Collect(KeyChecks(keys, required));
    assert kv.Ok?;
    assert kv.value == keys;
    assert required[j] !in keys;
  }

  /** Complete, known keys with a non-boolean value, every value printable: an error that names that value's key. */
  lemma ValidatePurposesNonBoolean(p: Json, required: seq<string>, i: nat)
    requires p.Object? && KeySet(p.fields) == Elements(required)
    requires i < |p.fields| && !p.fields[i].1.Bool?
    requires !HasUnprintableValue(p)
    ensures var r := ValidatePurposes(p, required);
              r.Normal? && r.value.Err? && Contains(r.value.message, p.fields[i].0)
  {
    var keys := Names(p.fields);
    var kv := Collect(KeyChecks(keys, required));
    forall k | 0 <= k < |keys| ensures KeyChecks(keys, required)[k].Ok? {
      assert keys[k] in KeySet(p.fields);
    }
    assert kv.value == keys;
    forall j | 0 <= j < |required| ensures required[j] in kv.value {
      assert required[j] in Elements(required);
      assert required[j] in KeySet(p.fields);
      var m :| 0 <= m < |p.fields| && p.fields[m].0 == required[j];
      assert keys[m] == required[j];
    }
    var checks := ValueChecks(p.fields).value;
    assert ValidateBoolean(p.fields[i].1, p.fields[i].0) == Normal(checks[i]);
    CollectContains(checks, i);
    StrContainsTrans(Collect(checks).message, checks[i].message, p.fields[i].0);
  }

  /** The keys of `p` pass both key stages for `required`: all known, none missing. */
  predicate KeysExact(p: Json, required: seq<string>) {
    && TypeOf(p) == "object" && !p.Null?
    && (forall i :: 0 <= i < |OwnKeys(p).value| ==> OwnKeys(p).value[i] in required)
    && (forall j :: 0 <= j < |required| ==> required[j] in OwnKeys(p).value)
  }

  /** The key stage passes iff every key is allowed, and then hands the keys on unchanged. */
  lemma KeyStage(keys: seq<string>, required: seq<string>)
    ensures Collect(KeyChecks(keys, required)).Ok? <==> forall i :: 0 <= i < |keys| ==> keys[i] in required
    ensures Collect(KeyChecks(keys, required)).Ok? ==> Collect(KeyChecks(keys, required)).value == keys
  {
    var checks := KeyChecks(keys, required);
    var kv := Collect(checks);
    if forall i :: 0 <= i < |keys| ==> keys[i] in required {
      assert forall i :: 0 <= i < |checks| ==> checks[i].Ok?;
    }
    if kv.Ok? {
      forall i | 0 <= i < |keys| ensures kv.value[i] == keys[i] && keys[i] in required {
        assert checks[i] == Ok(kv.value[i]);
      }
      assert kv.value == keys;
    } else {
      var i :| 0 <= i < |checks| && checks[i].Err?;
      assert keys[i] !in required;
    }
  }

  /** The own entries of an object or array contain a value without a string
      conversion iff the value itself has one among its fields or elements. */
  lemma UnprintableEntries(p: Json)
    requires p.Object? || p.Array?
    ensures var es := OwnEntries(p).value;
              (exists i :: 0 <= i < |es| && ToStringThrows(es[i].1)) <==> HasUnprintableValue(p)
  {
    var es := OwnEntries(p).value;
    if p.Array? {
      if HasUnprintableValue(p) {
        var i :| 0 <= i < |p.elems| && ToStringThrows(p.elems[i]);
        assert es[i].1 == p.elems[i];
      }
      if exists i :: 0 <= i < |es| && ToStringThrows(es[i].1) {
        var i :| 0 <= i < |es| && ToStringThrows(es[i].1);
        assert es[i].1 == p.elems[i];
      }
    }
  }

  /** The purposes validator throws exactly on `null`, and on purposes whose keys pass
      both key stages while some value has no string conversion. */
  lemma ValidatePurposesThrows(p: Json, required: seq<string>)
    ensures ValidatePurposes(p, required).Thrown? <==> p.Null? || (KeysExact(p, required) && HasUnprintableValue(p))
  {
    if TypeOf(p) == "object" && !p.Null? {
      KeyStage(OwnKeys(p).value, required);
      UnprintableEntries(p);
    }
  }

  /** Complete, known keys with a value that has no string conversion: the validator throws. */
  lemma ValidatePurposesUnprintable(p: Json, required: seq<string>, i: nat)
    requires p.Object? && KeySet(p.fields) == Elements(required)
    requires i < |p.fields| && ToStringThrows(p.fields[i].1)
    ensures ValidatePurposes(p, required).Thrown?
  {
    var keys := OwnKeys(p).value;
    forall k | 0 <= k < |keys| ensures keys[k] in required {
      assert keys[k] in KeySet(p.fields);
    }
    forall j | 0 <= j < |required| ensures required[j] in keys {
      assert required[j] in Elements(required);
      assert required[j] in KeySet(p.fields);
      var m :| 0 <= m < |p.fields| && p.fields[m].0 == required[j];
      assert keys[m] == required[j];
    }
    ValidatePurposesThrows(p, required);
  }

  /** A failed key check or boolean check carries a non-empty message. */
  lemma CheckErrNonEmpty(v: Json, allowed: seq<string>, field: string)
    ensures ValidateStringKey(v, allowed, field).Err? ==> ValidateStringKey(v, allowed, field).message != ""
    ensures var r := ValidateBoolean(v, field);
              r.Normal? && r.value.Err? ==> r.value.message != ""
  {
  }

  /** Every failure of the purposes validator carries a non-empty message. */
  lemma ValidatePurposesErrNonEmpty(p: Json, required: seq<string>)
    ensures var r := ValidatePurposes(p, required);
              r.Normal? && r.value.Err? ==> r.value.message != ""
  {
    if TypeOf(p) == "object" && !p.Null? {
      var keys := OwnKeys(p).value;
      var checks := KeyChecks(keys, required);
      if Collect(checks).Err? {
        var i :| 0 <= i < |checks| && checks[i].Err?;
        CheckErrNonEmpty(Str(keys[i]), required, "purpose");
        CollectMessageNonEmpty(checks, i);
      } else if ValueChecks(OwnEntries(p).value).Normal? {
        var vs := ValueChecks(OwnEntries(p).value).value;
        if Collect(vs).Err? {
          var i :| 0 <= i < |vs| && vs[i].Err?;
          var es := OwnEntries(p).value;
          CheckErrNonEmpty(es[i].1, [], es[i].0);
          CollectMessageNonEmpty(vs, i);
        }
      }
    }
  }

  /** `validateV1Purposes(purposes)`. */
  function ValidateV1Purposes(p: Json): (r: Completion<Result<Json>>)
    ensures r == Normal(Ok(p)) <==> PurposesMatch(p, V1Purposes)
    ensures r.Thrown? <==> p.Null? || (KeysExact(p, V1Purposes) && HasUnprintableValue(p))
  {
    ValidatePurposesAccepts(p, V1Purposes);
    ValidatePurposesThrows(p, V1Purposes);
    ValidatePurposes(p, V1Purposes)
  }

  /** `validateV2Purposes(purposes)`. */
  function ValidateV2Purposes(p: Json): (r: Completion<Result<Json>>)
    ensures r == Normal(Ok(p)) <==> PurposesMatch(p, V2Purposes)
    ensures r.Thrown? <==> p.Null? || (KeysExact(p, V2Purposes) && HasUnprintableValue(p))
  {
    ValidatePurposesAccepts(p, V2Purposes);
    ValidatePurposesThrows(p, V2Purposes);
    ValidatePurposes(p, V2Purposes)
  }

  /** A purposes object one version accepts, the other version rejects. */
  lemma PurposesExclusive(p: Json)
    ensures ValidateV1Purposes(p).Normal? && ValidateV1Purposes(p).value.Ok? ==> ValidateV2Purposes(p).value.Err?
    ensures ValidateV2Purposes(p).Normal? && ValidateV2Purposes(p).value.Ok? ==> ValidateV1Purposes(p).value.Err?
  {
    assert "essential" in Elements(V2Purposes);
    assert "essential" !in Elements(V1Purposes);
    if PurposesMatch(p, V1Purposes) || PurposesMatch(p, V2Purposes) {
      assert !HasUnprintableValue(p);
    }
  }

  /** The empty array passes the type and key checks and then lacks the required purposes. */
  lemma EmptyArrayPurposes()
    ensures ValidateV1Purposes(Array([])) == Normal(Err("missing required purpose"))
    ensures ValidateV2Purposes(Array([])) == Normal(Err("missing required purpose"))
  {
    assert OwnKeys(Array([])).value == [];
    assert V1Purposes[0] !in Collect(KeyChecks([], V1Purposes)).value;
    assert V2Purposes[0] !in Collect(KeyChecks([], V2Purposes)).value;
  }

  /** A submission object holding the five fields the validator reads. */
  function Submission(iab: Json, version: Json, source: Json, purposes: Json, browserId: Json): Json {
    Object([("iab", iab), ("version", version), ("source", source), ("purposes", purposes), ("browserId", browserId)])
  }

  lemma SubmissionProps(iab: Json, version: Json, source: Json, purposes: Json, browserId: Json)
    ensures var o := Submission(iab, version, source, purposes, browserId);
              && Prop(o, "iab") == iab && Prop(o, "version") == version && Prop(o, "source") == source
              && Prop(o, "purposes") == purposes && Prop(o, "browserId") == browserId
  {
    var fs := Submission(iab, version, source, purposes, browserId).fields;
    var f1, f2, f3, f4 := fs[1..], fs[2..], fs[3..], fs[4..];
    assert f1[1..] == f2 && f2[1..] == f3 && f3[1..] == f4;
    assert f1[0].0 == "version" && f2[0].0 == "source" && f3[0].0 == "purposes" && f4[0].0 == "browserId";
    assert Lookup(f4, "browserId") == browserId;
    assert Lookup(f3, "purposes") == purposes && Lookup(f3, "browserId") == browserId;
    assert Lookup(f2, "source") == source && Lookup(f2, "purposes") == purposes && Lookup(f2, "browserId") == browserId;
    assert Lookup(f1, "version") == version && Lookup(f1, "source") == source;
    assert Lookup(f1, "purposes") == purposes && Lookup(f1, "browserId") == browserId;
  }

  /** `validateV1Object` (`version` 1) and `validateV2Object` (`version` 2):
      the four field validators run, in the order iab, source, purposes,
      browserId, and combine without short-circuiting. */
  function ValidateRecord(o: Json, version: Version, decodes: string -> bool, now: int): (r: Completion<Result<ConsentRecord>>)
    ensures IsNullish(o) ==> r.Thrown?
    ensures r.Normal? && r.value.Ok? ==> r.value.value.version == version && r.value.value.time == now
  {
    if IsNullish(o) then Thrown(TypeError)
    else
      var purposes := ValidatePurposes(Prop(o, "purposes"), RequiredPurposes(version));
      if purposes.Thrown? then Thrown(purposes.error)
      else
        match Collect4(ValidateIabConsentString(Prop(o, "iab"), decodes),
                       ValidateSourceType(Prop(o, "source")),
                       purposes.value,
                       ValidateBrowserId(Prop(o, "browserId")))
        case Err(m) => Normal(Err(m))
        case Ok((iab, source, ps, browserId)) =>
          Normal(Ok(ConsentRecord(iab, version, now, source, ps, browserId)))
  }

  /** `validateV1Object(jsonObject)`: a record tagged "1" whose purposes have exactly the version 1 keys. */
  function ValidateV1Object(o: Json, decodes: string -> bool, now: int): (r: Completion<Result<ConsentRecord>>)
    ensures r.Normal? && r.value.Ok? ==>
              && r.value.value.version == V1 && r.value.value.time == now
              && PurposesMatch(r.value.value.purposes, V1Purposes)
  {
    ValidateRecordSucceeds(o, V1, decodes, now);
    ValidateRecord(o, V1, decodes, now)
  }

  /** `validateV2Object(jsonObject)`: a record tagged "2" whose purposes have exactly the version 2 keys. */
  function ValidateV2Object(o: Json, decodes: string -> bool, now: int): (r: Completion<Result<ConsentRecord>>)
    ensures r.Normal? && r.value.Ok? ==>
              && r.value.value.version == V2 && r.value.value.time == now
              && PurposesMatch(r.value.value.purposes, V2Purposes)
  {
    ValidateRecordSucceeds(o, V2, decodes, now);
    ValidateRecord(o, V2, decodes, now)
  }

  /** A record satisfies every field constraint of its version, with `time` stamped by the clock. */
  predicate WellFormedRecord(rec: ConsentRecord, decodes: string -> bool, now: int) {
    && rec.iab != "" && decodes(rec.iab)
    && rec.source in Sources
    && (exists i :: 0 <= i < |rec.browserId| && !IsWhitespace(rec.browserId[i]))
    && PurposesMatch(rec.purposes, RequiredPurposes(rec.version))
    && rec.time == now
  }

  /** Record assembly throws exactly when the purposes validator does: on `null`
      purposes, or on purposes with the right keys and a value without a string conversion. */
  lemma ValidateRecordThrows(o: Json, version: Version, decodes: string -> bool, now: int)
    requires !IsNullish(o)
    ensures var ps := Prop(o, "purposes");
            ValidateRecord(o, version, decodes, now).Thrown? <==>
              ps.Null? || (KeysExact(ps, RequiredPurposes(version)) && HasUnprintableValue(ps))
  {
    ValidatePurposesThrows(Prop(o, "purposes"), RequiredPurposes(version));
  }

  /** Record assembly succeeds iff all four field validators succeed, and the
      record then holds the validated inputs, the version and the clock. */
  lemma ValidateRecordSucceeds(o: Json, version: Version, decodes: string -> bool, now: int)
    ensures var r := ValidateRecord(o, version, decodes, now);
            var iab, src, ps, bid := Prop(o, "iab"), Prop(o, "source"), Prop(o, "purposes"), Prop(o, "browserId");
              && (r.Normal? && r.value.Ok? <==>
                    && !IsNullish(o)
                    && ValidateIabConsentString(iab, decodes).Ok?
                    && ValidateSourceType(src).Ok?
                    && PurposesMatch(ps, RequiredPurposes(version))
                    && ValidateBrowserId(bid).Ok?)
              && (r.Normal? && r.value.Ok? ==>
                    && r.value.value == ConsentRecord(iab.s, version, now, src.s, ps, bid.s)
                    && WellFormedRecord(r.value.value, decodes, now))
  {
    var ps := Prop(o, "purposes");
    ValidatePurposesAccepts(ps, RequiredPurposes(version));
    if !IsNullish(o) && ValidatePurposes(ps, RequiredPurposes(version)).Normal? {
      var a := ValidateIabConsentString(Prop(o, "iab"), decodes);
      var b := ValidateSourceType(Prop(o, "source"));
      var c := ValidatePurposes(ps, RequiredPurposes(version)).value;
      var d := ValidateBrowserId(Prop(o, "browserId"));
      var all := Collect4(a, b, c, d);
      assert ValidateRecord(o, version, decodes, now) ==
               if all.Err? then Normal(Err(all.message))
               else Normal(Ok(ConsentRecord(all.value.0, version, now, all.value.1, all.value.2, all.value.3)));
    }
  }

  /** Every failure of record assembly carries a non-empty message. */
  lemma ValidateRecordErrNonEmpty(o: Json, version: Version, decodes: string -> bool, now: int)
    ensures var r := ValidateRecord(o, version, decodes, now);
              r.Normal? && r.value.Err? ==> r.value.message != ""
  {
    var purposes := Prop(o, "purposes");
    if !IsNullish(o) && ValidatePurposes(purposes, RequiredPurposes(version)).Normal? {
      ValidatePurposesErrNonEmpty(purposes, RequiredPurposes(version));
      var a := ValidateIabConsentString(Prop(o, "iab"), decodes);
      var b := ValidateSourceType(Prop(o, "source"));
      var c := ValidatePurposes(purposes, RequiredPurposes(version)).value;
      var d := ValidateBrowserId(Prop(o, "browserId"));
      Collect4MessageNonEmpty(a, b, c, d);
      var all := Collect4(a, b, c, d);
      assert ValidateRecord(o, version, decodes, now) ==
               if all.Err? then Normal(Err(all.message))
               else Normal(Ok(ConsentRecord(all.value.0, version, now, all.value.1, all.value.2, all.value.3)));
    }
  }


  /** A failing record assembly reports the failures in the order iab, source, purposes, browserId. */
  lemma ValidateRecordFails(o: Json, version: Version, decodes: string -> bool, now: int)
    requires !IsNullish(o) && ValidatePurposes(Prop(o, "purposes"), RequiredPurposes(version)).Normal?
    ensures var r := ValidateRecord(o, version, decodes, now);
            var a := ValidateIabConsentString(Prop(o, "iab"), decodes);
            var b := ValidateSourceType(Prop(o, "source"));
            var c := ValidatePurposes(Prop(o, "purposes"), RequiredPurposes(version)).value;
            var d := ValidateBrowserId(Prop(o, "browserId"));
              && r.Normal?
              && (r.value.Err? <==> a.Err? || b.Err? || c.Err? || d.Err?)
              && (r.value.Err? ==> r.value.message == Join(Messages(a) + Messages(b) + Messages(c) + Messages(d), Separator))
  {
    var a := ValidateIabConsentString(Prop(o, "iab"), decodes);
    var b := ValidateSourceType(Prop(o, "source"));
    var c := ValidatePurposes(Prop(o, "purposes"), RequiredPurposes(version)).value;
    var d := ValidateBrowserId(Prop(o, "browserId"));
    var all := Collect4(a, b, c, d);
    assert ValidateRecord(o, version, decodes, now) ==
             if all.Err? then Normal(Err(all.message))
             else Normal(Ok(ConsentRecord(all.value.0, version, now, all.value.1, all.value.2, all.value.3)));
  }

  /** `validateObject(jsonObject)`: validate `version` first, then dispatch to the
      version's record validator. The match on `Version` is exhaustive. */
  function ValidateObject(o: Json, decodes: string -> bool, now: int): (r: Completion<Result<ConsentRecord>>)
    ensures IsNullish(o) ==> r.Thrown?
    ensures !IsNullish(o) && ValidateVersion(Prop(o, "version")).Err? ==>
              r == Normal(Err(ValidateVersion(Prop(o, "version")).message))
    ensures !IsNullish(o) && Prop(o, "version") == Str("1") ==> r == ValidateV1Object(o, decodes, now)
    ensures !IsNullish(o) && Prop(o, "version") == Str("2") ==> r == ValidateV2Object(o, decodes, now)
  {
    match Get(o, "version")
    case Thrown(e) => Thrown(e)
    case Normal(v) =>
      match ValidateVersion(v)
      case Err(m) => Normal(Err(m))
      case Ok(version) =>
        match version
        case V1 => ValidateV1Object(o, decodes, now)
        case V2 => ValidateV2Object(o, decodes, now)
  }

  /** An invalid version is reported alone: the other fields do not affect the outcome. */
  lemma VersionCheckedFirst(o: Json, o': Json, decodes: string -> bool, now: int)
    requires !IsNullish(o) && !IsNullish(o')
    requires Prop(o, "version") == Prop(o', "version")
    requires ValidateVersion(Prop(o, "version")).Err?
    ensures ValidateObject(o, decodes, now) == ValidateObject(o', decodes, now)
  {
  }

  /** `parseJson(json)`: `JSON.parse` is the collaborator `parse` (`None` when it
      throws); anything thrown while validating becomes the same fixed error. */
  function ParseJson(text: string, parse: string -> Option<Json>, decodes: string -> bool, now: int): (r: Result<ConsentRecord>)
    ensures parse(text).None? ==> r == Err(ParseError)
  {
    match parse(text)
    case None => Err(ParseError)
    case Some(o) =>
      match ValidateObject(o, decodes, now)
      case Thrown(_) => Err(ParseError)
      case Normal(res) => res
  }

  /** Every failure `parseJson` reports carries a non-empty message. */
  lemma ParseJsonErrNonEmpty(text: string, parse: string -> Option<Json>, decodes: string -> bool, now: int)
    ensures var r := ParseJson(text, parse, decodes, now);
              r.Err? ==> r.message != ""
  {
    if parse(text).Some? {
      var o := parse(text).value;
      ValidateRecordErrNonEmpty(o, V1, decodes, now);
      ValidateRecordErrNonEmpty(o, V2, decodes, now);
    }
  }

  /** Everything `parseJson` accepts is a complete record of a supported version
      whose fields are the submitted ones. */
  lemma ParseJsonSound(text: string, parse: string -> Option<Json>, decodes: string -> bool, now: int)
    ensures var r := ParseJson(text, parse, decodes, now);
              r.Ok? ==>
                && parse(text).Some?
                && var o := parse(text).value;
                && WellFormedRecord(r.value, decodes, now)
                && Prop(o, "version") == Str(Tag(r.value.version))
                && Prop(o, "iab") == Str(r.value.iab)
                && Prop(o, "source") == Str(r.value.source)
                && Prop(o, "purposes") == r.value.purposes
                && Prop(o, "browserId") == Str(r.value.browserId)
  {
    if ParseJson(text, parse, decodes, now).Ok? {
      var o := parse(text).value;
      ValidateRecordSucceeds(o, ValidateVersion(Prop(o, "version")).value, decodes, now);
    }
  }

  /** Any object whose five fields hold a well-formed record's values validates to that record. */
  lemma ValidateObjectRoundTrip(o: Json, decodes: string -> bool, now: int, rec: ConsentRecord)
    requires WellFormedRecord(rec, decodes, now) && !IsNullish(o)
    requires Prop(o, "iab") == Str(rec.iab) && Prop(o, "version") == Str(Tag(rec.version))
    requires Prop(o, "source") == Str(rec.source) && Prop(o, "purposes") == rec.purposes
    requires Prop(o, "browserId") == Str(rec.browserId)
    ensures ValidateObject(o, decodes, now) == Normal(Ok(rec))
  {
    var r := ValidateRecord(o, rec.version, decodes, now);
    ValidateRecordSucceeds(o, rec.version, decodes, now);
    assert ValidateIabConsentString(Str(rec.iab), decodes).Ok?;
    assert ValidateSourceType(Str(rec.source)).Ok?;
    assert ValidateBrowserId(Str(rec.browserId)).Ok?;
    assert r.Normal? && r.value.Ok?;
    assert r == Normal(Ok(rec));
    match rec.version
    case V1 => assert Prop(o, "version") == Str("1");
    case V2 => assert Prop(o, "version") == Str("2");
  }

  /** Building a submission from fields that satisfy every constraint and parsing it gives those fields back. */
  lemma ParseJsonRoundTrip(text: string, parse: string -> Option<Json>, decodes: string -> bool, now: int,
                           rec: ConsentRecord)
    requires WellFormedRecord(rec, decodes, now)
    requires parse(text) == Some(Submission(Str(rec.iab), Str(Tag(rec.version)), Str(rec.source), rec.purposes,
                                            Str(rec.browserId)))
    ensures ParseJson(text, parse, decodes, now) == Ok(rec)
  {
    SubmissionProps(Str(rec.iab), Str(Tag(rec.version)), Str(rec.source), rec.purposes, Str(rec.browserId));
    ValidateObjectRoundTrip(parse(text).value, decodes, now, rec);
  }

  /** Unparseable text, a `null` body and `null` purposes all end in the one parse error. */
  lemma ParseJsonCatches(text: string, parse: string -> Option<Json>, decodes: string -> bool, now: int)
    ensures parse(text) == Some(Null) ==> ParseJson(text, parse, decodes, now) == Err(ParseError)
    ensures parse(text).Some? && !IsNullish(parse(text).value)
            && Prop(parse(text).value, "version") in [Str("1"), Str("2")]
            && Prop(parse(text).value, "purposes") == Null ==>
              ParseJson(text, parse, decodes, now) == Err(ParseError)
  {
  }

  /** Purposes with exactly the required keys and a value without a string conversion
      throw inside the validator, so the body is reported as unparseable. */
  lemma ParseJsonUnprintablePurposes(text: string, parse: string -> Option<Json>, decodes: string -> bool, now: int,
                                     version: Version)
    requires parse(text).Some? && !IsNullish(parse(text).value)
    requires Prop(parse(text).value, "version") == Str(Tag(version))
    requires KeysExact(Prop(parse(text).value, "purposes"), RequiredPurposes(version))
    requires HasUnprintableValue(Prop(parse(text).value, "purposes"))
    ensures ParseJson(text, parse, decodes, now) == Err(ParseError)
  {
    ValidateRecordThrows(parse(text).value, version, decodes, now);
    match version
    case V1 => assert Prop(parse(text).value, "version") == Str("1");
    case V2 => assert Prop(parse(text).value, "version") == Str("2");
  }

  /** The version 1 purposes `{"personalisedAdvertising": {"toString": 0}}`. */
  const ToStringPurpose := Object([("personalisedAdvertising", Object([("toString", Number("0"))]))])

  /** `ToStringPurpose` has the right keys and a value without a string conversion. */
  lemma ToStringPurposeUnprintable()
    ensures KeysExact(ToStringPurpose, V1Purposes) && HasUnprintableValue(ToStringPurpose)
  {
    var ps := ToStringPurpose;
    var inner := [("toString", Number("0"))];
    assert ToStringThrows(Object(inner)) by {
      assert Names(inner)[0] == "toString";
    }
    assert ps.fields[0].1 == Object(inner);
    forall k | k in KeySet(ps.fields) ensures k in Elements(V1Purposes) {
      var j :| 0 <= j < |ps.fields| && ps.fields[j].0 == k;
    }
    assert V1Purposes[0] in KeySet(ps.fields) by {
      assert ps.fields[0].0 == V1Purposes[0];
    }
    assert KeySet(ps.fields) == Elements(V1Purposes);
    ValidatePurposesUnprintable(ps, V1Purposes, 0);
    ValidatePurposesThrows(ps, V1Purposes);
  }

  /** A version 1 body whose purposes are `ToStringPurpose` is reported as unparseable,
      whatever the other fields hold. */
  lemma ToStringPurposeFails(text: string, parse: string -> Option<Json>, decodes: string -> bool, now: int,
                             iab: Json, source: Json, browserId: Json)
    requires parse(text) == Some(Submission(iab, Str("1"), source, ToStringPurpose, browserId))
    ensures ParseJson(text, parse, decodes, now) == Err(ParseError)
  {
    SubmissionProps(iab, Str("1"), source, ToStringPurpose, browserId);
    ToStringPurposeUnprintable();
    assert Tag(V1) == "1";
    ParseJsonUnprintablePurposes(text, parse, decodes, now, V1);
  }


  /** A string that names no supported version always fails with the version error. */
  lemma UnsupportedVersionFails(text: string, parse: string -> Option<Json>, decodes: string -> bool, now: int)
    requires parse(text).Some? && !IsNullish(parse(text).value)
    requires Prop(parse(text).value, "version").Str? && Prop(parse(text).value, "version").s !in Versions
    ensures ParseJson(text, parse, decodes, now) == Err(Prop(parse(text).value, "version").s + " is not a valid version")
  {
  }

  /** `{}` fails: its version is missing. */
  lemma EmptyObjectFails(text: string, parse: string -> Option<Json>, decodes: string -> bool, now: int)
    requires parse(text) == Some(Object([]))
    ensures ParseJson(text, parse, decodes, now) == Err("expected string for version")
  {
  }

  /** Source and browserId both invalid, the other fields valid: both reasons, joined by "; " in field order. */
  lemma ValidateObjectTwoFailures(o: Json, decodes: string -> bool, now: int, version: Version)
    requires !IsNullish(o) && Prop(o, "version") == Str(Tag(version))
    requires ValidateIabConsentString(Prop(o, "iab"), decodes).Ok?
    requires PurposesMatch(Prop(o, "purposes"), RequiredPurposes(version))
    requires Prop(o, "source").Str? && Prop(o, "source").s !in Sources
    requires Prop(o, "browserId").Str? && ValidateBrowserId(Prop(o, "browserId")).Err?
    ensures ValidateObject(o, decodes, now) ==
              Normal(Err("invalid sourceType, expected one of " + Join(Sources, ", ") + "; " + "invalid browserID"))
  {
    ValidatePurposesAccepts(Prop(o, "purposes"), RequiredPurposes(version));
    Collect4TwoFailures(ValidateIabConsentString(Prop(o, "iab"), decodes),
                        ValidateSourceType(Prop(o, "source")),
                        ValidatePurposes(Prop(o, "purposes"), RequiredPurposes(version)).value,
                        ValidateBrowserId(Prop(o, "browserId")));
  }

  /** Two independently failing fields, source and browserId: both reasons, joined by "; " in field order. */
  lemma TwoFieldErrorsAccumulate(text: string, parse: string -> Option<Json>, decodes: string -> bool, now: int,
                                 iab: string, version: Version, source: string, purposes: Json, browserId: string)
    requires iab != "" && decodes(iab) && PurposesMatch(purposes, RequiredPurposes(version))
    requires source !in Sources && forall i :: 0 <= i < |browserId| ==> IsWhitespace(browserId[i])
    requires parse(text) == Some(Submission(Str(iab), Str(Tag(version)), Str(source), purposes, Str(browserId)))
    ensures ParseJson(text, parse, decodes, now) ==
              Err("invalid sourceType, expected one of " + Join(Sources, ", ") + "; " + "invalid browserID")
  {
    SubmissionProps(Str(iab), Str(Tag(version)), Str(source), purposes, Str(browserId));
    ValidateObjectTwoFailures(parse(text).value, decodes, now, version);
  }

  /** The one-purpose object `{"personalisedAdvertising": true}`. */
  lemma SinglePurposeMatchesV1()
    ensures PurposesMatch(Object([("personalisedAdvertising", Bool(true))]), V1Purposes)
  {
    var fs := [("personalisedAdvertising", Bool(true))];
    forall k | k in KeySet(fs) ensures k in V1Purposes {
      var j :| 0 <= j < |fs| && fs[j].0 == k;
    }
    assert V1Purposes[0] in KeySet(fs) by {
      assert fs[0].0 == V1Purposes[0];
    }
    assert KeySet(fs) == Elements(V1Purposes);
  }

  /** The version 1 submission with one consented purpose validates to a version 1 record. */
  lemma V1SubmissionAccepted(text: string, parse: string -> Option<Json>, decodes: string -> bool, now: int, iab: string)
    requires iab != "" && decodes(iab)
    requires parse(text) == Some(Submission(Str(iab), Str("1"), Str("www"),
                                            Object([("personalisedAdvertising", Bool(true))]), Str("abc123")))
    ensures ParseJson(text, parse, decodes, now) ==
              Ok(ConsentRecord(iab, V1, now, "www", Object([("personalisedAdvertising", Bool(true))]), "abc123"))
  {
    var rec := ConsentRecord(iab, V1, now, "www", Object([("personalisedAdvertising", Bool(true))]), "abc123");
    assert !IsWhitespace(rec.browserId[0]);
    SinglePurposeMatchesV1();
    assert Tag(V1) == "1";
    ParseJsonRoundTrip(text, parse, decodes, now, rec);
  }

  /** Valid fields except a purposes object lacking one required key: the purposes error alone. */
  lemma ValidateObjectMissingPurpose(o: Json, decodes: string -> bool, now: int, version: Version, j: nat)
    requires !IsNullish(o) && Prop(o, "version") == Str(Tag(version))
    requires ValidateIabConsentString(Prop(o, "iab"), decodes).Ok?
    requires ValidateSourceType(Prop(o, "source")).Ok? && ValidateBrowserId(Prop(o, "browserId")).Ok?
    requires var p := Prop(o, "purposes");
               && p.Object? && (forall i :: 0 <= i < |p.fields| ==> p.fields[i].0 in RequiredPurposes(version))
               && j < |RequiredPurposes(version)| && RequiredPurposes(version)[j] !in KeySet(p.fields)
    ensures ValidateObject(o, decodes, now) == Normal(Err("missing required purpose"))
  {
    ValidatePurposesMissing(Prop(o, "purposes"), RequiredPurposes(version), j);
    Collect4SingleFailure(ValidateIabConsentString(Prop(o, "iab"), decodes),
                          ValidateSourceType(Prop(o, "source")),
                          ValidatePurposes(Prop(o, "purposes"), RequiredPurposes(version)).value,
                          ValidateBrowserId(Prop(o, "browserId")));
  }

  /** The version 2 purposes `{"essential": true}`: known keys, "performance" missing. */
  const EssentialOnly := Object([("essential", Bool(true))])

  lemma EssentialOnlyIncomplete()
    ensures forall i :: 0 <= i < |EssentialOnly.fields| ==> EssentialOnly.fields[i].0 in V2Purposes
    ensures V2Purposes[1] == "performance" && "performance" !in KeySet(EssentialOnly.fields)
  {
  }

  /** A version 2 body with only one of its four purposes fails with "missing required purpose". */
  lemma V2ObjectMissingPurpose(iab: string, decodes: string -> bool, now: int)
    requires iab != "" && decodes(iab)
    ensures ValidateObject(Submission(Str(iab), Str("2"), Str("www"), EssentialOnly, Str("abc123")), decodes, now) ==
              Normal(Err("missing required purpose"))
  {
    SubmissionProps(Str(iab), Str("2"), Str("www"), EssentialOnly, Str("abc123"));
    EssentialOnlyIncomplete();
    assert !IsWhitespace("abc123"[0]);
    assert Tag(V2) == "2";
    ValidateObjectMissingPurpose(Submission(Str(iab), Str("2"), Str("www"), EssentialOnly, Str("abc123")),
                                 decodes, now, V2, 1);
  }

  /** A version 2 submission with only one of its four purposes fails with "missing required purpose". */
  lemma V2SubmissionMissingPurpose(text: string, parse: string -> Option<Json>, decodes: string -> bool, now: int, iab: string)
    requires iab != "" && decodes(iab)
    requires parse(text) == Some(Submission(Str(iab), Str("2"), Str("www"), EssentialOnly, Str("abc123")))
    ensures ParseJson(text, parse, decodes, now) == Err("missing required purpose")
  {
    V2ObjectMissingPurpose(iab, decodes, now);
  }


}
