# consent-logs: submission validation, error aggregation and CORS matching

This project is a Dafny model of the core of the Guardian's consent-logs
service. The service receives an untrusted JSON consent submission. It turns
that submission into a typed consent record tagged with its version, or into
one error that lists every reason for rejecting it.

The model covers five parts of the service:

- **Error aggregation** (`errors.dfy`, module `Errors`). A result is a
  success value or a `CmpError` carrying one message. `collectCmpErrors`,
  `collectCmpErrors4` and `collectCmpErrors5` combine results without
  short-circuiting. When nothing failed they return every success value in
  order. Otherwise they return one error whose message joins the failing
  messages with `"; "`.
- **Submission validation** (`validation.dfy`, module `Validation`). This
  covers:
  - the leaf field validators;
  - the purposes validator for each version, which checks type, then keys,
    then that every required key is present, then the values;
  - record assembly for each version;
  - the dispatch on `version`;
  - `parseJson`, which turns anything thrown into one fixed error.
- **CORS allow-list** (`cors.dfy`, module `Cors`). This covers literal and
  dot-prefixed wildcard entries, `some` over the list, parsing the
  comma-separated configuration string, and the headers granted to an
  allowed origin.
- **Legacy record model** (`model.dfy`, module `LegacyModel`). An earlier
  validator: source and purpose lists derived from enums, field predicates,
  a check that the required keys are present, and a `parseJson` that returns
  the parsed object or `null`.
- **Utilities** (`utilities.dfy`, module `Utilities`). `strEnum` is a method
  whose loop plays the part of the `reduce`: at each step it reassigns the
  accumulator to a new map value with the element mapped to itself. `copy` is a function.

Two supporting modules give the JavaScript built-ins the code relies on:

- `strings.dfy` (module `Strings`): `join`, `split` on one character,
  `endsWith`, `trim` with the ECMAScript whitespace set, `includes`, and the
  decimal rendering of an array index.
- `js.dfy` (module `Js`): the untyped input the validators receive. A
  `Json` value is undefined, null, a boolean, a number, a string, an array or
  an object. An object's fields are listed in the order `Object.keys`
  enumerates them. The module also gives `typeof`, property access (which
  throws on `null` and `undefined`), `Object.entries`/`Object.keys`, and the
  `ToString` that template literals apply. That `ToString` throws a
  `TypeError` on an object with its own `toString` field (a JSON value is
  never callable, and the inherited `valueOf` returns the object itself), and
  on an array holding such a value.

Exceptions are values. An expression either completes with a value or throws,
written `Completion<T> = Normal(value) | Thrown(error)`. For example:

- `validateV1Purposes(null)` passes the `typeof` test, then throws inside
  `Object.keys`.
- `validateV1Purposes({"personalisedAdvertising": {"toString": 0}})` passes
  the key stages, then throws while rendering the non-boolean value into its
  error message.
- Reading `.version` of a `null` body also throws.
- `parseJson` catches both and returns `"Error parsing submission body"`.

The collaborators the code calls into are parameters:

- `parse: string -> Option<Json>` is `JSON.parse`. `None` means it throws.
- `decodes: string -> bool` holds when `new ConsentString(s)` and
  `getVersion()` both return normally.
- `constructs: string -> bool` holds when `new ConsentString(s)` returns
  normally. This is the legacy model's check.
- `hostnameOf: string -> Option<string>` is `new URL(url).hostname`. `None`
  means the URL constructor throws.
- `now: int` is `Date.now()`.

Where the tests and the code disagree, the model follows the code:

- The error tests expect a `", "` separator in several places
  (src/errors.spec.ts lines 80, 183 and 222). The code joins with `"; "`.
- src/errors.spec.ts imports a `collectCmpErrors6` that src/errors.ts does
  not define.
- The validation tests expect a `validateOptionalString` and handling of a
  `variant` field. Neither exists in src/validation.ts.
- The legacy model's tests expect stricter field checks than
  src/model.ts makes. Its `parseJson` only checks that the keys `iab`,
  `version` and `time` are present. `LegacyModel.ParseJsonExamples` shows an
  object with a numeric `iab` coming back accepted.

src/validation.ts takes the `sources`, `versions` and purpose lists from a
revision of src/model.ts that is not part of this model. They are declared
as constants:

- `versions` is `"1"` and `"2"`.
- `v1Purposes` is `personalisedAdvertising`.
- `v2Purposes` is `essential`, `performance`, `functionality` and
  `personalisedAdvertising`.
- `sources` is `cmp-ui`, `ios`, `www`, `support` and `amp` (the last is the
  source the AMP endpoint writes).

## Model

| member | source | states |
|---|---|---|
| Errors.CmpError | src/errors.ts:5-7 | `cmpError(m)` is an error whose message is exactly `m` |
| Errors.Failures | src/errors.ts:43-45 | the collected messages are no more than the results, and there are none exactly when every result succeeds |
| Errors.FailuresAppend | src/errors.ts:45 | the failing messages of a concatenation are those of each part, in order |
| Errors.FailuresMember | src/errors.ts:45 | every failing result's message is among the collected messages |
| Errors.Collect | src/errors.ts:42-51 | success iff no result failed; the success value has the same length, elements and order as the input; a failure joins the failing messages with "; " |
| Errors.CollectAllOk | src/errors.ts:47-50 | a list without failures comes back as its values; the empty list gives an empty success |
| Errors.CollectSingleFailure | src/errors.ts:43-46 | exactly one failure gives that failure's message, with no separator |
| Errors.CollectTwoFailures | src/errors.ts:43-46 | two failures give their two messages joined by "; " in list order |
| Errors.CollectContains | src/errors.ts:43-46 | the combined message contains every failing message |
| Errors.CollectMessageNonEmpty | src/errors.ts:43-46 | the combined message is non-empty whenever some failing message is |
| Errors.Collect4 | src/errors.ts:17-27 | success iff all four arguments succeed, returning their values in argument order; otherwise the failing messages in argument order joined by "; " |
| Errors.Collect4MessageNonEmpty | src/errors.ts:17-27 | when no argument fails with an empty message, a failure of `collectCmpErrors4` has a non-empty message |
| Errors.Collect5 | src/errors.ts:29-40 | the same laws for five arguments |
| Errors.Collect4AgreesWithCollect | src/errors.ts:17-27 | on one element type, `collectCmpErrors4` gives the same outcome, values and message as `collectCmpErrors` on the four-element list |
| Errors.Collect5AgreesWithCollect | src/errors.ts:29-40 | on one element type, `collectCmpErrors5` agrees with `collectCmpErrors` on the five-element list |
| Errors.Collect4SingleFailure | src/errors.ts:22-25 | exactly one failing argument: the combined message is that argument's message unchanged |
| Errors.Collect5SingleFailure | src/errors.ts:35-38 | exactly one failing argument of five: its message unchanged |
| Errors.Collect4TwoFailures | src/errors.ts:22-25 | second and fourth arguments failing: their messages joined by "; " in argument order |
| Strings.Join | src/errors.ts:45 | `join` is given by its laws: Strings.JoinAppend (one separator between two joins), Strings.JoinContains (every piece appears), Strings.SplitJoin and Strings.JoinSplit (inverse of `split`) |
| Strings.JoinAppend | src/errors.ts:24 | joining two non-empty lists puts exactly one separator between their joins |
| Strings.JoinContains | src/errors.ts:24 | every piece appears in the joined string |
| Strings.Split | src/cors.ts:30 | `split` always yields at least one piece |
| Strings.SplitPiecesLackSeparator | src/cors.ts:30 | no piece of a split contains the separator |
| Strings.SplitJoin | src/cors.ts:30 | joining the pieces of a split with the separator gives the input back |
| Strings.JoinSplit | src/cors.ts:30 | splitting the join of separator-free pieces gives the pieces back |
| Strings.SplitAppendSeparator | src/cors.ts:30 | a trailing separator adds exactly one empty piece |
| Strings.EndsWith | src/cors.ts:14 | `endsWith` is given by Cors.WildcardEntry, Cors.WildcardRejectsShorter and Cors.WildcardRejectsDotlessSuffix, which state what it accepts under a wildcard entry |
| Strings.Trim | src/validation.ts:28 | `trim` is no longer than its input and neither starts nor ends with whitespace; Strings.TrimNonEmpty states when it is empty |
| Strings.TrimStart | src/validation.ts:28 | `trimStart` keeps a suffix, drops only whitespace, and leaves it starting with a non-whitespace character |
| Strings.TrimEnd | src/validation.ts:28 | `trimEnd` keeps a prefix, drops only whitespace, and leaves it ending with a non-whitespace character |
| Strings.TrimNonEmpty | src/validation.ts:28 | the trimmed string is non-empty iff the string has a character that is not whitespace |
| Js.TypeOf | src/validation.ts:48 | `typeof` is "object" exactly for null, arrays and objects; "string", "boolean" and "undefined" exactly for those kinds |
| Js.Get | src/validation.ts:152 | property access throws exactly on `null` and `undefined`, and otherwise reads the lookup |
| Js.OwnEntries | src/validation.ts:58-59 | `Object.entries` throws exactly on `null` and `undefined`; an object gives its fields; an array gives its index strings paired with its elements |
| Js.OwnKeys | src/validation.ts:49 | `Object.keys` throws exactly on `null` and `undefined`; an object gives its field names; an array gives its index strings "0", "1", … in order |
| Js.Display | src/validation.ts:13 | the template-literal `ToString` throws exactly on an object with its own `toString` field or an array holding such a value (at any depth), and then throws a `TypeError` |
| Js.DisplayFrom | src/validation.ts:13 | `join`'s conversion of the elements from index `k` on throws iff one of them has no string conversion, and otherwise gives one string per element |
| Validation.ValidateBoolean | src/validation.ts:9-15 | throws iff the value has no string conversion; otherwise success iff the value is a boolean, returning it, and the error message names the label |
| Validation.IsNonEmpty | src/validation.ts:28 | true iff the string has a character that is not whitespace |
| Validation.ValidateStringKey | src/validation.ts:17-26 | success iff the key is a string among the allowed ones, returning it; an unknown string key fails with a message naming the label and the key; a non-string fails with "<label> keys must be strings" |
| Validation.ValidateSourceType | src/validation.ts:31-44 | success iff a string in `sources`, returning it; otherwise the type error or the error listing `sources` joined by ", " |
| Validation.ValidateIabConsentString | src/validation.ts:104-124 | success iff a non-empty string that decodes, returning it; the three error messages with their exact cases; no trimming |
| Validation.ValidateBrowserId | src/validation.ts:127-134 | success iff a string with a non-whitespace character, returning it; otherwise "invalid browserID" or the type error |
| Validation.ValidateVersion | src/validation.ts:137-147 | success iff the string "1" or "2", giving that version; otherwise "<v> is not a valid version" or the type error |
| Validation.KeyChecks | src/validation.ts:50-51 | one key check per key, in key order |
| Validation.ValueChecks | src/validation.ts:58-59 | throws iff some entry's value has no string conversion; otherwise one boolean check per entry, labelled with the entry's key, in entry order |
| Validation.ValidatePurposes | src/validation.ts:47-73 | non-"object" `typeof` gives "object expected for purposes"; `null` throws; anything else that throws has a value without a string conversion; success returns the input unchanged |
| Validation.KeyStage | src/validation.ts:49-53 | the key stage passes iff every key is allowed, and then hands on the keys unchanged |
| Validation.ValidatePurposesAccepts | src/validation.ts:47-73 | purposes are accepted iff they are an object whose key set is exactly the required set and whose values are all booleans |
| Validation.MatchingObjectAccepted | src/validation.ts:47-65 | an object with exactly the required keys and boolean values is returned unchanged |
| Validation.AcceptedObjectMatches | src/validation.ts:47-65 | an object that is returned unchanged has exactly the required keys and boolean values |
| Validation.ValidatePurposesUnknownKey | src/validation.ts:49-53 | an unknown key fails with the "; "-joined key errors, which name that key and the label "purpose" |
| Validation.ValidatePurposesKeysFirst | src/validation.ts:52-53 | with an unknown key the outcome depends on the keys alone: values are not examined |
| Validation.ValidatePurposesMissing | src/validation.ts:55-67 | known keys with a required key absent give "missing required purpose" |
| Validation.ValidatePurposesNonBoolean | src/validation.ts:57-62 | complete, known keys with a non-boolean value, and every value printable, fail with a message naming that value's key |
| Validation.UnprintableEntries | src/validation.ts:58-59 | the own entries hold a value without a string conversion iff the object's fields or the array's elements do |
| Validation.ValidatePurposesThrows | src/validation.ts:47-73 | the validator throws exactly on `null`, and on purposes whose keys pass both key stages while some value has no string conversion |
| Validation.ValidatePurposesUnprintable | src/validation.ts:55-62 | exactly the required keys and a value without a string conversion: the validator throws |
| Validation.CheckErrNonEmpty | src/validation.ts:9-26 | a failed key check or boolean check has a non-empty message |
| Validation.ValidatePurposesErrNonEmpty | src/validation.ts:47-73 | every failure of the purposes validator has a non-empty message |
| Validation.ValidateV1Purposes | src/validation.ts:47-73 | accepted iff the version 1 key set and boolean values; throws iff `null`, or the keys pass both key stages and some value has no string conversion |
| Validation.ValidateV2Purposes | src/validation.ts:76-102 | accepted iff the version 2 key set and boolean values; throws iff `null`, or the keys pass both key stages and some value has no string conversion |
| Validation.PurposesExclusive | src/validation.ts:47-102 | purposes one version accepts, the other version rejects |
| Validation.EmptyArrayPurposes | src/validation.ts:48-67 | `[]` passes the type and key stages and fails with "missing required purpose" for both versions |
| Validation.ValidateRecord | src/validation.ts:171-215 | a `null` or `undefined` body throws; a record it builds carries the given version and `time` equal to the clock |
| Validation.ValidateV1Object | src/validation.ts:171-192 | a record it builds is tagged version 1, stamped with the clock, and has exactly the version 1 purposes, all boolean |
| Validation.ValidateV2Object | src/validation.ts:194-215 | a record it builds is tagged version 2, stamped with the clock, and has exactly the version 2 purposes, all boolean |
| Validation.ValidateRecordThrows | src/validation.ts:171-215 | on a body that is not `null` or `undefined`, assembly throws iff purposes are `null`, or have the right keys and a value without a string conversion |
| Validation.ValidateRecordSucceeds | src/validation.ts:171-215 | record assembly succeeds iff the body is not `null` or `undefined` and all four field validators succeed; the record then holds the validated iab, source, purposes and browserId, the version, and `time` equal to the clock |
| Validation.ValidateRecordErrNonEmpty | src/validation.ts:171-215 | every failure of record assembly has a non-empty message |
| Validation.ValidateRecordFails | src/validation.ts:174-180 | when the purposes validator does not throw, assembly completes, fails iff some field validator fails, and reports the failures in the order iab, source, purposes, browserId, joined by "; " |
| Validation.ValidateObject | src/validation.ts:149-169 | a `null` or `undefined` body throws; an invalid version gives exactly the version error; "1" dispatches to the version 1 record and "2" to the version 2 record, with no other branch |
| Validation.VersionCheckedFirst | src/validation.ts:152-154 | with an invalid version the other fields do not affect the outcome |
| Validation.ParseJson | src/validation.ts:217-224 | unparseable text gives "Error parsing submission body" |
| Validation.ParseJsonErrNonEmpty | src/validation.ts:149-224 | every failure `parseJson` returns has a non-empty message, on every path: parse error, version error, field errors |
| Validation.ParseJsonSound | src/validation.ts:217-224 | every accepted submission parses to an object whose `version`, `iab`, `source`, `purposes` and `browserId` equal the record's fields (the object may carry other fields, and `time` is the clock), and the record satisfies every field constraint of its version |
| Validation.ValidateObjectRoundTrip | src/validation.ts:149-215 | an object holding a well-formed record's fields validates to that record |
| Validation.ParseJsonRoundTrip | src/validation.ts:217-224 | a submission built from a well-formed record parses back to that record |
| Validation.ParseJsonCatches | src/validation.ts:217-224 | a `null` body, or `null` purposes under a supported version, gives the parse error instead of throwing |
| Validation.ParseJsonUnprintablePurposes | src/validation.ts:217-224 | a supported version with purposes that have the right keys and a value without a string conversion gives "Error parsing submission body" |
| Validation.ToStringPurposeUnprintable | src/validation.ts:47-62 | `{"personalisedAdvertising": {"toString": 0}}` has exactly the version 1 keys and a value without a string conversion |
| Validation.ToStringPurposeFails | src/validation.ts:217-224 | a version 1 body with purposes `{"personalisedAdvertising": {"toString": 0}}` gives "Error parsing submission body", whatever its other fields |
| Validation.UnsupportedVersionFails | src/validation.ts:142 | a version string other than "1" and "2" ends in "<v> is not a valid version" |
| Validation.EmptyObjectFails | src/validation.ts:145 | `{}` fails with "expected string for version" |
| Validation.ValidateObjectTwoFailures | src/validation.ts:171-215 | source and browserId both invalid: both messages, in field order, joined by "; " |
| Validation.TwoFieldErrorsAccumulate | src/validation.ts:217-224 | the same for a parsed submission |
| Validation.V1SubmissionAccepted | src/validation.ts:171-192 | the version 1 submission with one consented purpose validates to the expected record |
| Validation.ValidateObjectMissingPurpose | src/validation.ts:194-215 | valid fields except a purposes object missing a required key give "missing required purpose" alone |
| Validation.EssentialOnlyIncomplete | src/validation.ts:76-102 | `{"essential": true}` has only version 2 keys and lacks "performance" |
| Validation.V2ObjectMissingPurpose | src/validation.ts:194-215 | the version 2 body with only "essential" validates to "missing required purpose" |
| Validation.V2SubmissionMissingPurpose | src/validation.ts:194-215 | a version 2 submission with only "essential" fails with "missing required purpose" |
| Cors.HostnameMatches | src/cors.ts:9-20 | throws "Empty entry in CORS domain whitelist is not allowed" exactly for the empty entry |
| Cors.LiteralEntry | src/cors.ts:16-18 | a literal entry lets through exactly the hostname equal to it, and never throws |
| Cors.WildcardEntry | src/cors.ts:12-15 | ".d" lets through exactly `d` itself and the names whose last labels are `d` (preceded by a dot), and never throws |
| Cors.WildcardRejectsShorter | src/cors.ts:12-15 | a wildcard never lets through a hostname shorter than its domain, such as a superdomain |
| Cors.WildcardRejectsDotlessSuffix | src/cors.ts:12-15 | a wildcard never lets through a name that ends in the domain without a dot before it |
| Cors.LiteralExamples | src/cors.ts:16-18 | the literal cases of the tests: equal hosts match; subdomain, apex, look-alike and different IP do not |
| Cors.WildcardAcceptExamples | src/cors.ts:12-15 | apex, subdomain and nested subdomain of ".example.com" match |
| Cors.WildcardRejectExamples | src/cors.ts:12-15 | superdomains of the wildcard's domain do not match |
| Cors.WildcardLookAlikeExample | src/cors.ts:12-15 | the dot-less look-alike "foo-example.com" does not match ".example.com" |
| Cors.WildcardForeignExamples | src/cors.ts:12-15 | "foo.com", "example.com.au" and "foo.example.com.au" do not match ".example.com" |
| Cors.AnyAllows | src/cors.ts:25-26 | `some` over the empty list is false; when it throws, the error is the empty-entry error and the list holds an empty entry |
| Cors.AnyAllowsSpec | src/cors.ts:23-27 | `some` is true iff an entry letting the hostname through comes before any empty entry, throws iff an empty entry comes first, and then throws the empty-entry error |
| Cors.AnyAllowsNoEmptyEntry | src/cors.ts:23-27 | with no empty entry `some` never throws and is true iff some entry lets the hostname through |
| Cors.CheckHostname | src/cors.ts:23-27 | an unparseable URL throws "Invalid URL"; an empty whitelist gives false; for a parseable URL the result is true iff an entry letting its hostname through comes before any empty entry, and it throws, with the empty-entry error, iff an empty entry comes first |
| Cors.ParseCorsWhitelist | src/cors.ts:29-31 | every entry is non-empty and comma-free, and the entries are exactly the non-empty pieces of the split |
| Cors.NonEmptyPieces | src/cors.ts:30 | the filter keeps exactly the non-empty pieces |
| Cors.NonEmptyPiecesAppend | src/cors.ts:30 | the filter distributes over concatenation, keeping order |
| Cors.NonEmptyPiecesKeeps | src/cors.ts:30 | a list without empty pieces passes the filter unchanged |
| Cors.ParsedEntriesWellFormed | src/cors.ts:29-31 | every parsed entry is non-empty and comma-free, so matching against the parsed list never throws |
| Cors.TrailingCommaIgnored | src/cors.ts:29-31 | a trailing comma adds nothing |
| Cors.ParseJoinRoundTrip | src/cors.ts:29-31 | writing a parsed list back with commas and parsing again gives the same list |
| Cors.ParseTwoEntries | src/cors.ts:29-31 | "localhost,.example.com" gives the two entries in order |
| Cors.ParseTrailingComma | src/cors.ts:29-31 | "localhost,.example.com," gives the same two entries |
| Cors.ParseSingleEntry | src/cors.ts:29-31 | "localhost" gives the one entry |
| Cors.CorsCheck | src/cors.ts:33-44 | throws iff the hostname check throws; no headers iff the check is false; otherwise headers with the URL as origin and the fixed methods and headers |
| Cors.CorsCheckConfigured | src/cors.ts:33-44 | with a configured list and a parseable URL, headers are granted exactly when some entry lets the hostname through |
| LegacyModel.IsValidSourceType | src/model.ts:36 | true iff one of "cmp-ui", "ios", "www", "support" |
| LegacyModel.IsValidPurposeType | src/model.ts:37 | true iff one of the four declared purposes, spelled "personaliseaAds" as in the enum |
| LegacyModel.IsValidConsentString | src/model.ts:39-50 | false for the empty string and false when the decoder throws; true otherwise |
| LegacyModel.EveryPurposeType | src/model.ts:53 | true iff every key is a declared purpose |
| LegacyModel.EveryBoolean | src/model.ts:54 | true iff every value is a boolean |
| LegacyModel.IsValidPurposes | src/model.ts:52-54 | throws exactly on `null` and `undefined` |
| LegacyModel.IsValidPurposesObject | src/model.ts:52-54 | an object is valid iff every key is a declared purpose and every value is boolean |
| LegacyModel.IsValidPurposesExamples | src/model.ts:52-54 | the empty object and empty array are accepted; "personalisedAdvertising" is not a legacy purpose |
| LegacyModel.NonEmptyArrayPurposesInvalid | src/model.ts:52-54 | a non-empty array is never valid purposes |
| LegacyModel.IsValidBrowserId | src/model.ts:56 | true iff the string has a non-whitespace character |
| LegacyModel.HasKey | src/model.ts:60 | `in` throws a `TypeError` exactly when the value is neither an object nor an array; on an object it finds the own keys and the names inherited from `Object.prototype`; on an array it finds "length" and every inherited name |
| LegacyModel.InheritedNamesFound | src/model.ts:60 | an inherited name such as "toString" is found even in `{}` and `[]` |
| LegacyModel.ArrayOwnNamesFound | src/model.ts:60 | an array has "length" and each of its index strings |
| LegacyModel.RequiredKeysNotInherited | src/model.ts:59 | none of "iab", "version", "time" is an inherited name, "length" or an index |
| LegacyModel.HasRequiredKey | src/model.ts:59-60 | for a required key, `in` on an object sees just the own keys, and an array never has one |
| LegacyModel.EveryKeyIn | src/model.ts:60 | on an object or array, true iff `in` finds every listed key; on anything else with keys to test, throws a `TypeError` |
| LegacyModel.ValidateObject | src/model.ts:58-61 | an object passes iff it has "iab", "version" and "time" among its own keys; an array never passes; anything else throws |
| LegacyModel.ValidateObjectIgnoresValues | src/model.ts:58-61 | only the keys count, never the values |
| LegacyModel.ParseJson | src/model.ts:63-70 | whatever is returned is exactly the parsed value |
| LegacyModel.ParseJsonSpec | src/model.ts:63-70 | the parsed object comes back unchanged iff it is an object with the three keys; otherwise `null`, including when parsing or the key check throws |
| LegacyModel.ParseJsonExamples | src/model.ts:63-70 | `{}` and `null` give `null`; an object with the three keys comes back whatever its values |
| Utilities.StrEnum | src/utilities.ts:1-6 | the map's keys are exactly the distinct elements of the input, and each maps to itself |
| Utilities.Copy | src/utilities.ts:12-14 | same length and equal elements in the same order |

## Left out

- The HTTP handlers, the development server and the AMP endpoint
  (src/index.ts, src/local.ts, src/amp.ts) are not part of this model. They
  are I/O around the validators.
- `JSON.parse`, the consent-string decoder and Node's URL parser are
  collaborators. They are given as the parameters `parse`, `decodes` /
  `constructs` and `hostnameOf`. The model says nothing about their insides.
- `Date.now()` is the parameter `now`.
- Js.Prop: only an object's own fields are visible. Inherited properties,
  and an array's or string's own `length` and index properties, are not
  modelled. None of the names the validators read is such a property.
- Js.Json: the field order of a parsed object is taken as given. JavaScript
  enumerates integer-like keys first; producing that order is left to the
  parser.
- Js.Display: a number is carried as its `String()` rendering. No numeric
  value is computed with. The `TypeError` raised for a value without a string
  conversion is one fixed error value; its message text is not modelled.
- Strings: a JavaScript string is a sequence of UTF-16 code units; a Dafny
  `string` is a sequence of Unicode scalar values. Lone surrogates cannot be
  represented, and `length` and indexing differ for characters outside the
  Basic Multilingual Plane. The code only tests emptiness, equality,
  suffixes, membership and whitespace, which do not depend on the encoding.
- Js.Json: an object's fields are assumed to have distinct names. For
  duplicate names `JSON.parse` keeps the last value, while `Js.Lookup` reads
  the first; producing distinct names is left to the parser.
- Errors.Result: `isCmpError` is the datatype's `Err?` test. The duck-typed
  check (any value with a `message` property) is not modelled, so a success
  value that happens to have a `message` field is never taken for an error.
- `IsNumber` in src/model.ts is not modelled. It only reflects over the
  enums, so the legacy source and purpose lists are declared directly.
- `assertUnreachable` (src/utilities.ts:8-10) has no member. Its one use,
  the `default` branch of the version switch, becomes an exhaustive match on
  the two-valued `Version` datatype in `Validation.ValidateObject`. No input
  reaches a third branch.
- Utilities.StrEnum: the accumulator object that `reduce` updates in place
  (and hands on from step to step) is a `map` value that the loop reassigns.
  The map has no key order, so the order in which the object's keys would be
  enumerated is not modelled.
- LegacyModel.HasKey: the inherited names are those of ECMAScript 2023.
  Symbol-keyed properties, and names that other engines or later editions
  add to `Object.prototype` or `Array.prototype`, are not modelled. The only
  keys the code tests ("iab", "version", "time") are none of them.
- LegacyModel.EveryKeyIn: it inherits `HasKey`'s set of inherited names, with
  the same limits.
- Validation.ValidatePurposesNonBoolean: it requires every value to have a
  string conversion. When one does not, the validator throws instead of
  failing; Validation.ValidatePurposesThrows states that case.
- Validation.ValidateRecordFails: it requires the purposes validator not to
  throw. Validation.ValidateRecordThrows states when it throws.
- Validation.ValidatePurposesAccepts: it requires a non-empty required list
  without the key "0". Both versions' lists meet this, and
  Validation.ZeroIsNotAPurpose states it.
