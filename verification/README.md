# JJParser validate-and-correct core, in Dafny

JJParser takes a JSON text and a JSON Schema and returns the text corrected
to the schema's types. A quoted number becomes a number when the schema says
`integer`, and so on. Anything the schema forbids raises a `ValidatorException`.
A value that cannot be coerced raises a `ParserException`.

This project models the part of the engine whose code is on hand:

- the object validator (`ObjectValidator.validateObject` and its helpers).
  It checks `required`, then the `minProperties`/`maxProperties` count, then
  rewrites the values named by `properties`, then those whose keys match a
  `patternProperties` regex. Last it applies `additionalProperties` to the
  keys neither step claimed. Nested objects are validated recursively;
- the entry point `JavaJsonParser.parseJson`, both overloads. It handles the
  trivial schemas (`{}`, `true`, `false`) and routes on the schema's `type`
  to exactly one validator;
- `DataTypeConverter.convertToBoolean` and `convertToInt`;
- the quote-stripping pattern `^"|"$` and the six type-name sets of
  `ValidatorConstants`.

Modules, leaves first:

- `Wrappers`: `Option`, `Result`, `Outcome`.
- `Exceptions`: the error kinds. `ParserException` and `ValidatorException`
  are the checked ones. `RuntimeException` stands for every unchecked Java
  exception the code can raise: a failed cast, `getAsString` on null, a
  null dereference.
- `Gson`: the JSON tree as Gson holds it.
  - Objects are insertion-ordered member lists.
  - `Put` is `remove` followed by `add`, so a replaced key moves to the end.
  - `AsString` is `getAsString`.
  - `Serialize` is `toString`, with JsonWriter's escaping.
- `ValidatorConstants`: `Strip` (the `^"|"$` replacement), the key sets,
  `Classify` and the two ways the code reads a `type` text.
- `DataTypeConverter`: the two converters. `String.trim` and
  `Integer.parseInt` are written out.
- `Collaborators`: `Env`, a record of functions standing for the code this
  model does not include:
  - the boolean, string, numeric, array and null validators;
  - `Matcher.find`;
  - Gson's text parser.

  Every property below holds whatever those functions do.
- `ObjectValidator`: validateObject and its helpers, as pure functions.
  The recursion decreases on the schema.
- `JavaJsonParser`: the two `parseJson` overloads. A Java `null` argument
  or result is `None`.

### Where the code and its description differ (the model follows the code)

- A replaced value is stored by removing its key and adding it again. Gson
  keeps insertion order, so the key moves to the end of the object; it does
  not keep its position. `ObjectValidator.ParseAndReplace` states this.
  Rewrites under `properties` use `setValue` and do keep the position.
- Under `properties`, a key is rewritten only when its child schema is an
  object that has a `type`. Other declared keys keep their values.
- The pool of keys that `additionalProperties` governs is filled only when
  the schema has `properties`. Without `properties`,
  `additionalProperties: false` never rejects anything.
- Under `patternProperties` and a schema-valued `additionalProperties`, an
  unrecognised `type` does not leave the value alone. The value is
  replaced by JSON null, because `JsonObject.add(key, null)` stores
  `JsonNull`. Under `properties`, the value stays unchanged. At top level
  the result is `null` and no exception is raised.
- The `type` of a pattern's schema is read with `getAsString`. Everywhere
  else it is read with `toString`. The two readings differ:
  - a `type` given as the string `"number"` with the quotes included is
    the numeric type under `patternProperties`, and no type elsewhere;
  - a JSON null `type` selects the null validator through `toString`, but
    makes `getAsString` fail under `patternProperties`.

  `ValidatorConstants.QuotedTypeReadingsDiverge` and
  `ValidatorConstants.NullTypeReadingsDiverge` state this.
- Under `properties`, the boolean, string and numeric validators receive the
  value's `getAsString` text. Under `patternProperties` and
  `additionalProperties` they receive its `toString` text, which is quoted
  for a string.
- A primitive `additionalProperties` is converted to a boolean even when no
  key is left over, so `"additionalProperties": "yes"` always raises a
  `ParserException`.
- The code has casts that can fail: `(JsonObject) schema.get("properties")`,
  `getAsJsonObject` on a pattern's schema or on a value typed `object`, and
  `getAsString` on a `required` entry or a bound. These are modelled as the
  `RuntimeException` error kind. They are not preconditions, so every input
  is accepted by the model.

## Model

| member | source | states |
|---|---|---|
| ValidatorConstants.Strip | src/main/java/contants/ValidatorConstants.java:15-16 | the result is a contiguous piece of the input at most two characters shorter; it loses exactly one character per end that carries a quote (one in all for a lone `"`); text with no quote at either end is unchanged |
| ValidatorConstants.StripQuoted | src/main/java/contants/ValidatorConstants.java:15-16 | stripping `"t"` gives back `t` for every text `t` |
| ValidatorConstants.Classify | src/main/java/contants/ValidatorConstants.java:22-27 | a type text gets a kind exactly when it belongs to that kind's key set, and no kind exactly when it belongs to none |
| ValidatorConstants.KeySetsDisjoint | src/main/java/contants/ValidatorConstants.java:22-27 | the six key sets are pairwise disjoint, so the order of the membership tests never matters |
| ValidatorConstants.ClassifyIsCaseSensitive | src/main/java/contants/ValidatorConstants.java:23-27 | `String` is recognised as a string type; `Boolean`, `Integer`, `Number`, `Object` and `Null` are not recognised |
| ValidatorConstants.TypeTextOfString | src/main/java/parser/JavaJsonParser.java:92-93 | a string `type`, read through `toString` and then stripped, is the escaped string, and it classifies the same as the raw string |
| ValidatorConstants.TypeText | src/main/java/validators/ObjectValidator.java:134-135 | a string `type` reads as its escaped text and classifies as the raw string; JSON null reads as the null type name; an array or object `type` is never a type name |
| ValidatorConstants.TypeTextAsString | src/main/java/validators/ObjectValidator.java:228-229 | a string `type` reads as the string with its quotes stripped; any primitive is readable; null or an object `type` fails with a RuntimeException; it succeeds exactly when getAsString does |
| ValidatorConstants.TypeReadingsAgree | src/main/java/validators/ObjectValidator.java:228-229 | for a string `type` with no quote at either end, the getAsString reading succeeds and classifies the same as the toString reading |
| ValidatorConstants.QuotedTypeReadingsDiverge | src/main/java/validators/ObjectValidator.java:228-229 | a `type` given as the string `"number"` with its quotes is no type name through toString, but reads as `number` through getAsString |
| ValidatorConstants.NullTypeReadingsDiverge | src/main/java/validators/ObjectValidator.java:228-229 | a JSON null `type` selects the null validator through toString, while getAsString fails on it |
| DataTypeConverter.ConvertToBoolean | src/main/java/utils/DataTypeConverter.java:15-24 | succeeds exactly when the quote-stripped text is `true` or `false`, and returns the boolean it spells; every failure is a ParserException |
| DataTypeConverter.BooleanRoundTrip | src/main/java/utils/DataTypeConverter.java:17-19 | each boolean's text, bare or quoted, converts back to that boolean |
| DataTypeConverter.ConvertToBooleanRejects | src/main/java/utils/DataTypeConverter.java:16-23 | the empty text, `Banana`, `True` and ` true` are all rejected with a ParserException: the match is case-sensitive and nothing is trimmed |
| DataTypeConverter.Trim | src/main/java/utils/DataTypeConverter.java:30 | the result is a slice of the text such that every character before and after the slice is at or below the space, and the result neither starts nor ends with such a character; text free of those at its ends is unchanged |
| DataTypeConverter.TrimStart | src/main/java/utils/DataTypeConverter.java:30 | the result is a suffix of the text; every dropped character is at or below the space and the first kept one is above it |
| DataTypeConverter.TrimEnd | src/main/java/utils/DataTypeConverter.java:30 | the result is a prefix of the text; every dropped character is at or below the space and the last kept one is above it |
| DataTypeConverter.ParseInt | src/main/java/utils/DataTypeConverter.java:30 | a parsed text is an optional sign followed by one or more digits; the value fits in a Java int; a negative value needs a leading minus |
| DataTypeConverter.ParseIntOfDigits | src/main/java/utils/DataTypeConverter.java:30 | a digit string, bare or after `+`, parses to its decimal value when that is at most the largest int; after `-` it parses to the negated value when that is at least the smallest int; otherwise it is refused |
| DataTypeConverter.ParseIntRejectsOtherText | src/main/java/utils/DataTypeConverter.java:30 | any text that is not a digit string with or without a sign is refused |
| DataTypeConverter.ParseIntExamples | src/main/java/utils/DataTypeConverter.java:30 | `+5` parses to 5, `-07` to -7, and a lone `+` is refused |
| DataTypeConverter.LeadingZeroIgnored | src/main/java/utils/DataTypeConverter.java:30 | a leading zero does not change a digit string's value |
| DataTypeConverter.ConvertToInt | src/main/java/utils/DataTypeConverter.java:26-36 | empty text is a ParserException; otherwise the text is quote-stripped, then trimmed, then parsed; every failure is a ParserException and every result is a Java int |
| DataTypeConverter.IntRoundTrip | src/main/java/utils/DataTypeConverter.java:28-30 | every Java int's decimal text converts back to that int |
| DataTypeConverter.QuotedIntRoundTrip | src/main/java/utils/DataTypeConverter.java:28-30 | every Java int's decimal text between double quotes converts back to that int |
| DataTypeConverter.OutOfRangeRejected | src/main/java/utils/DataTypeConverter.java:30-32 | a digit string above the int range is rejected bare and with `+`; with `-` it is rejected when it is also below the int range |
| Gson.Put | src/main/java/validators/ObjectValidator.java:351-352 | the key set grows by at most the key; the new value is stored; other keys are untouched; the key is now last and the other keys keep their relative order; distinct keys stay distinct, and the length is unchanged when the key was there |
| Gson.Remove | src/main/java/validators/ObjectValidator.java:351 | exactly the named key is dropped; every other key keeps its value and the remaining keys keep their order; with distinct keys the length falls by one exactly when the key was there |
| Gson.AsString | src/main/java/validators/ObjectValidator.java:157-161 | a boolean or number reads as its toString text; a string reads as the text that toString quotes; a one-element array reads as its element; null, an object and any other array fail with a RuntimeException |
| Gson.Serialize | src/main/java/validators/ObjectValidator.java:335-342 | a string is written quoted and escaped; a string, an array and an object are written between their own delimiters, `"`, `[]` and `{}` |
| Gson.AsBoolean | src/main/java/parser/JavaJsonParser.java:56 | a boolean reads as itself; a string or a number reads as true exactly when its text is `true` in any letter case |
| Gson.RemoveWhitespace | src/main/java/parser/JavaJsonParser.java:50 | the result is no longer than the text, holds no whitespace, keeps every other character, and is the text itself when the text has no whitespace |
| Gson.RemoveWhitespaceAppend | src/main/java/parser/JavaJsonParser.java:50 | removing whitespace from a concatenation is the concatenation of the pieces with whitespace removed, and a second removal changes nothing |
| ObjectValidator.CheckRequiredNames | src/main/java/validators/ObjectValidator.java:56-64 | passes exactly when every listed name is a key of the input; fails with a ValidatorException exactly when the first entry that is not present is a readable name the input lacks |
| ObjectValidator.CheckRequired | src/main/java/validators/ObjectValidator.java:54-65 | only an array-valued `required` is checked; fails with a ValidatorException exactly when it names a missing key ahead of any unreadable entry |
| ObjectValidator.ReadBound | src/main/java/validators/ObjectValidator.java:66-79 | an absent bound, or one that strips to empty text, is -1 (unchecked); any other bound is the int conversion of its stripped text; for a primitive, failure is a ParserException |
| ObjectValidator.BoundReadsDecimal | src/main/java/validators/ObjectValidator.java:66-79 | a bound written as an int, as a number or as a string, reads back as that int |
| ObjectValidator.CheckPropertyCount | src/main/java/validators/ObjectValidator.java:275-293 | passes exactly when the count is within both bounds, inclusive, with -1 leaving a bound unchecked; failure is a ValidatorException |
| ObjectValidator.PropertiesOf | src/main/java/validators/ObjectValidator.java:80-83 | fails exactly when `properties` is present but not an object; otherwise it yields `properties` when present |
| ObjectValidator.AfterProperties | src/main/java/validators/ObjectValidator.java:101-102 | the `properties` step keeps the key order; without `properties` it changes nothing; with it, it fails exactly when processSchemaProperties does, with the same error |
| ObjectValidator.AfterPropertiesValues | src/main/java/validators/ObjectValidator.java:124-141 | after the `properties` step a governed key holds its entry's update of its input value and every other key its input value |
| ObjectValidator.SchemaPropertiesPresent | src/main/java/validators/ObjectValidator.java:93-99 | the listed keys are exactly those both declared under `properties` and present in the input |
| ObjectValidator.UpdateEntry | src/main/java/validators/ObjectValidator.java:152-174 | an unrecognised type keeps the value; the boolean, string and numeric types hand the validator the getAsString text and the array type the toString text, and the result is exactly that validator's answer, a failure of getAsString being a RuntimeException; the null type gives JSON null when the null validator passes and its error otherwise; the `object` type fails on a non-object and otherwise gives the nested validation's result or error |
| ObjectValidator.EntryUpdate | src/main/java/validators/ObjectValidator.java:131-136 | a governed entry's update is computed under its child schema and that schema's toString type reading, and a success is a value that type allows |
| ObjectValidator.UpdateEntries | src/main/java/validators/ObjectValidator.java:126-139 | succeeds exactly when every governed entry from the start index updates; then keys and positions are kept, passed and ungoverned entries keep their values and each governed entry holds its own update; a failure carries the error of the first governed entry, in input order from the start index, whose update fails |
| ObjectValidator.FirstEntryFailsOnce | src/main/java/validators/ObjectValidator.java:126-139 | the first governed entry whose update fails determines one error: two errors that both qualify are equal |
| ObjectValidator.ProcessSchemaProperties | src/main/java/validators/ObjectValidator.java:124-141 | inputProperties lists every input key in order; succeeds exactly when every governed entry updates; then keys and positions are kept, ungoverned entries are unchanged and each governed entry holds its update; a failure carries the error of the first governed entry, in input order, whose update fails |
| ObjectValidator.SchemaPropertiesValues | src/main/java/validators/ObjectValidator.java:124-141 | read by key, processSchemaProperties leaves under a governed key its entry's update of the key's input value and under any other key its input value |
| ObjectValidator.ReplacementFor | src/main/java/validators/ObjectValidator.java:333-350 | an unrecognised type gives JSON null; the boolean, string, numeric and array types give exactly the validator's answer to the value's toString text; the null type gives JSON null when the null validator passes and its error otherwise; the `object` type fails on a non-object and otherwise gives the nested validation's result or error |
| ObjectValidator.ParseAndReplace | src/main/java/validators/ObjectValidator.java:331-353 | no key other than the given one changes; the call succeeds exactly when the key's replacement does and otherwise carries its error; a present key's replacement is the validator's answer on that key's own value, stored under the key, which moves to the end while the other keys keep their order; an absent key is added with JSON null under the null type or an unrecognised type and fails otherwise |
| ObjectValidator.ReplaceAll | src/main/java/validators/ObjectValidator.java:310-312 | for distinct keys, succeeds exactly when every listed key's replacement does, and otherwise fails with the error of the first listed key whose replacement fails; on success each listed key holds the replacement of its own input value and every other key keeps its value; keys are kept and none is added when all listed keys are present; the result lists the unlisted keys in their input order, then the listed keys in list order |
| ObjectValidator.MatchingKeys | src/main/java/validators/ObjectValidator.java:254-265 | a key is returned exactly when it is among the given keys and the pattern is found in it; distinct keys give distinct matches |
| ObjectValidator.Record | src/main/java/validators/ObjectValidator.java:233-236 | the recorded keys become the union of the old ones and the new ones, still without duplicates |
| ObjectValidator.ApplyPattern | src/main/java/validators/ObjectValidator.java:225-243 | a non-object pattern schema fails; one without `type` is a ValidatorException; a `type` getAsString cannot read fails; otherwise, with distinct input keys, it succeeds exactly when every key the pattern is found in is replaced without error, fails with the first such key's error, and on success each such key holds its validator's answer, under the getAsString type reading, on its own input value; other keys are untouched and the key set is kept; the matched keys come back in key order, and with distinct input keys the result lists the unmatched keys in their order, then the matched ones in theirs |
| ObjectValidator.ReplaceMatching | src/main/java/validators/ObjectValidator.java:230-238 | the keys the pattern is found in are returned and replaced in turn; with distinct input keys it succeeds exactly when all their replacements do, fails with the first failing key's error, and on success each such key holds the replacement of its own input value; other keys are untouched; the matched keys come back in key order, and with distinct input keys they end up behind the unmatched keys, each group in its previous order |
| ObjectValidator.ApplyPatterns | src/main/java/validators/ObjectValidator.java:221-245 | a bad schema at the current pattern decides the error; success means every remaining pattern schema has a readable `type`; recorded keys are the keys some remaining pattern is found in, each once; keys no pattern matches keep their values; with distinct input keys, each key ends with the fold of its input value through the patterns found in it, in declared order, each replacing the value the previous one left, and the keys end in the order PatternKeyOrder gives: each pattern in turn moves the keys it is found in behind the others |
| ObjectValidator.PatternsSucceedIff | src/main/java/validators/ObjectValidator.java:224-238 | with every remaining pattern typed and distinct input keys, the patterns succeed exactly when every key's fold through the patterns found in it succeeds |
| ObjectValidator.PatternsFailWithFold | src/main/java/validators/ObjectValidator.java:224-238 | with every remaining pattern typed and distinct input keys, a failure is the error with which some key's fold fails |
| ObjectValidator.PatternFoldUnmatched | src/main/java/validators/ObjectValidator.java:231-238 | a key no remaining pattern is found in keeps its value through the fold |
| ObjectValidator.PatternFoldSingle | src/main/java/validators/ObjectValidator.java:231-238 | a key exactly one remaining pattern is found in ends with that pattern's validator answer on the key's value, or its error |
| ObjectValidator.ProcessPatternProperties | src/main/java/validators/ObjectValidator.java:219-245 | a non-object `patternProperties` fails; on success every pattern schema has a readable `type`, the recorded list has no duplicates and holds exactly the input keys some pattern is found in, the key set is kept, unmatched keys keep their values, and with distinct input keys each key holds the fold of its input value through the patterns found in it, in declared order, and the keys end in the order PatternKeyOrder gives |
| ObjectValidator.Leftover | src/main/java/validators/ObjectValidator.java:191-192 | a key is left over exactly when it is an input property that is neither declared nor pattern-matched; distinct input properties give distinct leftover keys |
| ObjectValidator.ValidateMultiple | src/main/java/validators/ObjectValidator.java:303-319 | an empty schema or key list changes nothing; a non-empty schema without `type` is a ValidatorException; otherwise, for distinct keys, it succeeds exactly when every listed key's replacement under the toString type reading does, fails with the first failing key's error, and on success each listed key holds the replacement of its own input value while every other key keeps its value; the result lists the unlisted keys in their input order, then the listed keys in list order |
| ObjectValidator.ValidateLeftover | src/main/java/validators/ObjectValidator.java:203-205 | an object `additionalProperties` rewrites only the leftover keys, keeps the key set when they are present, and changes nothing when it is empty; with distinct leftover keys, the result lists the other keys in their order, then the leftover keys in leftover order |
| ObjectValidator.ProcessAdditionalProperties | src/main/java/validators/ObjectValidator.java:187-208 | a primitive converting to false fails exactly when some key is left over; one converting to true changes nothing; a primitive that does not convert is a ParserException; null or an array imposes nothing; an empty object changes nothing; a schema changes only the leftover keys; a non-empty object schema, when the input key list has no duplicate, moves them, in that list's order, behind the other keys |
| ObjectValidator.AdditionalSchemaRewrites | src/main/java/validators/ObjectValidator.java:203-205 | a non-empty object `additionalProperties` without `type` is a ValidatorException once some key is left over; with `type` and distinct input properties it succeeds exactly when every leftover key's replacement does, fails with the first failing leftover key's error, and on success each leftover key holds the replacement of its own value |
| ObjectValidator.ClaimKeys | src/main/java/validators/ObjectValidator.java:48-107 | a missing required key is a ValidatorException; success implies readable bounds and a count within them; keys are kept; the three key lists hold exactly the input keys (when `properties` exists, else none), the declared keys present in the input and the pattern-matched input keys |
| ObjectValidator.ClaimKeysOrder | src/main/java/validators/ObjectValidator.java:84-107 | with distinct input keys, the object after the `properties` and `patternProperties` steps has its keys in the order PatternedOrder computes from the input's keys alone |
| ObjectValidator.LeftoverUnclaimed | src/main/java/validators/ObjectValidator.java:191-192 | the keys left after removing the declared and the pattern-matched ones are exactly the input keys that `properties` does not declare and no pattern is found in, in input order |
| ObjectValidator.ValidateObject | src/main/java/validators/ObjectValidator.java:48-113 | never adds or drops a key and keeps keys distinct; a missing required key is a ValidatorException whatever the other validators do; success implies the property count was within the bounds |
| ObjectValidator.ValidateObjectKeyOrder | src/main/java/validators/ObjectValidator.java:48-113 | with distinct input keys, a validated object has its keys in the order KeyOrder computes from the input's keys and the schema alone: patterns move their matched keys behind the rest, then a non-empty object `additionalProperties` moves the unclaimed keys, in input order, to the end |
| ObjectValidator.UnpatternedKeepsOrder | src/main/java/validators/ObjectValidator.java:48-113 | without `patternProperties` and without an object-valued `additionalProperties`, a validated object keeps the input's key order |
| ObjectValidator.AdditionalFalseRejectsUnclaimed | src/main/java/validators/ObjectValidator.java:187-202 | with `additionalProperties` false (or any primitive converting to false), once the earlier steps succeed, validation fails, with a ValidatorException, exactly when `properties` exists and some input key is neither declared nor matched by a pattern; a success returns the earlier steps' result unchanged |
| ObjectValidator.AdditionalTrueAcceptsAll | src/main/java/validators/ObjectValidator.java:193-196 | with `additionalProperties` true the result is that of the earlier steps |
| ObjectValidator.PropertyCountOutOfBounds | src/main/java/validators/ObjectValidator.java:84-87 | once `required` passes and the bounds and `properties` are readable, a count outside the bounds is a ValidatorException |
| ObjectValidator.UnconstrainedSchemaKeepsInput | src/main/java/validators/ObjectValidator.java:48-113 | a schema with none of the object keywords returns the input unchanged |
| ObjectValidator.PropertiesReachClaims | src/main/java/validators/ObjectValidator.java:101-106 | once the steps before `additionalProperties` succeed, a key no pattern matches holds its `properties` update when governed and its input value otherwise, so the patterns run on the `properties` result |
| ObjectValidator.PatternsReachClaims | src/main/java/validators/ObjectValidator.java:101-107 | once the steps before `additionalProperties` succeed, with distinct input keys, each key holds the fold, through the patterns found in it in declared order, of the value the `properties` step left; in particular a value allowed by the type of its last matching pattern |
| ObjectValidator.ReadErrorsPropagate | src/main/java/validators/ObjectValidator.java:54-83 | the first of `required`, `minProperties`, `maxProperties` and `properties` that fails decides validation's error, in that order |
| ObjectValidator.PropertiesErrorPropagates | src/main/java/validators/ObjectValidator.java:84-102 | once the reads and the count pass, a failing `properties` step is validation's error, and that error is the update error of the first governed entry, in input order, whose update fails |
| ObjectValidator.PatternsErrorPropagates | src/main/java/validators/ObjectValidator.java:104-107 | once the reads, the count and `properties` pass, a failing `patternProperties` step is validation's error, and with typed patterns and distinct keys it is the error some key's fold fails with |
| ObjectValidator.UntypedPatternRejected | src/main/java/validators/ObjectValidator.java:239-243 | once the reads, the count and `properties` pass, a first pattern whose schema is an object without `type` makes validation fail with a ValidatorException |
| ObjectValidator.AdditionalErrorPropagates | src/main/java/validators/ObjectValidator.java:109-110 | once the earlier steps succeed, a failing `additionalProperties` step is validation's error; for an object schema with `type` and distinct input keys, validation succeeds exactly when every leftover key's replacement does and otherwise fails with the first failing leftover key's error |
| ObjectValidator.AdditionalReachesResult | src/main/java/validators/ObjectValidator.java:203-205 | with `properties` present and an object `additionalProperties` with `type`, a successful validation leaves under each input key that is neither declared nor pattern-matched the validator's answer, under the toString type reading, on that key's own input value |
| ObjectValidator.ClaimedKeysKept | src/main/java/validators/ObjectValidator.java:187-208 | a successful validation ends with the value the earlier steps left under a key, unless `additionalProperties` is an object schema and the key is handed to it, that is `properties` exists and the key is neither declared nor pattern-matched |
| ObjectValidator.UntypedAdditionalRejected | src/main/java/validators/ObjectValidator.java:313-317 | with `properties` present, a non-empty object `additionalProperties` without `type` makes validation fail with a ValidatorException as soon as some input key is neither declared nor pattern-matched |
| ObjectValidator.UnclaimedKeys | src/main/java/validators/ObjectValidator.java:191-192 | a key is left for `additionalProperties` exactly when `properties` exists and the key is neither declared nor pattern-matched |
| ObjectValidator.EntryAccepted | src/main/java/validators/ObjectValidator.java:152-174 | with validators that accept everything, an entry whose child type is not `object` and whose text can be read updates without error |
| ObjectValidator.PropertiesAccepted | src/main/java/validators/ObjectValidator.java:124-141 | with validators that accept everything, `properties` succeeds when every governed entry is such an entry |
| ObjectValidator.ReplacementAccepted | src/main/java/validators/ObjectValidator.java:333-350 | with validators that accept everything, any type name other than `object` replaces any value |
| ObjectValidator.ReplaceAllAccepted | src/main/java/validators/ObjectValidator.java:310-312 | with validators that accept everything, parseAndReplaceValues succeeds on every present key under any type name other than `object` |
| ObjectValidator.PatternsAccepted | src/main/java/validators/ObjectValidator.java:221-245 | with validators that accept everything, patterns whose schemas declare a readable type other than `object` all succeed |
| ObjectValidator.AdditionalAccepted | src/main/java/validators/ObjectValidator.java:187-208 | with validators that accept everything, `additionalProperties` succeeds when it is a primitive converting to true, neither primitive nor object, or an object schema that is empty or declares a type other than `object` |
| ObjectValidator.ClaimsAccepted | src/main/java/validators/ObjectValidator.java:48-107 | with validators that accept everything, the steps before `additionalProperties` succeed when the reads and the count pass and no `properties` or pattern type is `object` |
| ObjectValidator.FlatSchemaAccepted | src/main/java/validators/ObjectValidator.java:48-113 | with validators that accept everything, validation succeeds when the reads and the count pass, no step recurses into an `object` type, and `additionalProperties` rejects nothing |
| JavaJsonParser.ParseJsonWithSchema | src/main/java/parser/JavaJsonParser.java:87-131 | missing or empty input, or a schema that is not an object, is a ParserException; no `type` is a ValidatorException; an unrecognised type gives null without error; the boolean, string, numeric and array types return the toString text of the validator's answer or its error; the null type returns `null` when the null validator passes and its error otherwise; an `object` type with non-object input is a ValidatorException, and with an object input returns the text of the validated object or the validation error |
| JavaJsonParser.DispatchUsesOneValidator | src/main/java/parser/JavaJsonParser.java:92-115 | two environments that answer the one selected validator call alike give the same result, so no other validator influences the outcome |
| JavaJsonParser.EmptyObjectText | src/main/java/parser/JavaJsonParser.java:48-52 | an object's text, with whitespace removed, is `{}` exactly when the object has no members |
| JavaJsonParser.ParseJson | src/main/java/parser/JavaJsonParser.java:37-75 | missing or empty text is a ParserException; an unparsable schema, `false`, an array or null is a ValidatorException; `{}` and `true` return the input unchanged; any other object goes to the dispatcher, which is the only way to get a different result |
| JavaJsonParser.PrimitiveSchemaIsBoolean | src/main/java/parser/JavaJsonParser.java:54-63 | a primitive schema accepts, returning the input unchanged, exactly when getAsBoolean reads it as true |

## Left out

- The boolean, string, numeric, null and array validators and
  `GSONDataTypeConverter` are not part of this model. They are functions of
  `Env`, so no property here depends on what they do, and the floating-point
  numeric behaviour is not modelled.
- `DataTypeConverter.convertToDouble`: floating-point parsing, not modelled.
- The regular-expression engine: `Matcher.find` is the `find` function of
  `Env`. Exceptions for an invalid regex are not modelled.
- Gson's text parser is the `parse` function of `Env`; a syntax error is
  `None`. The JSON tree does not model number values, only their lexemes.
- Java's `$` also matches before a final line terminator. `Strip` assumes the
  text has no trailing line terminator before a closing quote.
- `Integer.parseInt` also accepts non-ASCII Unicode digits. `ParseInt` accepts
  ASCII digits only.
- `getAsBoolean` compares with `true` ignoring case. Only ASCII letters are
  folded here, which is all the word `true` needs.
- Logging and exception message texts are left out; only the error kind is
  kept.
- Java `null` arguments to the converters are left out: every caller passes
  a string read from a Gson element.
- The integration test's resource files are not part of this model.
- Validators returning Java `null`: the `Env` validators always return a
  JSON value or an error, so the branch at
  src/main/java/parser/JavaJsonParser.java:116-119 that returns `null`
  because a validator returned `null` is reached in the model only through an
  unrecognised type.
- ObjectValidator.ValidateObject: its own contract states the key set, the
  distinct keys, the required check and the count. The key order is stated
  by ValidateObjectKeyOrder and UnpatternedKeepsOrder, and that of the
  intermediate object by ClaimKeysOrder. The values and errors of
  the later steps are stated at validateObject level by separate lemmas:
  ReadErrorsPropagate, PropertiesReachClaims, PropertiesErrorPropagates,
  PatternsReachClaims, PatternsErrorPropagates, UntypedPatternRejected,
  AdditionalReachesResult, ClaimedKeysKept, AdditionalErrorPropagates,
  UntypedAdditionalRejected, AdditionalFalseRejectsUnclaimed and
  AdditionalTrueAcceptsAll. A key handed to an object-schema
  `additionalProperties` is covered by AdditionalReachesResult, every other
  key by ClaimedKeysKept together with PropertiesReachClaims or
  PatternsReachClaims.
- Distinct keys: the statements about the value each key ends with assume
  the input object has no duplicate key (`UniqueKeys`, `Distinct`). A Gson
  object never has one; the member-list model of an object could.
- ObjectValidator.PatternsFailWithFold: when several keys fail, the code
  raises the error of the first failing key of the first failing pattern.
  For one pattern, ApplyPattern states that first failing key. Across
  patterns, the model states only that the error is some key's fold error.
- ObjectValidator.PatternsErrorPropagates: at validateObject level, it too
  states only that a failing `patternProperties` step raises some key's fold
  error, not that of the first failing key of the first failing pattern.
- ObjectValidator.ClaimKeys: its own contract states the key set; the key
  order is stated by ClaimKeysOrder.
- ObjectValidator.UntypedPatternRejected: stated for the first pattern only.
  A later pattern without `type` is covered by ApplyPatterns' own contract,
  once the earlier patterns succeed, but not by a validateObject-level lemma.
- ObjectValidator.FlatSchemaAccepted: a sufficient condition for success,
  not a characterisation. Schemas that recurse into an `object` type are
  covered by the error-propagation lemmas only.
