/**
 * ObjectValidator.validateObject: validates a JSON object against an object
 * schema and corrects its values' types, in a fixed sequence of steps:
 * `required`, then the `minProperties`/`maxProperties` count, then
 * `properties`, then `patternProperties`, then `additionalProperties`. The
 * first failure ends the whole call. Nested objects are validated by a
 * recursive call on a sub-schema, so the recursion decreases on the schema.
 *
 * Each step rewrites values of the object the previous step produced; the
 * Java code mutates one Gson object in place, the model passes the updated
 * members from step to step.
 */
module ObjectValidator {
  import opened Wrappers
  import opened Exceptions
  import opened Gson
  import opened ValidatorConstants
  import opened Collaborators
  import DataTypeConverter

  const ADDITIONAL_PROPERTIES := "additionalProperties"
  const MAX_PROPERTIES := "maxProperties"
  const MIN_PROPERTIES := "minProperties"
  const PATTERN_PROPERTIES := "patternProperties"
  const REQUIRED := "required"
  const PROPERTIES := "properties"

  predicate Distinct(s: seq<string>) {
    forall i, j :: 0 <= i < j < |s| ==> s[i] != s[j]
  }

  /** The key lists validateObject has built when it reaches `additionalProperties`,
      named as in the Java code, together with the object as rewritten so far. */
  datatype Claims = Claims(
    members: Members,
    inputProperties: seq<string>,
    schemaProperties: seq<string>,
    patternProperties: seq<string>)

  // ----- required -------------------------------------------------------------

  /** A `required` entry whose text (getAsString) names a key of the input. */
  predicate NamePresent(input: Members, name: Json) {
    AsString(name).Ok? && Has(input, AsString(name).value)
  }

  /** The first `required` entry that is not present is a readable name that the input lacks. */
  predicate FirstAbsentIsMissing(input: Members, names: seq<Json>) {
    exists i :: 0 <= i < |names| && AsString(names[i]).Ok? && !Has(input, AsString(names[i]).value)
      && forall j :: 0 <= j < i ==> NamePresent(input, names[j])
  }

  /** The schema's `required` array names a key the input lacks, ahead of any unreadable entry. */
  predicate RequiredMissing(input: Members, schema: Json)
    requires schema.JsonObject?
  {
    match Member(schema, REQUIRED)
    case Some(JsonArray(names)) => FirstAbsentIsMissing(input, names)
    case _ => false
  }

  /** The loop over the `required` array: each entry read with getAsString and looked up. */
  function CheckRequiredNames(input: Members, names: seq<Json>): (r: Result<(), ErrorKind>)
    ensures r.Ok? <==> forall i :: 0 <= i < |names| ==> NamePresent(input, names[i])
    ensures r == Err(ValidatorException) <==> FirstAbsentIsMissing(input, names)
    ensures r.Err? ==> r.error == ValidatorException || r.error == RuntimeException
  {
    if |names| == 0 then Ok(())
    else
      var rest := names[1..];
      assert forall i :: 0 < i < |names| ==> names[i] == rest[i - 1];
      assert FirstAbsentIsMissing(input, rest) && NamePresent(input, names[0]) ==> FirstAbsentIsMissing(input, names) by {
        if FirstAbsentIsMissing(input, rest) && NamePresent(input, names[0]) {
          var i :| 0 <= i < |rest| && AsString(rest[i]).Ok? && !Has(input, AsString(rest[i]).value)
            && forall j :: 0 <= j < i ==> NamePresent(input, rest[j]);
          assert forall j :: 0 <= j < i + 1 ==> NamePresent(input, names[j]);
        }
      }
      assert FirstAbsentIsMissing(input, names) && NamePresent(input, names[0]) ==> FirstAbsentIsMissing(input, rest) by {
        if FirstAbsentIsMissing(input, names) && NamePresent(input, names[0]) {
          var i :| 0 <= i < |names| && AsString(names[i]).Ok? && !Has(input, AsString(names[i]).value)
            && forall j :: 0 <= j < i ==> NamePresent(input, names[j]);
          assert i > 0;
          assert forall j :: 0 <= j < i - 1 ==> NamePresent(input, rest[j]);
        }
      }
      var name :- AsString(names[0]);
      if !Has(input, name) then Err(ValidatorException)
      else CheckRequiredNames(input, rest)
  }

  /** The `required` step: only an array-valued `required` is checked. */
  function CheckRequired(input: Members, schema: Json): (r: Result<(), ErrorKind>)
    requires schema.JsonObject?
    ensures r == Err(ValidatorException) <==> RequiredMissing(input, schema)
    ensures r.Err? ==> r.error == ValidatorException || r.error == RuntimeException
    ensures r.Ok? <==> match Member(schema, REQUIRED)
                       case Some(JsonArray(names)) => forall i :: 0 <= i < |names| ==> NamePresent(input, names[i])
                       case _ => true
  {
    match Member(schema, REQUIRED)
    case Some(JsonArray(names)) => CheckRequiredNames(input, names)
    case _ => Ok(())
  }

  // ----- minProperties / maxProperties ------------------------------------------

  /**
   * Reads a `minProperties`/`maxProperties` bound: -1, meaning unchecked, when
   * the keyword is absent or its quote-stripped text is empty; otherwise the
   * text converted to an int.
   */
  function ReadBound(schema: Json, keyword: string): (r: Result<int, ErrorKind>)
    requires schema.JsonObject?
    ensures Member(schema, keyword).None? ==> r == Ok(-1)
    ensures r.Ok? ==> r.value == -1 || DataTypeConverter.IsInt32(r.value)
    ensures r.Err? ==> r.error == ParserException || r.error == RuntimeException
    ensures Member(schema, keyword).Some? && Member(schema, keyword).value.IsPrimitive() ==>
              (Strip(AsString(Member(schema, keyword).value).value) == "" ==> r == Ok(-1))
              && (r.Err? ==> r.error == ParserException)
              && (Strip(AsString(Member(schema, keyword).value).value) != "" ==>
                    r == DataTypeConverter.ConvertToInt(Strip(AsString(Member(schema, keyword).value).value)))
  {
    match Member(schema, keyword)
    case None => Ok(-1)
    case Some(value) =>
      var text :- AsString(value);
      var stripped := Strip(text);
      if stripped == "" then Ok(-1) else DataTypeConverter.ConvertToInt(stripped)
  }

  /** A bound written as a decimal int, as a number or as a string, is read back as that int. */
  lemma BoundReadsDecimal(schema: Json, keyword: string, n: int)
    requires schema.JsonObject?
    requires DataTypeConverter.IsInt32(n)
    requires Member(schema, keyword) == Some(JsonNumber(DataTypeConverter.IntText(n)))
          || Member(schema, keyword) == Some(JsonString(DataTypeConverter.IntText(n)))
    ensures ReadBound(schema, keyword) == Ok(n)
  {
    var t := DataTypeConverter.IntText(n);
    var value := Member(schema, keyword).value;
    assert value == JsonNumber(t) || value == JsonString(t);
    assert AsString(value) == Ok(t);
    DataTypeConverter.IntTextIsPlain(n);
    ReadBoundOfText(schema, keyword, t);
    DataTypeConverter.IntRoundTrip(n);
  }

  lemma ReadBoundOfText(schema: Json, keyword: string, t: string)
    requires schema.JsonObject?
    requires Member(schema, keyword).Some? && AsString(Member(schema, keyword).value) == Ok(t)
    requires Strip(t) == t && t != ""
    ensures ReadBound(schema, keyword) == DataTypeConverter.ConvertToInt(t)
  {
  }

  /** doStructuralValidation: the bounds are inclusive, and -1 leaves a bound unchecked. */
  function CheckPropertyCount(maximum: int, minimum: int, count: nat): (r: Result<(), ErrorKind>)
    ensures r.Ok? <==> (minimum == -1 || minimum <= count) && (maximum == -1 || count <= maximum)
    ensures r.Err? ==> r.error == ValidatorException
  {
    if minimum != -1 && count < minimum then Err(ValidatorException)
    else if maximum != -1 && count > maximum then Err(ValidatorException)
    else Ok(())
  }

  // ----- properties ---------------------------------------------------------------

  /** `(JsonObject) schema.get("properties")`: absent gives null, a non-object fails the cast. */
  function PropertiesOf(schema: Json): (r: Result<Option<Json>, ErrorKind>)
    requires schema.JsonObject?
    ensures r.Err? <==> Member(schema, PROPERTIES).Some? && !Member(schema, PROPERTIES).value.JsonObject?
    ensures r.Err? ==> r.error == RuntimeException
    ensures r.Ok? ==> r.value == Member(schema, PROPERTIES)
    ensures r.Ok? && r.value.Some? ==> r.value.value.JsonObject? && r.value.value < schema
  {
    match Member(schema, PROPERTIES)
    case None => Ok(None)
    case Some(properties) => if properties.JsonObject? then Ok(Some(properties)) else Err(RuntimeException)
  }

  /** The schema declares k under an object-valued `properties`. */
  predicate Declares(schema: Json, k: string)
    requires schema.JsonObject?
  {
    match Member(schema, PROPERTIES)
    case Some(JsonObject(declared)) => Has(declared, k)
    case _ => false
  }

  /** Declared keys that are also keys of the input, in declaration order. */
  function PresentKeys(declared: Members, input: Members): (r: seq<string>)
    ensures forall k :: k in r <==> Has(declared, k) && Has(input, k)
  {
    if |declared| == 0 then []
    else
      HasCons(declared, declared[0].0);
      forall k ensures Has(declared, k) <==> declared[0].0 == k || Has(declared[1..], k) {
        HasCons(declared, k);
      }
      (if Has(input, declared[0].0) then [declared[0].0] else []) + PresentKeys(declared[1..], input)
  }

  /** The schemaProperties list: keys declared under `properties` that the input has. */
  function SchemaPropertiesPresent(properties: Option<Json>, input: Members): (r: seq<string>)
    requires properties.Some? ==> properties.value.JsonObject?
    ensures forall k :: k in r <==> properties.Some? && Has(properties.value.members, k) && Has(input, k)
  {
    if properties.Some? && |properties.value.members| > 0 then PresentKeys(properties.value.members, input) else []
  }

  /** `properties` rewrites k only when k's child schema is an object with a `type`. */
  predicate Governs(properties: Json, k: string)
    requires properties.JsonObject?
  {
    match Member(properties, k)
    case Some(child) => child.JsonObject? && Has(child.members, TYPE_KEY)
    case None => false
  }

  /** v is a value the validator of the given kind can return for schema. */
  ghost predicate Produced(env: Env, schema: Json, kind: Kind, v: Json) {
    match kind
    case BooleanKind => exists text :: env.validateBoolean(schema, text) == Ok(v)
    case NominalKind => exists text :: env.validateNominal(schema, text) == Ok(v)
    case NumericKind => exists text :: env.validateNumeric(schema, text) == Ok(v)
    case ArrayKind => exists text :: env.validateArray(text, schema) == Ok(v)
    case ObjectKind => v.JsonObject?
    case NullKind => v == JsonNull
  }

  /** The text validateAndUpdateEntriesMap hands a value validator: getAsString,
      or toString for the array type. */
  function EntryText(kind: Kind, value: Json): Result<string, ErrorKind> {
    if kind == ArrayKind then Ok(Serialize(value)) else AsString(value)
  }

  /**
   * What validateAndUpdateEntriesMap stores for value under a child schema
   * whose type reads as kind: the value itself for an unrecognised type, JSON
   * null once the null validator passes, an object with the same keys for the
   * object type, and otherwise the selected validator's answer to the entry's text.
   */
  predicate Updated(env: Env, schema: Json, kind: Option<Kind>, value: Json, v: Json) {
    match kind
    case None => v == value
    case Some(ObjectKind) => value.JsonObject? && v.JsonObject? && KeySet(v.members) == KeySet(value.members)
    case Some(NullKind) => v == JsonNull && env.validateNull(schema, Serialize(value)) == Pass
    case Some(k) => EntryText(k, value).Ok? && Answer(env, k, schema, EntryText(k, value).value) == Ok(v)
  }

  /** The value the `properties` step leaves under a key its child schema governs. */
  predicate PropertyResult(env: Env, properties: Json, entry: (string, Json), v: Json)
    requires properties.JsonObject? && Governs(properties, entry.0)
  {
    var child := Member(properties, entry.0).value;
    Updated(env, child, Classify(TypeText(child.members)), entry.1, v)
  }

  /**
   * validateAndUpdateEntriesMap: the new value of one entry under its child
   * schema. The Java code tests the key sets in another order than the
   * dispatcher, which is immaterial because the sets are disjoint.
   */
  function UpdateEntry(env: Env, schema: Json, typeName: string, value: Json): (r: Result<Json, ErrorKind>)
    requires schema.JsonObject?
    decreases schema, 7, 0
    ensures Classify(typeName).None? ==> r == Ok(value)
    ensures r.Ok? ==> Updated(env, schema, Classify(typeName), value, r.value)
    ensures Classify(typeName).Some? && IsValueKind(Classify(typeName).value) ==>
              var kind := Classify(typeName).value;
              (EntryText(kind, value).Err? ==> r == Err(RuntimeException))
              && (EntryText(kind, value).Ok? ==> r == Answer(env, kind, schema, EntryText(kind, value).value))
    ensures Classify(typeName) == Some(NullKind) ==>
              (r.Ok? <==> env.validateNull(schema, Serialize(value)).Pass?)
              && (r.Err? ==> r.error == env.validateNull(schema, Serialize(value)).error)
    ensures Classify(typeName) == Some(ObjectKind) && !value.JsonObject? ==> r == Err(RuntimeException)
    ensures Classify(typeName) == Some(ObjectKind) && value.JsonObject? ==>
              var validated := ValidateObject(env, value.members, schema);
              (validated.Ok? ==> r == Ok(JsonObject(validated.value)))
              && (validated.Err? ==> r == Err(validated.error))
  {
    match Classify(typeName)
    case None => Ok(value)
    case Some(BooleanKind) =>
      var text :- AsString(value);
      env.validateBoolean(schema, text)
    case Some(NominalKind) =>
      var text :- AsString(value);
      env.validateNominal(schema, text)
    case Some(NumericKind) =>
      var text :- AsString(value);
      env.validateNumeric(schema, text)
    case Some(ArrayKind) => env.validateArray(Serialize(value), schema)
    case Some(ObjectKind) =>
      if value.JsonObject? then
        var members :- ValidateObject(env, value.members, schema);
        Ok(JsonObject(members))
      else Err(RuntimeException)
    case Some(NullKind) =>
      match env.validateNull(schema, Serialize(value))
      case Fail(e) => Err(e)
      case Pass => Ok(JsonNull)
  }

  /** validateAndUpdateEntriesMap on one input entry whose key `properties` governs. */
  function EntryUpdate(env: Env, properties: Json, entry: (string, Json)): (r: Result<Json, ErrorKind>)
    requires properties.JsonObject? && Governs(properties, entry.0)
    decreases properties, 7, 1
    ensures r.Ok? ==> PropertyResult(env, properties, entry, r.value)
  {
    var child := Member(properties, entry.0).value;
    UpdateEntry(env, child, TypeText(child.members), entry.1)
  }

  /** Every governed entry from i on updates without error. */
  predicate EntriesUpdate(env: Env, properties: Json, input: Members, i: nat)
    requires properties.JsonObject?
    decreases properties, 7, 2
  {
    forall j :: i <= j < |input| && Governs(properties, input[j].0) ==> EntryUpdate(env, properties, input[j]).Ok?
  }

  /** Some governed entry from i on fails to update with error e. */
  ghost predicate EntryFails(env: Env, properties: Json, input: Members, i: nat, e: ErrorKind)
    requires properties.JsonObject?
    decreases properties, 7, 2
  {
    exists j :: i <= j < |input| && Governs(properties, input[j].0) && EntryUpdate(env, properties, input[j]) == Err(e)
  }

  /** Scanning entries in order, the first governed entry whose update fails,
      and there is one, fails with error e. */
  predicate FirstEntryFails(env: Env, properties: Json, entries: Members, e: ErrorKind)
    requires properties.JsonObject?
    decreases properties, 7, 3, |entries|
  {
    && |entries| > 0
    && if Governs(properties, entries[0].0) && EntryUpdate(env, properties, entries[0]).Err? then
         EntryUpdate(env, properties, entries[0]).error == e
       else FirstEntryFails(env, properties, entries[1..], e)
  }

  /** The first failure names one error: a run of entries cannot fail first with two. */
  lemma {:induction false} FirstEntryFailsOnce(env: Env, properties: Json, entries: Members, e1: ErrorKind, e2: ErrorKind)
    requires properties.JsonObject?
    decreases |entries|
    ensures FirstEntryFails(env, properties, entries, e1) && FirstEntryFails(env, properties, entries, e2) ==> e1 == e2
  {
    if |entries| > 0 && !(Governs(properties, entries[0].0) && EntryUpdate(env, properties, entries[0]).Err?) {
      FirstEntryFailsOnce(env, properties, entries[1..], e1, e2);
    }
  }

  /** out is input with each governed entry from i on holding its update, and every other entry as it was. */
  predicate UpdatedFrom(env: Env, properties: Json, input: Members, i: nat, out: Members)
    requires properties.JsonObject?
    decreases properties, 7, 2
  {
    && Keys(out) == Keys(input)
    && (forall j :: 0 <= j < |input| && (j < i || !Governs(properties, input[j].0)) ==> out[j] == input[j])
    && (forall j :: i <= j < |input| && Governs(properties, input[j].0) ==> EntryUpdate(env, properties, input[j]) == Ok(out[j].1))
  }

  /**
   * The loop of processSchemaProperties from entry i on, each entry updated
   * in place (Map.Entry.setValue). Every entry is updated from its original
   * value, and the first entry whose update fails ends the loop with that error.
   */
  function UpdateEntries(env: Env, properties: Json, input: Members, i: nat): (r: Result<Members, ErrorKind>)
    requires properties.JsonObject? && i <= |input|
    decreases properties, 8, |input| - i
    ensures r.Ok? ==> UpdatedFrom(env, properties, input, i, r.value)
    ensures r.Ok? <==> EntriesUpdate(env, properties, input, i)
    ensures r.Err? ==> EntryFails(env, properties, input, i, r.error)
    ensures r.Err? ==> FirstEntryFails(env, properties, input[i..], r.error)
  {
    if i == |input| then Ok(input)
    else
      var k := input[i].0;
      if Governs(properties, k) then
        var step := EntryUpdate(env, properties, input[i]);
        if step.Err? then FirstFailureHere(env, properties, input, i); Err(step.error)
        else
          var next := input[i := (k, step.value)];
          EntriesStep(env, properties, input, i, next);
          var r := UpdateEntries(env, properties, next, i + 1);
          if r.Ok? then UpdatedStep(env, properties, input, i, next, r.value); r
          else FirstFailureStep(env, properties, input, i, next, r.error); r
      else
        EntriesStep(env, properties, input, i, input);
        var r := UpdateEntries(env, properties, input, i + 1);
        if r.Ok? then UpdatedStep(env, properties, input, i, input, r.value); r
        else FirstFailureStep(env, properties, input, i, input, r.error); r
  }

  /** Updating entry i and then the entries after it updates the entries from i on. */
  lemma UpdatedStep(env: Env, properties: Json, input: Members, i: nat, next: Members, out: Members)
    requires properties.JsonObject? && i < |input| && |next| == |input|
    requires forall j :: 0 <= j < |input| && j != i ==> next[j] == input[j]
    requires next[i].0 == input[i].0
    requires Governs(properties, input[i].0) ==> EntryUpdate(env, properties, input[i]) == Ok(next[i].1)
    requires !Governs(properties, input[i].0) ==> next[i] == input[i]
    requires UpdatedFrom(env, properties, next, i + 1, out)
    decreases properties, 7, 3
    ensures UpdatedFrom(env, properties, input, i, out)
  {
    assert Keys(next) == Keys(input);
  }

  /** The entries after i are the same in next as in input, so the loop's
      verdict on them carries over. */
  lemma EntriesStep(env: Env, properties: Json, input: Members, i: nat, next: Members)
    requires properties.JsonObject? && i < |input| && |next| == |input|
    requires forall j :: i < j < |input| ==> next[j] == input[j]
    decreases properties, 7, 4
    ensures EntriesUpdate(env, properties, next, i + 1) == EntriesUpdate(env, properties, input, i + 1)
    ensures forall e :: EntryFails(env, properties, next, i + 1, e) ==> EntryFails(env, properties, input, i, e)
  {
    forall e | EntryFails(env, properties, next, i + 1, e) ensures EntryFails(env, properties, input, i, e) {
      var j :| i + 1 <= j < |next| && Governs(properties, next[j].0) && EntryUpdate(env, properties, next[j]) == Err(e);
      assert next[j] == input[j];
    }
    EntryJoins(env, properties, input, i);
  }

  /** A governed entry i whose update fails is the first failure from i on. */
  lemma FirstFailureHere(env: Env, properties: Json, input: Members, i: nat)
    requires properties.JsonObject? && i < |input|
    requires Governs(properties, input[i].0) && EntryUpdate(env, properties, input[i]).Err?
    decreases properties, 7, 4
    ensures FirstEntryFails(env, properties, input[i..], EntryUpdate(env, properties, input[i]).error)
    ensures EntryFails(env, properties, input, i, EntryUpdate(env, properties, input[i]).error)
  {
    assert input[i..][0] == input[i];
  }

  /** Once entry i has updated, or is not governed, the first failure among
      the entries after it is the first failure from i on. */
  lemma FirstFailureStep(env: Env, properties: Json, input: Members, i: nat, next: Members, e: ErrorKind)
    requires properties.JsonObject? && i < |input| && |next| == |input|
    requires forall j :: i < j < |input| ==> next[j] == input[j]
    requires Governs(properties, input[i].0) ==> EntryUpdate(env, properties, input[i]).Ok?
    requires FirstEntryFails(env, properties, next[i + 1..], e)
    decreases properties, 7, 4
    ensures FirstEntryFails(env, properties, input[i..], e)
  {
    assert input[i..][1..] == next[i + 1..];
  }

  /** Entry i joins the loop's verdict on the entries after it. */
  lemma EntryJoins(env: Env, properties: Json, input: Members, i: nat)
    requires properties.JsonObject? && i < |input|
    decreases properties, 7, 3
    ensures EntriesUpdate(env, properties, input, i) <==>
              EntriesUpdate(env, properties, input, i + 1)
              && (Governs(properties, input[i].0) ==> EntryUpdate(env, properties, input[i]).Ok?)
    ensures Governs(properties, input[i].0) && EntryUpdate(env, properties, input[i]).Err? ==>
              EntryFails(env, properties, input, i, EntryUpdate(env, properties, input[i]).error)
  {
  }

  /**
   * processSchemaProperties with a non-null `properties` object: rewrites the
   * governed entries and lists every input key as inputProperties.
   */
  function ProcessSchemaProperties(env: Env, properties: Json, input: Members): (r: Result<(Members, seq<string>), ErrorKind>)
    requires properties.JsonObject?
    decreases properties, 9, 0
    ensures r.Ok? ==> r.value.1 == Keys(input)
    ensures r.Ok? ==> Keys(r.value.0) == Keys(input)
    ensures r.Ok? ==> forall j :: 0 <= j < |input| && !Governs(properties, input[j].0) ==> r.value.0[j] == input[j]
    ensures r.Ok? ==> forall j :: 0 <= j < |input| && Governs(properties, input[j].0) ==>
                         EntryUpdate(env, properties, input[j]) == Ok(r.value.0[j].1)
                         && PropertyResult(env, properties, input[j], r.value.0[j].1)
    ensures r.Ok? <==> EntriesUpdate(env, properties, input, 0)
    ensures r.Err? ==> EntryFails(env, properties, input, 0, r.error)
    ensures r.Err? ==> FirstEntryFails(env, properties, input, r.error)
  {
    assert input[0..] == input;
    var updated :- UpdateEntries(env, properties, input, 0);
    Ok((updated, Keys(input)))
  }

  /** Read by key: processSchemaProperties leaves under a governed key its
      entry's update and under any other key its input value. */
  lemma SchemaPropertiesValues(env: Env, properties: Json, input: Members, k: string)
    requires properties.JsonObject? && ProcessSchemaProperties(env, properties, input).Ok? && Has(input, k)
    ensures var out := ProcessSchemaProperties(env, properties, input).value.0;
            && Get(out, k).Some?
            && (Governs(properties, k) ==>
                  EntryUpdate(env, properties, (k, Get(input, k).value)) == Ok(Get(out, k).value)
                  && PropertyResult(env, properties, (k, Get(input, k).value), Get(out, k).value))
            && (!Governs(properties, k) ==> Get(out, k) == Get(input, k))
  {
    var out := ProcessSchemaProperties(env, properties, input).value.0;
    var j := GetAtSamePosition(out, input, k);
    assert input[j] == (k, Get(input, k).value);
  }

  // ----- patternProperties and additionalProperties share parseAndReplaceValues ----

  /** The value parseAndReplaceValues stores for a type name: a validator's
      answer, or JSON null when the name is not recognised (Gson stores a
      null argument of JsonObject.add as JsonNull). */
  ghost predicate Replaced(env: Env, schema: Json, typeName: string, v: Json) {
    match Classify(typeName)
    case None => v == JsonNull
    case Some(kind) => Produced(env, schema, kind, v)
  }

  /** What the validator of a type name answers for a value (`input.get(key)`),
      JSON null for a name no key set recognises. */
  function ReplacementFor(env: Env, schema: Json, typeName: string, value: Json): (r: Result<Json, ErrorKind>)
    requires schema.JsonObject?
    decreases schema, 7, 0
    ensures r.Ok? ==> Replaced(env, schema, typeName, r.value)
    ensures Classify(typeName).None? ==> r == Ok(JsonNull)
    ensures Classify(typeName).Some? && IsValueKind(Classify(typeName).value) ==>
              r == Answer(env, Classify(typeName).value, schema, Serialize(value))
    ensures Classify(typeName) == Some(NullKind) ==>
              (r.Ok? <==> env.validateNull(schema, Serialize(value)).Pass?)
              && (r.Ok? ==> r.value == JsonNull)
              && (r.Err? ==> r.error == env.validateNull(schema, Serialize(value)).error)
    ensures Classify(typeName) == Some(ObjectKind) && !value.JsonObject? ==> r == Err(RuntimeException)
    ensures Classify(typeName) == Some(ObjectKind) && value.JsonObject? ==>
              var validated := ValidateObject(env, value.members, schema);
              (validated.Ok? ==> r == Ok(JsonObject(validated.value)))
              && (validated.Err? ==> r == Err(validated.error))
  {
    match Classify(typeName)
    case Some(NumericKind) => env.validateNumeric(schema, Serialize(value))
    case Some(NominalKind) => env.validateNominal(schema, Serialize(value))
    case Some(BooleanKind) => env.validateBoolean(schema, Serialize(value))
    case Some(ArrayKind) => env.validateArray(Serialize(value), schema)
    case Some(ObjectKind) =>
      if value.JsonObject? then
        var members :- ValidateObject(env, value.members, schema);
        Ok(JsonObject(members))
      else Err(RuntimeException)
    case Some(NullKind) =>
      (match env.validateNull(schema, Serialize(value))
       case Fail(e) => Err(e)
       case Pass => Ok(JsonNull))
    case None => Ok(JsonNull)
  }

  /** ReplacementFor under a second name, for the key-by-key and
      pattern-by-pattern definitions below. It adds no meaning: calling it
      keeps the solver from unfolding ReplacementFor's contract at every step
      of those definitions, and the lemmas that need that contract state the
      equation once (PresentKeyReplacement). */
  function Replacement(env: Env, schema: Json, typeName: string, value: Json): Result<Json, ErrorKind>
    requires schema.JsonObject?
    decreases schema, 7, 1
  {
    ReplacementFor(env, schema, typeName, value)
  }

  /** What parseAndReplaceValues stores under key k of the object it is handed,
      or the error it raises: the validator's answer on the key's own value; for
      an absent key, JSON null under the null or an unrecognised type name. */
  function KeyReplacement(env: Env, input: Members, schema: Json, typeName: string, k: string): Result<Json, ErrorKind>
    requires schema.JsonObject?
    decreases schema, 7, 2
  {
    match Get(input, k)
    case Some(value) => Replacement(env, schema, typeName, value)
    case None =>
      if Classify(typeName).None? || Classify(typeName) == Some(NullKind) then Ok(JsonNull) else Err(RuntimeException)
  }

  /** A present key's replacement is the replacement of its own value. */
  lemma PresentKeyReplacement(env: Env, input: Members, schema: Json, typeName: string, k: string)
    requires schema.JsonObject? && Has(input, k)
    decreases schema, 8, 0
    ensures KeyReplacement(env, input, schema, typeName, k) == ReplacementFor(env, schema, typeName, Get(input, k).value)
  {
  }

  /** Every key of keys[i..] is replaced without error. */
  predicate ReplacementsPass(env: Env, input: Members, schema: Json, typeName: string, keys: seq<string>, i: nat)
    requires schema.JsonObject? && i <= |keys|
    decreases schema, 8, 1
  {
    forall f :: i <= f < |keys| ==> KeyReplacement(env, input, schema, typeName, keys[f]).Ok?
  }

  /** The replacement of some key of keys[i..] fails with e, and those before it pass. */
  predicate FirstReplacementFails(env: Env, input: Members, schema: Json, typeName: string, keys: seq<string>, i: nat, e: ErrorKind)
    requires schema.JsonObject? && i <= |keys|
    decreases schema, 8, 1
  {
    exists f :: i <= f < |keys| && KeyReplacement(env, input, schema, typeName, keys[f]) == Err(e)
      && forall g :: i <= g < f ==> KeyReplacement(env, input, schema, typeName, keys[g]).Ok?
  }

  /**
   * parseAndReplaceValues: validates the value under key and stores the result
   * by removing the key and adding it again, which moves it to the end. An
   * absent key is dereferenced by every branch but the null type's and the
   * unrecognised type's, which add the key with JSON null.
   */
  function ParseAndReplace(env: Env, input: Members, schema: Json, typeName: string, key: string): (r: Result<Members, ErrorKind>)
    requires schema.JsonObject?
    decreases schema, 8, 0
    ensures !Has(input, key) ==>
              r == (if Classify(typeName).None? || Classify(typeName) == Some(NullKind) then Ok(Put(input, key, JsonNull))
                    else Err(RuntimeException))
    ensures r.Ok? ==> KeySet(r.value) == KeySet(input) + {key}
    ensures r.Ok? && UniqueKeys(input) ==> UniqueKeys(r.value) && |r.value| == if Has(input, key) then |input| else |input| + 1
    ensures r.Ok? ==> forall k :: k != key ==> Get(r.value, k) == Get(input, k)
    ensures r.Ok? ==> Get(r.value, key).Some? && Replaced(env, schema, typeName, Get(r.value, key).value)
    ensures r.Ok? ==> r.value[|r.value| - 1].0 == key
    ensures r.Ok? ==> Keys(r.value) == Outside(Keys(input), [key]) + [key]
    ensures Has(input, key) ==>
              var replacement := ReplacementFor(env, schema, typeName, Get(input, key).value);
              (r.Ok? <==> replacement.Ok?)
              && (r.Err? ==> r.error == replacement.error)
              && (r.Ok? ==> Get(r.value, key) == Some(replacement.value))
    ensures var replacement := KeyReplacement(env, input, schema, typeName, key);
              (r.Ok? <==> replacement.Ok?)
              && (r.Err? ==> r.error == replacement.error)
              && (r.Ok? ==> Get(r.value, key) == Some(replacement.value))
  {
    match Get(input, key)
    case None =>
      if Classify(typeName).None? || Classify(typeName) == Some(NullKind) then Ok(Put(input, key, JsonNull))
      else Err(RuntimeException)
    case Some(value) =>
      var result :- ReplacementFor(env, schema, typeName, value);
      Ok(Put(input, key, result))
  }

  /** The keys of keys[i..] as a set. */
  function KeysFrom(keys: seq<string>, i: nat): (r: set<string>)
    requires i <= |keys|
    ensures forall k :: k in r <==> k in keys[i..]
  {
    set k | k in keys[i..]
  }

  /** parseAndReplaceValues applied to keys[i..] in order. */
  function ReplaceAll(env: Env, input: Members, schema: Json, typeName: string, keys: seq<string>, i: nat): (r: Result<Members, ErrorKind>)
    requires schema.JsonObject? && i <= |keys|
    decreases schema, 9, |keys| - i
    ensures r.Ok? ==> KeySet(r.value) == KeySet(input) + KeysFrom(keys, i)
    ensures r.Ok? && UniqueKeys(input) && KeysFrom(keys, i) <= KeySet(input) ==> UniqueKeys(r.value) && |r.value| == |input|
    ensures r.Ok? ==> forall k :: k !in keys[i..] ==> Get(r.value, k) == Get(input, k)
    ensures r.Ok? ==> forall k :: k in keys[i..] ==> Get(r.value, k).Some? && Replaced(env, schema, typeName, Get(r.value, k).value)
    ensures Distinct(keys) ==> (r.Ok? <==> ReplacementsPass(env, input, schema, typeName, keys, i))
    ensures Distinct(keys) && r.Err? ==> FirstReplacementFails(env, input, schema, typeName, keys, i, r.error)
    ensures r.Ok? && Distinct(keys) ==> forall k :: k in keys[i..] ==>
              Get(r.value, k).Some? && KeyReplacement(env, input, schema, typeName, k) == Ok(Get(r.value, k).value)
    ensures r.Ok? && Distinct(keys) ==> Keys(r.value) == Outside(Keys(input), keys[i..]) + keys[i..]
  {
    if i == |keys| then
      OutsideNone(Keys(input), keys[i..]);
      Ok(input)
    else
      var step := ParseAndReplace(env, input, schema, typeName, keys[i]);
      if step.Err? then
        assert Distinct(keys) ==> FirstReplacementFails(env, input, schema, typeName, keys, i, step.error);
        Err(step.error)
      else
        var next := step.value;
        ReplaceStep(keys, i, input, next);
        var r := ReplaceAll(env, next, schema, typeName, keys, i + 1);
        if Distinct(keys) then
          ReplaceAllStep(env, input, next, schema, typeName, keys, i, r);
          if r.Ok? then MovedToEnd(Keys(input), keys, i, Keys(next), Keys(r.value)); r else r
        else r
  }

  /** Moving keys[i] to the end and then keys[i + 1..] after it leaves the
      other keys in their order, followed by keys[i..]. */
  lemma MovedToEnd(ks: seq<string>, keys: seq<string>, i: nat, moved: seq<string>, out: seq<string>)
    requires i < |keys| && Distinct(keys)
    requires moved == Outside(ks, [keys[i]]) + [keys[i]]
    requires out == Outside(moved, keys[i + 1..]) + keys[i + 1..]
    ensures out == Outside(ks, keys[i..]) + keys[i..]
  {
    var rest := keys[i + 1..];
    assert keys[i..] == [keys[i]] + rest;
    assert keys[i] !in rest by {
      forall f | i + 1 <= f < |keys| ensures keys[f] != keys[i] { }
    }
    MoveToEnd(ks, keys[i], rest);
  }

  /** Replacing keys[i] leaves the other keys' values, so the later keys are
      replaced as they would have been in the object handed to keys[i]. */
  lemma ReplaceAllStep(env: Env, input: Members, next: Members, schema: Json, typeName: string, keys: seq<string>, i: nat,
                       r: Result<Members, ErrorKind>)
    requires schema.JsonObject? && i < |keys| && Distinct(keys)
    requires ParseAndReplace(env, input, schema, typeName, keys[i]) == Ok(next)
    requires r.Ok? <==> ReplacementsPass(env, next, schema, typeName, keys, i + 1)
    requires r.Err? ==> FirstReplacementFails(env, next, schema, typeName, keys, i + 1, r.error)
    requires r.Ok? ==> forall k :: k !in keys[i + 1..] ==> Get(r.value, k) == Get(next, k)
    requires r.Ok? ==> forall k :: k in keys[i + 1..] ==>
               Get(r.value, k).Some? && KeyReplacement(env, next, schema, typeName, k) == Ok(Get(r.value, k).value)
    decreases schema, 8, 3
    ensures r.Ok? <==> ReplacementsPass(env, input, schema, typeName, keys, i)
    ensures r.Err? ==> FirstReplacementFails(env, input, schema, typeName, keys, i, r.error)
    ensures r.Ok? ==> forall k :: k in keys[i..] ==>
              Get(r.value, k).Some? && KeyReplacement(env, input, schema, typeName, k) == Ok(Get(r.value, k).value)
  {
    var here := Get(next, keys[i]).value;
    LaterKeysUnchanged(env, input, next, schema, typeName, keys, i);
    PassesThroughStep(env, input, next, schema, typeName, keys, i, here);
    if r.Err? {
      FailureThroughStep(env, input, next, schema, typeName, keys, i, here, r.error);
    } else {
      ValuesThroughStep(env, input, next, schema, typeName, keys, i, here, r.value);
    }
  }

  /** keys[i..] all pass on the input exactly when keys[i + 1..] all pass after keys[i] is replaced. */
  lemma PassesThroughStep(env: Env, input: Members, next: Members, schema: Json, typeName: string, keys: seq<string>, i: nat, here: Json)
    requires schema.JsonObject? && i < |keys|
    requires KeyReplacement(env, input, schema, typeName, keys[i]) == Ok(here)
    requires forall f :: i < f < |keys| ==>
               KeyReplacement(env, next, schema, typeName, keys[f]) == KeyReplacement(env, input, schema, typeName, keys[f])
    decreases schema, 8, 2
    ensures ReplacementsPass(env, input, schema, typeName, keys, i) <==> ReplacementsPass(env, next, schema, typeName, keys, i + 1)
  {
  }

  /** A first failure among keys[i + 1..] after keys[i] is replaced is the first failure among keys[i..]. */
  lemma FailureThroughStep(env: Env, input: Members, next: Members, schema: Json, typeName: string, keys: seq<string>, i: nat, here: Json,
                  e: ErrorKind)
    requires schema.JsonObject? && i < |keys|
    requires KeyReplacement(env, input, schema, typeName, keys[i]) == Ok(here)
    requires forall f :: i < f < |keys| ==>
               KeyReplacement(env, next, schema, typeName, keys[f]) == KeyReplacement(env, input, schema, typeName, keys[f])
    requires FirstReplacementFails(env, next, schema, typeName, keys, i + 1, e)
    decreases schema, 8, 2
    ensures FirstReplacementFails(env, input, schema, typeName, keys, i, e)
  {
    var f :| i + 1 <= f < |keys| && KeyReplacement(env, next, schema, typeName, keys[f]) == Err(e)
              && forall g :: i + 1 <= g < f ==> KeyReplacement(env, next, schema, typeName, keys[g]).Ok?;
    assert KeyReplacement(env, input, schema, typeName, keys[f]) == Err(e);
    assert forall g :: i <= g < f ==> KeyReplacement(env, input, schema, typeName, keys[g]).Ok?;
  }

  /** Each key of keys[i..] ends with the replacement its own input value gets. */
  lemma ValuesThroughStep(env: Env, input: Members, next: Members, schema: Json, typeName: string, keys: seq<string>, i: nat, here: Json,
                   out: Members)
    requires schema.JsonObject? && i < |keys| && Distinct(keys)
    requires KeyReplacement(env, input, schema, typeName, keys[i]) == Ok(here) && Get(next, keys[i]) == Some(here)
    requires forall f :: i < f < |keys| ==>
               KeyReplacement(env, next, schema, typeName, keys[f]) == KeyReplacement(env, input, schema, typeName, keys[f])
    requires forall k :: k !in keys[i + 1..] ==> Get(out, k) == Get(next, k)
    requires forall k :: k in keys[i + 1..] ==>
               Get(out, k).Some? && KeyReplacement(env, next, schema, typeName, k) == Ok(Get(out, k).value)
    decreases schema, 8, 2
    ensures forall k :: k in keys[i..] ==>
              Get(out, k).Some? && KeyReplacement(env, input, schema, typeName, k) == Ok(Get(out, k).value)
  {
    forall k | k in keys[i..]
      ensures Get(out, k).Some? && KeyReplacement(env, input, schema, typeName, k) == Ok(Get(out, k).value)
    {
      var f :| i <= f < |keys| && keys[f] == k;
      if f == i {
        assert k !in keys[i + 1..];
      } else {
        assert keys[f] == keys[i + 1..][f - i - 1];
      }
    }
  }

  /** The keys after keys[i] are replaced alike before and after keys[i] is. */
  lemma LaterKeysUnchanged(env: Env, input: Members, next: Members, schema: Json, typeName: string, keys: seq<string>, i: nat)
    requires schema.JsonObject? && i < |keys| && Distinct(keys)
    requires forall k :: k != keys[i] ==> Get(next, k) == Get(input, k)
    decreases schema, 8, 1
    ensures forall f :: i < f < |keys| ==>
              KeyReplacement(env, next, schema, typeName, keys[f]) == KeyReplacement(env, input, schema, typeName, keys[f])
  {
    forall f | i < f < |keys|
      ensures KeyReplacement(env, next, schema, typeName, keys[f]) == KeyReplacement(env, input, schema, typeName, keys[f])
    {
      assert keys[f] != keys[i];
    }
  }

  /** How the key sets move when ReplaceAll handles keys[i]. */
  lemma ReplaceStep(keys: seq<string>, i: nat, input: Members, next: Members)
    requires i < |keys|
    requires KeySet(next) == KeySet(input) + {keys[i]}
    ensures keys[i..] == [keys[i]] + keys[i + 1..]
    ensures KeysFrom(keys, i) == {keys[i]} + KeysFrom(keys, i + 1)
    ensures KeySet(next) + KeysFrom(keys, i + 1) == KeySet(input) + KeysFrom(keys, i)
    ensures KeysFrom(keys, i) <= KeySet(input) ==>
              KeySet(next) == KeySet(input) && Has(input, keys[i]) && KeysFrom(keys, i + 1) <= KeySet(next)
  {
    assert keys[i..] == [keys[i]] + keys[i + 1..];
  }

  /** getMatchRegexAgainstStringSet: the keys in which the pattern is found. */
  function MatchingKeys(env: Env, keys: seq<string>, regex: string): (r: seq<string>)
    ensures forall k :: k in r <==> k in keys && env.find(regex, k)
    ensures Distinct(keys) ==> Distinct(r)
  {
    if |keys| == 0 then []
    else
      var rest := MatchingKeys(env, keys[1..], regex);
      assert forall k :: k in keys <==> k == keys[0] || k in keys[1..];
      (if env.find(regex, keys[0]) then [keys[0]] else []) + rest
  }

  /** Adds each key to the patternProperties list unless it is already there. */
  function Record(recorded: seq<string>, keys: seq<string>): (r: seq<string>)
    decreases |keys|
    ensures forall k :: k in r <==> k in recorded || k in keys
    ensures Distinct(recorded) ==> Distinct(r)
  {
    if |keys| == 0 then recorded
    else
      assert forall k :: k in keys <==> k == keys[0] || k in keys[1..];
      Record(if keys[0] in recorded then recorded else recorded + [keys[0]], keys[1..])
  }

  /** Some pattern from index j on is found in k. */
  predicate MatchedFrom(env: Env, patterns: Json, j: nat, k: string)
    requires patterns.JsonObject?
  {
    exists m :: j <= m < |patterns.members| && env.find(patterns.members[m].0, k)
  }

  /** A pattern's schema is an object that declares a type. */
  predicate DeclaresType(schema: Json) {
    schema.JsonObject? && Has(schema.members, TYPE_KEY)
  }

  /** A pattern's schema declares a type that getAsString can read. */
  predicate TypedPattern(schema: Json) {
    DeclaresType(schema) && TypeTextAsString(schema.members).Ok?
  }

  /** The type name a typed pattern's schema declares. */
  function PatternType(schema: Json): string
    requires TypedPattern(schema)
  {
    TypeTextAsString(schema.members).value
  }

  /** Every pattern from index j on declares a type getAsString can read. */
  predicate TypedFrom(patterns: Json, j: nat)
    requires patterns.JsonObject?
  {
    forall m :: j <= m < |patterns.members| ==> TypedPattern(patterns.members[m].1)
  }

  /** What a typed pattern's schema makes of the value v. */
  function PatternStep(env: Env, schema: Json, v: Json): Result<Json, ErrorKind>
    requires TypedPattern(schema)
    decreases schema, 7, 2
  {
    Replacement(env, schema, PatternType(schema), v)
  }

  /**
   * The value the patterns from index j on leave under key k when it holds v:
   * each pattern found in k, in declared order, hands the value it holds by
   * then to its schema's validator and stores the answer.
   */
  function PatternFold(env: Env, patterns: Json, j: nat, k: string, v: Json): Result<Json, ErrorKind>
    requires patterns.JsonObject? && j <= |patterns.members| && TypedFrom(patterns, j)
    decreases patterns, 7, |patterns.members| - j
  {
    if j == |patterns.members| then Ok(v)
    else if env.find(patterns.members[j].0, k) then
      var w :- PatternStep(env, patterns.members[j].1, v);
      PatternFold(env, patterns, j + 1, k, w)
    else PatternFold(env, patterns, j + 1, k, v)
  }

  /** Pattern m is found in k and no later pattern is. */
  predicate LastMatch(env: Env, patterns: Json, m: nat, k: string)
    requires patterns.JsonObject?
  {
    m < |patterns.members| && env.find(patterns.members[m].0, k)
    && forall m' :: m < m' < |patterns.members| ==> !env.find(patterns.members[m'].0, k)
  }

  /**
   * One iteration of processPatternProperties: the pattern's schema must be an
   * object with a `type`; every current key the pattern is found in is
   * rewritten by that schema. Returns the rewritten members and the matched keys.
   */
  function ApplyPattern(env: Env, input: Members, regex: string, schema: Json): (r: Result<(Members, seq<string>), ErrorKind>)
    decreases schema, 10, 0
    ensures !schema.JsonObject? ==> r == Err(RuntimeException)
    ensures schema.JsonObject? && !DeclaresType(schema) ==> r == Err(ValidatorException)
    ensures DeclaresType(schema) && TypeTextAsString(schema.members).Err? ==> r == Err(RuntimeException)
    ensures r.Ok? ==> TypedPattern(schema)
    ensures r.Ok? ==> KeySet(r.value.0) == KeySet(input)
    ensures r.Ok? && UniqueKeys(input) ==> UniqueKeys(r.value.0) && |r.value.0| == |input|
    ensures r.Ok? ==> forall k :: k in r.value.1 <==> Has(input, k) && env.find(regex, k)
    ensures r.Ok? ==> forall k :: !env.find(regex, k) ==> Get(r.value.0, k) == Get(input, k)
    ensures r.Ok? ==> forall k :: Has(input, k) && env.find(regex, k) ==>
                         Get(r.value.0, k).Some? && Replaced(env, schema, PatternType(schema), Get(r.value.0, k).value)
    ensures r.Ok? && UniqueKeys(input) ==> forall k :: Has(input, k) && env.find(regex, k) ==>
              Get(r.value.0, k).Some?
              && ReplacementFor(env, schema, PatternType(schema), Get(input, k).value) == Ok(Get(r.value.0, k).value)
    ensures TypedPattern(schema) && UniqueKeys(input) && r.Err? ==>
              exists k :: Has(input, k) && env.find(regex, k) && ReplacementFor(env, schema, PatternType(schema), Get(input, k).value) == Err(r.error)
    ensures TypedPattern(schema) && UniqueKeys(input) ==>
              var keys := MatchingKeys(env, Keys(input), regex);
              (r.Ok? <==> ReplacementsPass(env, input, schema, PatternType(schema), keys, 0))
              && (r.Err? ==> FirstReplacementFails(env, input, schema, PatternType(schema), keys, 0, r.error))
    ensures r.Ok? ==> r.value.1 == MatchingKeys(env, Keys(input), regex)
    ensures r.Ok? && UniqueKeys(input) ==> Keys(r.value.0) == Outside(Keys(input), r.value.1) + r.value.1
  {
    if !schema.JsonObject? then Err(RuntimeException)
    else if !Has(schema.members, TYPE_KEY) then Err(ValidatorException)
    else
      var typeName :- TypeTextAsString(schema.members);
      ReplaceMatching(env, input, regex, schema, typeName)
  }

  /** The rest of one iteration of processPatternProperties, once the type
      name is read: every key the pattern is found in is replaced in turn. */
  function ReplaceMatching(env: Env, input: Members, regex: string, schema: Json, typeName: string): (r: Result<(Members, seq<string>), ErrorKind>)
    requires schema.JsonObject?
    decreases schema, 9, |MatchingKeys(env, Keys(input), regex)| + 2
    ensures r.Ok? ==> KeySet(r.value.0) == KeySet(input)
    ensures r.Ok? && UniqueKeys(input) ==> UniqueKeys(r.value.0) && |r.value.0| == |input|
    ensures r.Ok? ==> forall k :: k in r.value.1 <==> Has(input, k) && env.find(regex, k)
    ensures r.Ok? ==> forall k :: !env.find(regex, k) ==> Get(r.value.0, k) == Get(input, k)
    ensures r.Ok? ==> forall k :: Has(input, k) && env.find(regex, k) ==>
                         Get(r.value.0, k).Some? && Replaced(env, schema, typeName, Get(r.value.0, k).value)
    ensures r.Ok? && UniqueKeys(input) ==> forall k :: Has(input, k) && env.find(regex, k) ==>
              Get(r.value.0, k).Some?
              && ReplacementFor(env, schema, typeName, Get(input, k).value) == Ok(Get(r.value.0, k).value)
    ensures UniqueKeys(input) && r.Err? ==>
              exists k :: Has(input, k) && env.find(regex, k) && ReplacementFor(env, schema, typeName, Get(input, k).value) == Err(r.error)
    ensures UniqueKeys(input) ==>
              var keys := MatchingKeys(env, Keys(input), regex);
              (r.Ok? <==> ReplacementsPass(env, input, schema, typeName, keys, 0))
              && (r.Err? ==> FirstReplacementFails(env, input, schema, typeName, keys, 0, r.error))
    ensures r.Ok? ==> r.value.1 == MatchingKeys(env, Keys(input), regex)
    ensures r.Ok? && UniqueKeys(input) ==> Keys(r.value.0) == Outside(Keys(input), r.value.1) + r.value.1
  {
    var keys := MatchingKeys(env, Keys(input), regex);
    assert keys[0..] == keys;
    assert KeysFrom(keys, 0) <= KeySet(input);
    if UniqueKeys(input) then
      MatchedReplacements(env, input, regex, schema, typeName, keys);
      var next :- ReplaceAll(env, input, schema, typeName, keys, 0);
      Ok((next, keys))
    else
      var next :- ReplaceAll(env, input, schema, typeName, keys, 0);
      Ok((next, keys))
  }

  /** The keys a pattern is found in are distinct and present, so each ends
      with, or fails with, the replacement of its own input value. */
  lemma MatchedReplacements(env: Env, input: Members, regex: string, schema: Json, typeName: string, keys: seq<string>)
    requires schema.JsonObject? && UniqueKeys(input) && keys == MatchingKeys(env, Keys(input), regex)
    decreases schema, 9, |keys| + 1
    ensures Distinct(keys)
    ensures var r := ReplaceAll(env, input, schema, typeName, keys, 0);
            && (r.Ok? ==> forall k :: Has(input, k) && env.find(regex, k) ==>
                  Get(r.value, k).Some? && ReplacementFor(env, schema, typeName, Get(input, k).value) == Ok(Get(r.value, k).value))
            && (r.Err? ==> exists k :: Has(input, k) && env.find(regex, k) && ReplacementFor(env, schema, typeName, Get(input, k).value) == Err(r.error))
  {
    assert Distinct(Keys(input));
    assert keys[0..] == keys;
    forall k | Has(input, k) {
      PresentKeyReplacement(env, input, schema, typeName, k);
    }
    var r := ReplaceAll(env, input, schema, typeName, keys, 0);
    if r.Err? {
      var f :| 0 <= f < |keys| && KeyReplacement(env, input, schema, typeName, keys[f]) == Err(r.error)
                && forall g :: 0 <= g < f ==> KeyReplacement(env, input, schema, typeName, keys[g]).Ok?;
      assert keys[f] in keys;
    }
  }

  /**
   * The order of an object's keys after the patterns from index j on, from
   * the keys alone: each pattern moves the keys it is found in, in their
   * current order, behind the others.
   */
  function PatternKeyOrder(env: Env, patterns: Json, j: nat, ks: seq<string>): (r: seq<string>)
    requires patterns.JsonObject? && j <= |patterns.members|
    decreases |patterns.members| - j
    ensures forall k :: k in r <==> k in ks
  {
    if j == |patterns.members| then ks
    else
      var matched := MatchingKeys(env, ks, patterns.members[j].0);
      OutsideMembers(ks, matched);
      PatternKeyOrder(env, patterns, j + 1, Outside(ks, matched) + matched)
  }

  /** The loop of processPatternProperties from pattern j on; matched keys are recorded once. */
  function ApplyPatterns(env: Env, input: Members, patterns: Json, j: nat, recorded: seq<string>): (r: Result<(Members, seq<string>), ErrorKind>)
    requires patterns.JsonObject? && j <= |patterns.members|
    decreases patterns, 9, |patterns.members| - j
    ensures j < |patterns.members| && !patterns.members[j].1.JsonObject? ==> r == Err(RuntimeException)
    ensures j < |patterns.members| && patterns.members[j].1.JsonObject? && !DeclaresType(patterns.members[j].1) ==>
              r == Err(ValidatorException)
    ensures j < |patterns.members| && DeclaresType(patterns.members[j].1) && !TypedPattern(patterns.members[j].1) ==>
              r == Err(RuntimeException)
    ensures r.Ok? ==> forall m :: j <= m < |patterns.members| ==> TypedPattern(patterns.members[m].1)
    ensures r.Ok? ==> KeySet(r.value.0) == KeySet(input)
    ensures r.Ok? && UniqueKeys(input) ==> UniqueKeys(r.value.0) && |r.value.0| == |input|
    ensures r.Ok? ==> forall k :: k in r.value.1 <==> k in recorded || (Has(input, k) && MatchedFrom(env, patterns, j, k))
    ensures r.Ok? && Distinct(recorded) ==> Distinct(r.value.1)
    ensures r.Ok? ==> forall k :: !MatchedFrom(env, patterns, j, k) ==> Get(r.value.0, k) == Get(input, k)
    ensures r.Ok? ==> forall k, m :: j <= m && LastMatch(env, patterns, m, k) && Has(input, k) ==>
                         Get(r.value.0, k).Some?
                         && Replaced(env, patterns.members[m].1, PatternType(patterns.members[m].1), Get(r.value.0, k).value)
    ensures r.Ok? && UniqueKeys(input) ==> forall k :: Has(input, k) ==>
              Get(r.value.0, k).Some? && PatternFold(env, patterns, j, k, Get(input, k).value) == Ok(Get(r.value.0, k).value)
    ensures r.Ok? && UniqueKeys(input) ==> Keys(r.value.0) == PatternKeyOrder(env, patterns, j, Keys(input))
  {
    if j == |patterns.members| then Ok((input, recorded))
    else
      var regex := patterns.members[j].0;
      var schema := patterns.members[j].1;
      var step := ApplyPattern(env, input, regex, schema);
      if step.Err? then Err(step.error)
      else
        var rest := ApplyPatterns(env, step.value.0, patterns, j + 1, Record(recorded, step.value.1));
        if rest.Err? then Err(rest.error)
        else
          PatternsStep(env, input, patterns, j, recorded, step.value, rest.value);
          AllTypedFrom(patterns, j);
          LastMatchStep(env, input, patterns, j, step.value.0, rest.value.0);
          assert UniqueKeys(input) ==> forall k :: Has(input, k) ==>
                   Get(rest.value.0, k).Some? && PatternFold(env, patterns, j, k, Get(input, k).value) == Ok(Get(rest.value.0, k).value) by {
            if UniqueKeys(input) {
              FoldValuesStep(env, input, patterns, j, step.value.0, rest.value.0);
            }
          }
          Ok(rest.value)
  }

  /** With typed patterns, the patterns from j on succeed exactly when every key's fold does. */
  lemma PatternsSucceedIff(env: Env, input: Members, patterns: Json, j: nat, recorded: seq<string>)
    requires patterns.JsonObject? && j <= |patterns.members|
    ensures TypedFrom(patterns, j) && UniqueKeys(input) ==>
              (ApplyPatterns(env, input, patterns, j, recorded).Ok? <==>
                 forall k :: Has(input, k) ==> PatternFold(env, patterns, j, k, Get(input, k).value).Ok?)
  {
    var r := ApplyPatterns(env, input, patterns, j, recorded);
    PatternsFailWithFold(env, input, patterns, j, recorded);
    if TypedFrom(patterns, j) && UniqueKeys(input) && r.Err? {
      var k :| Has(input, k) && PatternFold(env, patterns, j, k, Get(input, k).value) == Err(r.error);
    }
  }

  /** With typed patterns, a failing run of the patterns from j on fails with
      the error some key's fold fails with. */
  lemma PatternsFailWithFold(env: Env, input: Members, patterns: Json, j: nat, recorded: seq<string>)
    requires patterns.JsonObject? && j <= |patterns.members|
    ensures TypedFrom(patterns, j) && UniqueKeys(input) && ApplyPatterns(env, input, patterns, j, recorded).Err? ==>
              exists k :: Has(input, k)
                && PatternFold(env, patterns, j, k, Get(input, k).value) == Err(ApplyPatterns(env, input, patterns, j, recorded).error)
  {
    if TypedFrom(patterns, j) && UniqueKeys(input) && ApplyPatterns(env, input, patterns, j, recorded).Err? {
      var k := FailingKey(env, input, patterns, j, recorded);
    }
  }

  /** A key whose fold fails with the error a failing run of the patterns from j on reports. */
  lemma {:induction false} FailingKey(env: Env, input: Members, patterns: Json, j: nat, recorded: seq<string>) returns (k: string)
    requires patterns.JsonObject? && j <= |patterns.members| && TypedFrom(patterns, j) && UniqueKeys(input)
    requires ApplyPatterns(env, input, patterns, j, recorded).Err?
    decreases |patterns.members| - j
    ensures Has(input, k)
    ensures PatternFold(env, patterns, j, k, Get(input, k).value) == Err(ApplyPatterns(env, input, patterns, j, recorded).error)
  {
    var r := ApplyPatterns(env, input, patterns, j, recorded);
    var step := ApplyPattern(env, input, patterns.members[j].0, patterns.members[j].1);
    if step.Err? {
      assert r.error == step.error;
      k :| Has(input, k) && env.find(patterns.members[j].0, k)
           && ReplacementFor(env, patterns.members[j].1, PatternType(patterns.members[j].1), Get(input, k).value) == Err(r.error);
      FoldStopsAtFailure(env, patterns, j, k, Get(input, k).value);
    } else {
      var next := Record(recorded, step.value.1);
      var rest := ApplyPatterns(env, step.value.0, patterns, j + 1, next);
      assert rest.Err? && r.error == rest.error;
      assert TypedFrom(patterns, j + 1) && UniqueKeys(step.value.0);
      k := FailingKey(env, step.value.0, patterns, j + 1, next);
      SameKeys(step.value.0, input);
      FoldThroughPattern(env, patterns, j, k, Get(input, k).value, Get(step.value.0, k).value);
    }
  }

  /** Pattern j turns a key's value v into w; the fold from j on v is the fold from j + 1 on w. */
  lemma FoldThroughPattern(env: Env, patterns: Json, j: nat, k: string, v: Json, w: Json)
    requires patterns.JsonObject? && j < |patterns.members| && TypedFrom(patterns, j)
    requires env.find(patterns.members[j].0, k) ==>
               ReplacementFor(env, patterns.members[j].1, PatternType(patterns.members[j].1), v) == Ok(w)
    requires !env.find(patterns.members[j].0, k) ==> w == v
    decreases patterns, 8, 0
    ensures PatternFold(env, patterns, j, k, v) == PatternFold(env, patterns, j + 1, k, w)
  {
    assert PatternStep(env, patterns.members[j].1, v) == ReplacementFor(env, patterns.members[j].1, PatternType(patterns.members[j].1), v);
  }

  /** A pattern found in k whose replacement of k's value fails ends the fold with that failure. */
  lemma FoldStopsAtFailure(env: Env, patterns: Json, j: nat, k: string, v: Json)
    requires patterns.JsonObject? && j < |patterns.members| && TypedFrom(patterns, j)
    requires env.find(patterns.members[j].0, k)
    requires ReplacementFor(env, patterns.members[j].1, PatternType(patterns.members[j].1), v).Err?
    ensures PatternFold(env, patterns, j, k, v) == ReplacementFor(env, patterns.members[j].1, PatternType(patterns.members[j].1), v)
  {
    assert PatternStep(env, patterns.members[j].1, v) == ReplacementFor(env, patterns.members[j].1, PatternType(patterns.members[j].1), v);
  }

  /** The values the patterns after j leave, read back through pattern j. */
  lemma FoldValuesStep(env: Env, input: Members, patterns: Json, j: nat, step: Members, out: Members)
    requires patterns.JsonObject? && j < |patterns.members| && TypedFrom(patterns, j)
    requires KeySet(step) == KeySet(input)
    requires forall k :: !env.find(patterns.members[j].0, k) ==> Get(step, k) == Get(input, k)
    requires forall k :: Has(input, k) && env.find(patterns.members[j].0, k) ==>
               Get(step, k).Some?
               && ReplacementFor(env, patterns.members[j].1, PatternType(patterns.members[j].1), Get(input, k).value) == Ok(Get(step, k).value)
    requires forall k :: Has(step, k) ==>
               Get(out, k).Some? && PatternFold(env, patterns, j + 1, k, Get(step, k).value) == Ok(Get(out, k).value)
    decreases patterns, 8, 1
    ensures forall k :: Has(input, k) ==>
              Get(out, k).Some? && PatternFold(env, patterns, j, k, Get(input, k).value) == Ok(Get(out, k).value)
  {
    SameKeys(step, input);
    forall k | Has(input, k)
      ensures Get(out, k).Some? && PatternFold(env, patterns, j, k, Get(input, k).value) == Ok(Get(out, k).value)
    {
      FoldThroughPattern(env, patterns, j, k, Get(input, k).value, Get(step, k).value);
    }
  }

  lemma AllTypedFrom(patterns: Json, j: nat)
    requires patterns.JsonObject? && j < |patterns.members|
    requires TypedPattern(patterns.members[j].1)
    requires forall m :: j + 1 <= m < |patterns.members| ==> TypedPattern(patterns.members[m].1)
    ensures forall m :: j <= m < |patterns.members| ==> TypedPattern(patterns.members[m].1)
  {
  }

  /** A key's last matching pattern is pattern j exactly when no later pattern is found in it. */
  lemma LastMatchStep(env: Env, input: Members, patterns: Json, j: nat, step: Members, rest: Members)
    requires patterns.JsonObject? && j < |patterns.members|
    requires forall m :: j <= m < |patterns.members| ==> TypedPattern(patterns.members[m].1)
    requires KeySet(step) == KeySet(input)
    requires forall k :: Has(input, k) && env.find(patterns.members[j].0, k) ==>
               Get(step, k).Some? && Replaced(env, patterns.members[j].1, PatternType(patterns.members[j].1), Get(step, k).value)
    requires forall k :: !MatchedFrom(env, patterns, j + 1, k) ==> Get(rest, k) == Get(step, k)
    requires forall k, m :: j + 1 <= m && LastMatch(env, patterns, m, k) && Has(step, k) ==>
               Get(rest, k).Some? && Replaced(env, patterns.members[m].1, PatternType(patterns.members[m].1), Get(rest, k).value)
    ensures forall k, m :: j <= m && LastMatch(env, patterns, m, k) && Has(input, k) ==>
              Get(rest, k).Some? && Replaced(env, patterns.members[m].1, PatternType(patterns.members[m].1), Get(rest, k).value)
  {
    SameKeys(step, input);
    forall k, m | j <= m && LastMatch(env, patterns, m, k) && Has(input, k)
      ensures Get(rest, k).Some? && Replaced(env, patterns.members[m].1, PatternType(patterns.members[m].1), Get(rest, k).value)
    {
      assert m == j ==> !MatchedFrom(env, patterns, j + 1, k);
    }
  }

  /** Chains one pattern's effect with the effect of the patterns after it. */
  lemma PatternsStep(env: Env, input: Members, patterns: Json, j: nat, recorded: seq<string>,
                     step: (Members, seq<string>), rest: (Members, seq<string>))
    requires patterns.JsonObject? && j < |patterns.members|
    requires KeySet(step.0) == KeySet(input)
    requires forall k :: k in step.1 <==> Has(input, k) && env.find(patterns.members[j].0, k)
    requires forall k :: !env.find(patterns.members[j].0, k) ==> Get(step.0, k) == Get(input, k)
    requires forall k :: k in rest.1 <==> k in Record(recorded, step.1) || (Has(step.0, k) && MatchedFrom(env, patterns, j + 1, k))
    requires forall k :: !MatchedFrom(env, patterns, j + 1, k) ==> Get(rest.0, k) == Get(step.0, k)
    ensures forall k :: k in rest.1 <==> k in recorded || (Has(input, k) && MatchedFrom(env, patterns, j, k))
    ensures forall k :: !MatchedFrom(env, patterns, j, k) ==> Get(rest.0, k) == Get(input, k)
  {
    forall k ensures Has(step.0, k) <==> Has(input, k) {
      assert k in KeySet(step.0) <==> k in KeySet(input);
    }
    forall k ensures MatchedFrom(env, patterns, j, k) <==> env.find(patterns.members[j].0, k) || MatchedFrom(env, patterns, j + 1, k) {
      if MatchedFrom(env, patterns, j, k) && !env.find(patterns.members[j].0, k) {
        var m :| j <= m < |patterns.members| && env.find(patterns.members[m].0, k);
        assert m != j;
      }
    }
  }

  /** processPatternProperties: `patternProperties` must be an object (getAsJsonObject). */
  function ProcessPatternProperties(env: Env, input: Members, patterns: Json): (r: Result<(Members, seq<string>), ErrorKind>)
    decreases patterns, 10, 0
    ensures !patterns.JsonObject? ==> r == Err(RuntimeException)
    ensures r.Ok? ==> patterns.JsonObject? && forall m :: 0 <= m < |patterns.members| ==> TypedPattern(patterns.members[m].1)
    ensures r.Ok? ==> KeySet(r.value.0) == KeySet(input)
    ensures r.Ok? && UniqueKeys(input) ==> UniqueKeys(r.value.0) && |r.value.0| == |input|
    ensures r.Ok? ==> Distinct(r.value.1)
    ensures r.Ok? ==> forall k :: k in r.value.1 <==> Has(input, k) && MatchedFrom(env, patterns, 0, k)
    ensures r.Ok? ==> forall k :: !MatchedFrom(env, patterns, 0, k) ==> Get(r.value.0, k) == Get(input, k)
    ensures r.Ok? ==> forall k, m :: 0 <= m && LastMatch(env, patterns, m, k) && Has(input, k) ==>
                         Get(r.value.0, k).Some?
                         && Replaced(env, patterns.members[m].1, PatternType(patterns.members[m].1), Get(r.value.0, k).value)
    ensures r.Ok? && UniqueKeys(input) ==> forall k :: Has(input, k) ==>
              Get(r.value.0, k).Some? && PatternFold(env, patterns, 0, k, Get(input, k).value) == Ok(Get(r.value.0, k).value)
    ensures r.Ok? && UniqueKeys(input) ==> patterns.JsonObject? && Keys(r.value.0) == PatternKeyOrder(env, patterns, 0, Keys(input))
  {
    if patterns.JsonObject? then ApplyPatterns(env, input, patterns, 0, []) else Err(RuntimeException)
  }

  /** A pattern not found in k leaves the fold unchanged. */
  lemma FoldSkipsPattern(env: Env, patterns: Json, j: nat, k: string, v: Json)
    requires patterns.JsonObject? && j < |patterns.members| && TypedFrom(patterns, j)
    requires !env.find(patterns.members[j].0, k)
    ensures PatternFold(env, patterns, j, k, v) == PatternFold(env, patterns, j + 1, k, v)
  {
  }

  /** Patterns from j up to m that are not found in k leave the fold as it stands at m. */
  lemma {:induction false} FoldSkipsUnmatched(env: Env, patterns: Json, j: nat, m: nat, k: string, v: Json)
    requires patterns.JsonObject? && j <= m <= |patterns.members| && TypedFrom(patterns, j)
    requires forall m' :: j <= m' < m ==> !env.find(patterns.members[m'].0, k)
    decreases m - j
    ensures PatternFold(env, patterns, j, k, v) == PatternFold(env, patterns, m, k, v)
  {
    if j < m {
      assert TypedFrom(patterns, j + 1);
      FoldSkipsPattern(env, patterns, j, k, v);
      var next := PatternFold(env, patterns, j + 1, k, v);
      FoldSkipsUnmatched(env, patterns, j + 1, m, k, v);
      assert next == PatternFold(env, patterns, m, k, v);
    }
  }

  /** A key no pattern from j on is found in keeps its value. */
  lemma PatternFoldUnmatched(env: Env, patterns: Json, j: nat, k: string, v: Json)
    requires patterns.JsonObject? && j <= |patterns.members| && TypedFrom(patterns, j)
    requires !MatchedFrom(env, patterns, j, k)
    ensures PatternFold(env, patterns, j, k, v) == Ok(v)
  {
    FoldSkipsUnmatched(env, patterns, j, |patterns.members|, k, v);
  }

  /** A key exactly one pattern from j on is found in gets that pattern's replacement of its value. */
  lemma PatternFoldSingle(env: Env, patterns: Json, j: nat, k: string, v: Json, m: nat)
    requires patterns.JsonObject? && j <= m < |patterns.members| && TypedFrom(patterns, j)
    requires env.find(patterns.members[m].0, k)
    requires forall m' :: j <= m' < |patterns.members| && m' != m ==> !env.find(patterns.members[m'].0, k)
    ensures PatternFold(env, patterns, j, k, v) == ReplacementFor(env, patterns.members[m].1, PatternType(patterns.members[m].1), v)
  {
    FoldSkipsUnmatched(env, patterns, j, m, k, v);
    var w := ReplacementFor(env, patterns.members[m].1, PatternType(patterns.members[m].1), v);
    if w.Ok? {
      FoldThroughPattern(env, patterns, m, k, v, w.value);
      FoldSkipsUnmatched(env, patterns, m + 1, |patterns.members|, k, w.value);
    } else {
      FoldStopsAtFailure(env, patterns, m, k, v);
    }
  }

  /** inputProperties.removeAll(schemaProperties) then removeAll(patternProperties). */
  function Leftover(inputProperties: seq<string>, schemaProperties: seq<string>, patternProperties: seq<string>): (r: seq<string>)
    ensures forall k :: k in r <==> k in inputProperties && k !in schemaProperties && k !in patternProperties
    ensures Distinct(inputProperties) ==> Distinct(r)
  {
    if |inputProperties| == 0 then []
    else
      var k := inputProperties[0];
      assert forall x :: x in inputProperties <==> x == k || x in inputProperties[1..];
      (if k !in schemaProperties && k !in patternProperties then [k] else [])
        + Leftover(inputProperties[1..], schemaProperties, patternProperties)
  }

  /**
   * validateMultipleObjectsUsingOneSchema: an empty schema or an empty key
   * list changes nothing; otherwise the schema needs a `type` and every key
   * is rewritten by it.
   */
  function ValidateMultiple(env: Env, keys: seq<string>, input: Members, schema: Json): (r: Result<Members, ErrorKind>)
    requires schema.JsonObject?
    decreases schema, 10, 0
    ensures |schema.members| == 0 || |keys| == 0 ==> r == Ok(input)
    ensures |schema.members| > 0 && |keys| > 0 && !Has(schema.members, TYPE_KEY) ==> r == Err(ValidatorException)
    ensures r.Ok? ==> forall k :: Has(input, k) ==> Has(r.value, k)
    ensures r.Ok? ==> forall k :: Has(r.value, k) ==> Has(input, k) || k in keys
    ensures r.Ok? && UniqueKeys(input) && (forall k :: k in keys ==> Has(input, k)) ==>
              UniqueKeys(r.value) && |r.value| == |input|
    ensures r.Ok? ==> forall k :: k !in keys ==> Get(r.value, k) == Get(input, k)
    ensures r.Ok? && |schema.members| > 0 && |keys| > 0 ==>
              Has(schema.members, TYPE_KEY) &&
              (forall k :: k in keys ==> Get(r.value, k).Some? && Replaced(env, schema, TypeText(schema.members), Get(r.value, k).value))
    ensures |schema.members| > 0 && Has(schema.members, TYPE_KEY) && Distinct(keys) ==>
              (r.Ok? <==> ReplacementsPass(env, input, schema, TypeText(schema.members), keys, 0))
              && (r.Err? ==> FirstReplacementFails(env, input, schema, TypeText(schema.members), keys, 0, r.error))
    ensures r.Ok? && |schema.members| > 0 && Has(schema.members, TYPE_KEY) && Distinct(keys) ==> forall k :: k in keys ==>
              Get(r.value, k).Some? && KeyReplacement(env, input, schema, TypeText(schema.members), k) == Ok(Get(r.value, k).value)
    ensures r.Ok? && |schema.members| > 0 && Distinct(keys) ==> Keys(r.value) == Outside(Keys(input), keys) + keys
  {
    if |keys| == 0 then
      OutsideNone(Keys(input), keys);
      Ok(input)
    else if |schema.members| == 0 then Ok(input)
    else if !Has(schema.members, TYPE_KEY) then Err(ValidatorException)
    else
      assert keys[0..] == keys;
      ReplaceAll(env, input, schema, TypeText(schema.members), keys, 0)
  }

  /**
   * processAdditionalProperties for a present `additionalProperties` value. A
   * primitive is converted to a boolean (even when no key is left over); false
   * rejects any leftover key. An object schema rewrites the leftover keys.
   * Any other value (null, an array) imposes nothing.
   */
  function ProcessAdditionalProperties(env: Env, input: Members, additional: Json, inputProperties: seq<string>,
                                       patternProperties: seq<string>, schemaProperties: seq<string>): (r: Result<Members, ErrorKind>)
    decreases additional, 11, 0
    ensures additional.IsPrimitive() && DataTypeConverter.ConvertToBoolean(AsString(additional).value) == Ok(false) ==>
              (r.Err? <==> exists k :: k in inputProperties && k !in schemaProperties && k !in patternProperties)
    ensures additional.IsPrimitive() ==> (r.Ok? ==> r.value == input) && (r.Err? ==> r.error in {ParserException, ValidatorException})
    ensures additional.IsPrimitive() && DataTypeConverter.ConvertToBoolean(AsString(additional).value) == Ok(true) ==> r == Ok(input)
    ensures additional.IsPrimitive() && DataTypeConverter.ConvertToBoolean(AsString(additional).value).Err? ==> r == Err(ParserException)
    ensures !additional.IsPrimitive() && !additional.JsonObject? ==> r == Ok(input)
    ensures r.Ok? && (forall k :: k in inputProperties ==> Has(input, k)) ==> KeySet(r.value) == KeySet(input)
    ensures r.Ok? && UniqueKeys(input) && (forall k :: k in inputProperties ==> Has(input, k)) ==>
              UniqueKeys(r.value) && |r.value| == |input|
    ensures r.Ok? ==> forall k :: k !in inputProperties || k in schemaProperties || k in patternProperties ==>
                         Get(r.value, k) == Get(input, k)
    ensures r.Ok? && additional.JsonObject? && Has(additional.members, TYPE_KEY) ==>
              forall k :: k in inputProperties && k !in schemaProperties && k !in patternProperties ==>
                Get(r.value, k).Some? && Replaced(env, additional, TypeText(additional.members), Get(r.value, k).value)
    ensures additional.JsonObject? && |additional.members| == 0 ==> r == Ok(input)
    ensures r.Ok? && additional.JsonObject? && |additional.members| > 0 && Distinct(inputProperties) ==>
              var leftover := Leftover(inputProperties, schemaProperties, patternProperties);
              Keys(r.value) == Outside(Keys(input), leftover) + leftover
  {
    var leftover := Leftover(inputProperties, schemaProperties, patternProperties);
    if additional.IsPrimitive() then
      var allowed :- DataTypeConverter.ConvertToBoolean(AsString(additional).value);
      if !allowed && |leftover| > 0 then
        assert leftover[0] in leftover;
        Err(ValidatorException)
      else Ok(input)
    else if additional.JsonObject? then ValidateLeftover(env, input, additional, leftover)
    else Ok(input)
  }

  /** An object-valued additionalProperties: validateMultiple over the keys left over. */
  function ValidateLeftover(env: Env, input: Members, additional: Json, leftover: seq<string>): (r: Result<Members, ErrorKind>)
    requires additional.JsonObject?
    decreases additional, 10, 1
    ensures r.Ok? && (forall k :: k in leftover ==> Has(input, k)) ==> KeySet(r.value) == KeySet(input)
    ensures r.Ok? && UniqueKeys(input) && (forall k :: k in leftover ==> Has(input, k)) ==>
              UniqueKeys(r.value) && |r.value| == |input|
    ensures r.Ok? ==> forall k :: k !in leftover ==> Get(r.value, k) == Get(input, k)
    ensures r.Ok? && Has(additional.members, TYPE_KEY) ==>
              forall k :: k in leftover ==> Get(r.value, k).Some? && Replaced(env, additional, TypeText(additional.members), Get(r.value, k).value)
    ensures |additional.members| == 0 ==> r == Ok(input)
    ensures r.Ok? && |additional.members| > 0 && Distinct(leftover) ==> Keys(r.value) == Outside(Keys(input), leftover) + leftover
  {
    var r := ValidateMultiple(env, leftover, input, additional);
    assert r.Ok? && (forall k :: k in leftover ==> Has(input, k)) ==> KeySet(r.value) == KeySet(input) by {
      if r.Ok? && (forall k :: k in leftover ==> Has(input, k)) {
        forall k ensures k in KeySet(r.value) <==> k in KeySet(input) {
          assert Has(r.value, k) ==> Has(input, k) || k in leftover;
        }
      }
    }
    r
  }

  /**
   * An object-valued `additionalProperties` with keys in it: without `type`
   * it rejects any leftover key with ValidatorException; with `type` each
   * leftover key ends with its own value's replacement, and the first leftover
   * key whose replacement fails decides the error.
   */
  lemma AdditionalSchemaRewrites(env: Env, input: Members, additional: Json, inputProperties: seq<string>,
                                 patternProperties: seq<string>, schemaProperties: seq<string>)
    requires additional.JsonObject? && |additional.members| > 0
    ensures var r := ProcessAdditionalProperties(env, input, additional, inputProperties, patternProperties, schemaProperties);
            && (!Has(additional.members, TYPE_KEY) && (exists k :: k in inputProperties && k !in schemaProperties && k !in patternProperties)
                ==> r == Err(ValidatorException))
            && (Has(additional.members, TYPE_KEY) && Distinct(inputProperties) ==>
                  var leftover := Leftover(inputProperties, schemaProperties, patternProperties);
                  && (r.Ok? <==> ReplacementsPass(env, input, additional, TypeText(additional.members), leftover, 0))
                  && (r.Err? ==> FirstReplacementFails(env, input, additional, TypeText(additional.members), leftover, 0, r.error))
                  && (r.Ok? ==> forall k :: k in leftover ==>
                        Get(r.value, k).Some? && KeyReplacement(env, input, additional, TypeText(additional.members), k) == Ok(Get(r.value, k).value)))
  {
    var leftover := Leftover(inputProperties, schemaProperties, patternProperties);
    if exists k :: k in inputProperties && k !in schemaProperties && k !in patternProperties {
      var k :| k in inputProperties && k !in schemaProperties && k !in patternProperties;
      assert k in leftover;
    }
  }

  // ----- validateObject -------------------------------------------------------------

  /** Some pattern of an object-valued `patternProperties` is found in k. */
  predicate PatternMatches(env: Env, schema: Json, k: string)
    requires schema.JsonObject?
  {
    match Member(schema, PATTERN_PROPERTIES)
    case Some(patterns) => patterns.JsonObject? && MatchedFrom(env, patterns, 0, k)
    case None => false
  }

  lemma SameKeys(a: Members, b: Members)
    requires KeySet(a) == KeySet(b)
    ensures forall k :: Has(a, k) <==> Has(b, k)
  {
    forall k ensures Has(a, k) <==> Has(b, k) {
      assert k in KeySet(a) <==> k in KeySet(b);
    }
  }

  /** The members validateObject hands to `patternProperties`: the input as
      the `properties` step rewrote it, or the input itself without `properties`. */
  function AfterProperties(env: Env, input: Members, schema: Json): (r: Result<Members, ErrorKind>)
    requires schema.JsonObject? && PropertiesOf(schema).Ok?
    ensures r.Ok? ==> Keys(r.value) == Keys(input)
    ensures PropertiesOf(schema).value.None? ==> r == Ok(input)
    ensures PropertiesOf(schema).value.Some? ==>
              (r.Err? <==> ProcessSchemaProperties(env, PropertiesOf(schema).value.value, input).Err?)
              && (r.Err? ==> r.error == ProcessSchemaProperties(env, PropertiesOf(schema).value.value, input).error)
  {
    match PropertiesOf(schema).value
    case None => Ok(input)
    case Some(properties) =>
      var updated :- ProcessSchemaProperties(env, properties, input);
      Ok(updated.0)
  }

  /** Under the `properties` step, a governed key holds its entry's update and any other key keeps its value. */
  lemma AfterPropertiesValues(env: Env, input: Members, schema: Json, k: string)
    requires schema.JsonObject? && PropertiesOf(schema).Ok?
    ensures AfterProperties(env, input, schema).Ok? && Has(input, k) ==>
              var after := AfterProperties(env, input, schema).value;
              Get(after, k).Some?
              && match PropertiesOf(schema).value
                 case Some(properties) =>
                   (Governs(properties, k) ==> EntryUpdate(env, properties, (k, Get(input, k).value)) == Ok(Get(after, k).value))
                   && (!Governs(properties, k) ==> Get(after, k) == Get(input, k))
                 case None => Get(after, k) == Get(input, k)
  {
    var after := AfterProperties(env, input, schema);
    if after.Ok? && Has(input, k) && PropertiesOf(schema).value.Some? {
      SchemaPropertiesValues(env, PropertiesOf(schema).value.value, input, k);
    }
  }

  /**
   * validateObject up to, but not including, `additionalProperties`: the
   * required check, the property count, then the `properties` and
   * `patternProperties` rewrites, collecting the key lists the last step uses.
   */
  function ClaimKeys(env: Env, input: Members, schema: Json): (r: Result<Claims, ErrorKind>)
    requires schema.JsonObject?
    decreases schema, 5, 0
    ensures RequiredMissing(input, schema) ==> r == Err(ValidatorException)
    ensures r.Ok? ==> ReadBound(schema, MIN_PROPERTIES).Ok? && ReadBound(schema, MAX_PROPERTIES).Ok?
    ensures r.Ok? ==> CheckPropertyCount(ReadBound(schema, MAX_PROPERTIES).value, ReadBound(schema, MIN_PROPERTIES).value, |input|).Ok?
    ensures r.Ok? ==> CheckRequired(input, schema).Ok? && PropertiesOf(schema).Ok?
    ensures r.Ok? ==> KeySet(r.value.members) == KeySet(input)
    ensures r.Ok? && UniqueKeys(input) ==> UniqueKeys(r.value.members) && |r.value.members| == |input|
    ensures r.Ok? ==> r.value.inputProperties == if Member(schema, PROPERTIES).Some? then Keys(input) else []
    ensures r.Ok? ==> forall k :: k in r.value.schemaProperties <==> Declares(schema, k) && Has(input, k)
    ensures r.Ok? ==> forall k :: k in r.value.patternProperties <==> Has(input, k) && PatternMatches(env, schema, k)
  {
    var _ :- CheckRequired(input, schema);
    var minimum :- ReadBound(schema, MIN_PROPERTIES);
    var maximum :- ReadBound(schema, MAX_PROPERTIES);
    var properties :- PropertiesOf(schema);
    var _ :- CheckPropertyCount(maximum, minimum, |input|);
    var schemaProperties := SchemaPropertiesPresent(properties, input);
    var afterProperties :-
      if properties.Some? then ProcessSchemaProperties(env, properties.value, input) else Ok((input, []));
    SameKeys(afterProperties.0, input);
    var afterPatterns :-
      match Member(schema, PATTERN_PROPERTIES)
      case Some(patterns) => ProcessPatternProperties(env, afterProperties.0, patterns)
      case None => Ok((afterProperties.0, []));
    Ok(Claims(afterPatterns.0, afterProperties.1, schemaProperties, afterPatterns.1))
  }

  /**
   * validateObject: the corrected object. Validation never adds or drops a
   * key, and a missing required key fails before any value is looked at.
   */
  function ValidateObject(env: Env, input: Members, schema: Json): (r: Result<Members, ErrorKind>)
    requires schema.JsonObject?
    decreases schema, 6, 0
    ensures r.Ok? ==> KeySet(r.value) == KeySet(input)
    ensures r.Ok? && UniqueKeys(input) ==> UniqueKeys(r.value) && |r.value| == |input|
    ensures RequiredMissing(input, schema) ==> r == Err(ValidatorException)
    ensures r.Ok? ==> ReadBound(schema, MIN_PROPERTIES).Ok? && ReadBound(schema, MAX_PROPERTIES).Ok?
    ensures r.Ok? ==> CheckPropertyCount(ReadBound(schema, MAX_PROPERTIES).value, ReadBound(schema, MIN_PROPERTIES).value, |input|).Ok?
  {
    var claims :- ClaimKeys(env, input, schema);
    match Member(schema, ADDITIONAL_PROPERTIES)
    case None => Ok(claims.members)
    case Some(additional) =>
      ProcessAdditionalProperties(env, claims.members, additional,
        claims.inputProperties, claims.patternProperties, claims.schemaProperties)
  }

  // ----- the order of the validated object's keys -------------------------------------

  /** The keys of ks that `properties` does not declare and no pattern is found in, in their order in ks. */
  function Unclaimed(env: Env, schema: Json, ks: seq<string>): (r: seq<string>)
    requires schema.JsonObject?
    ensures forall k :: k in r <==> k in ks && !Declares(schema, k) && !PatternMatches(env, schema, k)
  {
    if |ks| == 0 then []
    else
      assert forall x :: x in ks <==> x == ks[0] || x in ks[1..];
      (if !Declares(schema, ks[0]) && !PatternMatches(env, schema, ks[0]) then [ks[0]] else [])
        + Unclaimed(env, schema, ks[1..])
  }

  /** The order of the keys once `patternProperties` has run, from the keys alone. */
  function PatternedOrder(env: Env, schema: Json, ks: seq<string>): (r: seq<string>)
    requires schema.JsonObject?
    ensures forall k :: k in r <==> k in ks
  {
    match Member(schema, PATTERN_PROPERTIES)
    case Some(patterns) => if patterns.JsonObject? then PatternKeyOrder(env, patterns, 0, ks) else ks
    case None => ks
  }

  /**
   * The order of the keys validateObject returns, from the input's keys and
   * the schema alone: the `properties` step keeps the order, each pattern
   * moves the keys it is found in behind the others, and an object schema
   * under `additionalProperties` moves the unclaimed keys, in input order,
   * behind the rest. Values and validators play no part.
   */
  function KeyOrder(env: Env, schema: Json, ks: seq<string>): (r: seq<string>)
    requires schema.JsonObject?
    ensures forall k :: k in r <==> k in ks
  {
    var patterned := PatternedOrder(env, schema, ks);
    match Member(schema, ADDITIONAL_PROPERTIES)
    case Some(additional) =>
      if additional.JsonObject? && |additional.members| > 0 && Member(schema, PROPERTIES).Some? then
        var leftover := Unclaimed(env, schema, ks);
        OutsideMembers(patterned, leftover);
        Outside(patterned, leftover) + leftover
      else patterned
    case None => patterned
  }

  /** The leftover list of processAdditionalProperties is the unclaimed keys of inputProperties. */
  lemma {:induction false} LeftoverUnclaimed(env: Env, schema: Json, inputProperties: seq<string>,
                                             schemaProperties: seq<string>, patternProperties: seq<string>)
    requires schema.JsonObject?
    requires forall k :: k in inputProperties ==>
               (k in schemaProperties <==> Declares(schema, k)) && (k in patternProperties <==> PatternMatches(env, schema, k))
    ensures Leftover(inputProperties, schemaProperties, patternProperties) == Unclaimed(env, schema, inputProperties)
  {
    if |inputProperties| > 0 {
      assert forall k :: k in inputProperties[1..] ==> k in inputProperties;
      assert inputProperties[0] in inputProperties;
      LeftoverUnclaimed(env, schema, inputProperties[1..], schemaProperties, patternProperties);
    }
  }

  /** The object handed to `additionalProperties` has its keys in the order the patterns leave. */
  lemma ClaimKeysOrder(env: Env, input: Members, schema: Json)
    requires schema.JsonObject?
    ensures ClaimKeys(env, input, schema).Ok? && UniqueKeys(input) ==>
              Keys(ClaimKeys(env, input, schema).value.members) == PatternedOrder(env, schema, Keys(input))
  {
    if ClaimKeys(env, input, schema).Ok? && UniqueKeys(input) {
      var properties := PropertiesOf(schema).value;
      var after := if properties.Some? then ProcessSchemaProperties(env, properties.value, input) else Ok((input, []));
      assert after.Ok? && Keys(after.value.0) == Keys(input);
      assert UniqueKeys(after.value.0) by {
        forall i, j | 0 <= i < j < |after.value.0| ensures after.value.0[i].0 != after.value.0[j].0 {
          assert Keys(after.value.0)[i] == Keys(input)[i] && Keys(after.value.0)[j] == Keys(input)[j];
        }
      }
    }
  }

  /** A validated object has its keys in the order KeyOrder gives. */
  lemma ValidateObjectKeyOrder(env: Env, input: Members, schema: Json)
    requires schema.JsonObject?
    ensures ValidateObject(env, input, schema).Ok? && UniqueKeys(input) ==>
              Keys(ValidateObject(env, input, schema).value) == KeyOrder(env, schema, Keys(input))
  {
    var claims := ClaimKeys(env, input, schema);
    if ValidateObject(env, input, schema).Ok? && UniqueKeys(input) {
      ClaimKeysOrder(env, input, schema);
      var c := claims.value;
      var patterned := PatternedOrder(env, schema, Keys(input));
      assert Keys(c.members) == patterned;
      match Member(schema, ADDITIONAL_PROPERTIES)
      case None =>
      case Some(additional) =>
        if additional.JsonObject? && |additional.members| > 0 {
          assert Distinct(Keys(input));
          var leftover := Leftover(c.inputProperties, c.schemaProperties, c.patternProperties);
          if Member(schema, PROPERTIES).Some? {
            LeftoverUnclaimed(env, schema, c.inputProperties, c.schemaProperties, c.patternProperties);
          } else {
            assert leftover == [];
            OutsideNone(patterned, leftover);
          }
        }
    }
  }

  /** Without `patternProperties` and without an object-valued
      `additionalProperties`, a validated object keeps the input's key order. */
  lemma UnpatternedKeepsOrder(env: Env, input: Members, schema: Json)
    requires schema.JsonObject?
    ensures && ValidateObject(env, input, schema).Ok? && UniqueKeys(input)
            && Member(schema, PATTERN_PROPERTIES).None?
            && (Member(schema, ADDITIONAL_PROPERTIES).None? || !Member(schema, ADDITIONAL_PROPERTIES).value.JsonObject?)
            ==> Keys(ValidateObject(env, input, schema).value) == Keys(input)
  {
    ValidateObjectKeyOrder(env, input, schema);
  }

  // ----- properties of validateObject -------------------------------------------------

  /**
   * With `additionalProperties` false (or any primitive that converts to
   * false), validation fails exactly when `properties` is present and some
   * input key is neither declared there nor matched by a pattern. Without
   * `properties` the key pool stays empty and nothing is rejected.
   */
  lemma AdditionalFalseRejectsUnclaimed(env: Env, input: Members, schema: Json)
    requires schema.JsonObject?
    requires Member(schema, ADDITIONAL_PROPERTIES).Some?
    requires Member(schema, ADDITIONAL_PROPERTIES).value.IsPrimitive()
    requires DataTypeConverter.ConvertToBoolean(AsString(Member(schema, ADDITIONAL_PROPERTIES).value).value) == Ok(false)
    ensures ClaimKeys(env, input, schema).Ok? ==>
              (ValidateObject(env, input, schema).Err? <==>
                 Member(schema, PROPERTIES).Some? &&
                 exists k :: Has(input, k) && !Declares(schema, k) && !PatternMatches(env, schema, k))
    ensures ClaimKeys(env, input, schema).Ok? && ValidateObject(env, input, schema).Err? ==>
              ValidateObject(env, input, schema).error == ValidatorException
    ensures ValidateObject(env, input, schema).Ok? ==>
              ClaimKeys(env, input, schema).Ok? && ValidateObject(env, input, schema).value == ClaimKeys(env, input, schema).value.members
  {
    if ClaimKeys(env, input, schema).Err? {
      return;
    }
    var claims := ClaimKeys(env, input, schema).value;
    var additional := Member(schema, ADDITIONAL_PROPERTIES).value;
    var r := ValidateObject(env, input, schema);
    assert r == ProcessAdditionalProperties(env, claims.members, additional,
      claims.inputProperties, claims.patternProperties, claims.schemaProperties);
    UnclaimedKeys(env, input, schema, claims);
  }

  /** A key is left for `additionalProperties` exactly when `properties` is
      present and the key is neither declared there nor matched by a pattern. */
  lemma UnclaimedKeys(env: Env, input: Members, schema: Json, claims: Claims)
    requires schema.JsonObject?
    requires claims.inputProperties == if Member(schema, PROPERTIES).Some? then Keys(input) else []
    requires forall k :: k in claims.schemaProperties <==> Declares(schema, k) && Has(input, k)
    requires forall k :: k in claims.patternProperties <==> Has(input, k) && PatternMatches(env, schema, k)
    ensures (exists k :: k in claims.inputProperties && k !in claims.schemaProperties && k !in claims.patternProperties) <==>
              Member(schema, PROPERTIES).Some? && exists k :: Has(input, k) && !Declares(schema, k) && !PatternMatches(env, schema, k)
  {
    if exists k :: k in claims.inputProperties && k !in claims.schemaProperties && k !in claims.patternProperties {
      var k :| k in claims.inputProperties && k !in claims.schemaProperties && k !in claims.patternProperties;
      assert Member(schema, PROPERTIES).Some? && Has(input, k) && !Declares(schema, k) && !PatternMatches(env, schema, k);
    }
    if Member(schema, PROPERTIES).Some? && exists k :: Has(input, k) && !Declares(schema, k) && !PatternMatches(env, schema, k) {
      var k :| Has(input, k) && !Declares(schema, k) && !PatternMatches(env, schema, k);
      assert k in claims.inputProperties && k !in claims.schemaProperties && k !in claims.patternProperties;
    }
  }

  /** `additionalProperties` true (or any primitive converting to true) changes nothing. */
  lemma AdditionalTrueAcceptsAll(env: Env, input: Members, schema: Json)
    requires schema.JsonObject?
    requires Member(schema, ADDITIONAL_PROPERTIES).Some?
    requires Member(schema, ADDITIONAL_PROPERTIES).value.IsPrimitive()
    requires DataTypeConverter.ConvertToBoolean(AsString(Member(schema, ADDITIONAL_PROPERTIES).value).value) == Ok(true)
    ensures ValidateObject(env, input, schema) == (var claims :- ClaimKeys(env, input, schema); Ok(claims.members))
  {
  }

  /**
   * Once `required` is satisfied and the bounds and `properties` can be read,
   * a property count outside the inclusive bounds fails with a
   * ValidatorException, whatever else the schema says.
   */
  lemma PropertyCountOutOfBounds(env: Env, input: Members, schema: Json)
    requires schema.JsonObject?
    ensures CheckRequired(input, schema).Ok? && PropertiesOf(schema).Ok?
            && ReadBound(schema, MIN_PROPERTIES).Ok? && ReadBound(schema, MAX_PROPERTIES).Ok?
            && CheckPropertyCount(ReadBound(schema, MAX_PROPERTIES).value, ReadBound(schema, MIN_PROPERTIES).value, |input|).Err? ==>
              ValidateObject(env, input, schema) == Err(ValidatorException)
  {
  }

  /** A schema without any object keyword accepts every object unchanged. */
  lemma UnconstrainedSchemaKeepsInput(env: Env, input: Members, schema: Json)
    requires schema.JsonObject?
    requires !Has(schema.members, REQUIRED) && !Has(schema.members, MIN_PROPERTIES) && !Has(schema.members, MAX_PROPERTIES)
    requires !Has(schema.members, PROPERTIES) && !Has(schema.members, PATTERN_PROPERTIES) && !Has(schema.members, ADDITIONAL_PROPERTIES)
    ensures ValidateObject(env, input, schema) == Ok(input)
  {
  }

  /**
   * The values validateObject hands to `additionalProperties`, for a key of
   * the input that no pattern is found in: its `properties` update when the
   * key's child schema is an object with a `type`, its input value otherwise.
   */
  lemma PropertiesReachClaims(env: Env, input: Members, schema: Json, k: string)
    requires schema.JsonObject?
    ensures ClaimKeys(env, input, schema).Ok? && Has(input, k) && !PatternMatches(env, schema, k) ==>
              var members := ClaimKeys(env, input, schema).value.members;
              Get(members, k).Some?
              && match Member(schema, PROPERTIES)
                 case Some(properties) =>
                   properties.JsonObject?
                   && (Governs(properties, k) ==>
                         EntryUpdate(env, properties, (k, Get(input, k).value)) == Ok(Get(members, k).value)
                         && PropertyResult(env, properties, (k, Get(input, k).value), Get(members, k).value))
                   && (!Governs(properties, k) ==> Get(members, k) == Get(input, k))
                 case None => Get(members, k) == Get(input, k)
  {
    if ClaimKeys(env, input, schema).Err? || !Has(input, k) || PatternMatches(env, schema, k) {
      return;
    }
    var members := ClaimKeys(env, input, schema).value.members;
    var properties := PropertiesOf(schema).value;
    var after := if properties.Some? then ProcessSchemaProperties(env, properties.value, input) else Ok((input, []));
    assert after.Ok?;
    assert Get(members, k) == Get(after.value.0, k);
    if properties.Some? {
      SchemaPropertiesValues(env, properties.value, input, k);
    }
  }

  /** When `additionalProperties` is reached, a key of the input holds the
      fold, over the patterns found in it in declared order, of the value the
      `properties` step left under it; in particular a value its last matching
      pattern's validator produced. */
  lemma PatternsReachClaims(env: Env, input: Members, schema: Json, k: string, m: nat)
    requires schema.JsonObject?
    ensures ClaimKeys(env, input, schema).Ok? && Has(input, k) && Member(schema, PATTERN_PROPERTIES).Some?
            && Member(schema, PATTERN_PROPERTIES).value.JsonObject?
            && LastMatch(env, Member(schema, PATTERN_PROPERTIES).value, m, k) ==>
              var patterns := Member(schema, PATTERN_PROPERTIES).value;
              var members := ClaimKeys(env, input, schema).value.members;
              TypedPattern(patterns.members[m].1) && Get(members, k).Some?
              && Replaced(env, patterns.members[m].1, PatternType(patterns.members[m].1), Get(members, k).value)
    ensures && ClaimKeys(env, input, schema).Ok? && UniqueKeys(input) && Has(input, k)
            && Member(schema, PATTERN_PROPERTIES).Some? ==>
              var patterns := Member(schema, PATTERN_PROPERTIES).value;
              var members := ClaimKeys(env, input, schema).value.members;
              var after := AfterProperties(env, input, schema);
              patterns.JsonObject? && TypedFrom(patterns, 0) && after.Ok? && Has(after.value, k) && Get(members, k).Some?
              && PatternFold(env, patterns, 0, k, Get(after.value, k).value) == Ok(Get(members, k).value)
  {
    if ClaimKeys(env, input, schema).Err? || !Has(input, k) || Member(schema, PATTERN_PROPERTIES).None? {
      return;
    }
    var properties := PropertiesOf(schema).value;
    var after := if properties.Some? then ProcessSchemaProperties(env, properties.value, input) else Ok((input, []));
    assert after.Ok?;
    assert AfterProperties(env, input, schema) == Ok(after.value.0);
    SameKeys(after.value.0, input);
    assert UniqueKeys(input) ==> UniqueKeys(after.value.0);
  }

  /** Once the reads, the count and `properties` pass, a failing
      `patternProperties` step ends validation with its error; with typed
      patterns that error is the one some key's fold fails with. */
  lemma PatternsErrorPropagates(env: Env, input: Members, schema: Json)
    requires schema.JsonObject?
    ensures && CheckRequired(input, schema).Ok?
            && ReadBound(schema, MIN_PROPERTIES).Ok? && ReadBound(schema, MAX_PROPERTIES).Ok?
            && CheckPropertyCount(ReadBound(schema, MAX_PROPERTIES).value, ReadBound(schema, MIN_PROPERTIES).value, |input|).Ok?
            && PropertiesOf(schema).Ok? && AfterProperties(env, input, schema).Ok?
            && Member(schema, PATTERN_PROPERTIES).Some?
            && ProcessPatternProperties(env, AfterProperties(env, input, schema).value, Member(schema, PATTERN_PROPERTIES).value).Err?
            ==> && ValidateObject(env, input, schema)
                   == Err(ProcessPatternProperties(env, AfterProperties(env, input, schema).value, Member(schema, PATTERN_PROPERTIES).value).error)
                && (var patterns := Member(schema, PATTERN_PROPERTIES).value;
                    var after := AfterProperties(env, input, schema).value;
                    patterns.JsonObject? && TypedFrom(patterns, 0) && UniqueKeys(input) ==>
                      exists k :: Has(after, k) && PatternFold(env, patterns, 0, k, Get(after, k).value) == Err(ValidateObject(env, input, schema).error))
  {
    if && CheckRequired(input, schema).Ok?
       && ReadBound(schema, MIN_PROPERTIES).Ok? && ReadBound(schema, MAX_PROPERTIES).Ok?
       && CheckPropertyCount(ReadBound(schema, MAX_PROPERTIES).value, ReadBound(schema, MIN_PROPERTIES).value, |input|).Ok?
       && PropertiesOf(schema).Ok? && AfterProperties(env, input, schema).Ok?
       && Member(schema, PATTERN_PROPERTIES).Some?
    {
      var patterns := Member(schema, PATTERN_PROPERTIES).value;
      var after := AfterProperties(env, input, schema).value;
      var properties := PropertiesOf(schema).value;
      var step := if properties.Some? then ProcessSchemaProperties(env, properties.value, input) else Ok((input, []));
      assert step.Ok? && step.value.0 == after;
      if ProcessPatternProperties(env, after, patterns).Err? && patterns.JsonObject? && TypedFrom(patterns, 0) && UniqueKeys(input) {
        assert UniqueKeys(after);
        PatternsFailWithFold(env, after, patterns, 0, []);
      }
    }
  }

  /** A `patternProperties` whose first pattern's schema is an object without
      `type` makes validateObject fail with ValidatorException once the
      reads, the count and `properties` pass. */
  lemma UntypedPatternRejected(env: Env, input: Members, schema: Json)
    requires schema.JsonObject?
    ensures && CheckRequired(input, schema).Ok?
            && ReadBound(schema, MIN_PROPERTIES).Ok? && ReadBound(schema, MAX_PROPERTIES).Ok?
            && CheckPropertyCount(ReadBound(schema, MAX_PROPERTIES).value, ReadBound(schema, MIN_PROPERTIES).value, |input|).Ok?
            && PropertiesOf(schema).Ok? && AfterProperties(env, input, schema).Ok?
            && Member(schema, PATTERN_PROPERTIES).Some?
            && Member(schema, PATTERN_PROPERTIES).value.JsonObject?
            && |Member(schema, PATTERN_PROPERTIES).value.members| > 0
            && Member(schema, PATTERN_PROPERTIES).value.members[0].1.JsonObject?
            && !DeclaresType(Member(schema, PATTERN_PROPERTIES).value.members[0].1)
            ==> ValidateObject(env, input, schema) == Err(ValidatorException)
  {
    PatternsErrorPropagates(env, input, schema);
  }

  /** The first of `required`, `minProperties`, `maxProperties` and `properties`
      that cannot be read or fails ends validation with its own error. */
  lemma ReadErrorsPropagate(env: Env, input: Members, schema: Json)
    requires schema.JsonObject?
    ensures CheckRequired(input, schema).Err? ==> ValidateObject(env, input, schema) == Err(CheckRequired(input, schema).error)
    ensures CheckRequired(input, schema).Ok? && ReadBound(schema, MIN_PROPERTIES).Err? ==>
              ValidateObject(env, input, schema) == Err(ReadBound(schema, MIN_PROPERTIES).error)
    ensures CheckRequired(input, schema).Ok? && ReadBound(schema, MIN_PROPERTIES).Ok? && ReadBound(schema, MAX_PROPERTIES).Err? ==>
              ValidateObject(env, input, schema) == Err(ReadBound(schema, MAX_PROPERTIES).error)
    ensures && CheckRequired(input, schema).Ok?
            && ReadBound(schema, MIN_PROPERTIES).Ok? && ReadBound(schema, MAX_PROPERTIES).Ok?
            && PropertiesOf(schema).Err?
            ==> ValidateObject(env, input, schema) == Err(RuntimeException)
  {
  }

  /** Once the reads and the count pass, a `properties` update that fails ends
      validation with the error of the first governed entry, in input order, whose update fails. */
  lemma PropertiesErrorPropagates(env: Env, input: Members, schema: Json)
    requires schema.JsonObject?
    ensures && CheckRequired(input, schema).Ok?
            && ReadBound(schema, MIN_PROPERTIES).Ok? && ReadBound(schema, MAX_PROPERTIES).Ok?
            && CheckPropertyCount(ReadBound(schema, MAX_PROPERTIES).value, ReadBound(schema, MIN_PROPERTIES).value, |input|).Ok?
            && PropertiesOf(schema).Ok? && PropertiesOf(schema).value.Some?
            && ProcessSchemaProperties(env, PropertiesOf(schema).value.value, input).Err?
            ==> && ValidateObject(env, input, schema) == Err(ProcessSchemaProperties(env, PropertiesOf(schema).value.value, input).error)
                && EntryFails(env, PropertiesOf(schema).value.value, input, 0, ValidateObject(env, input, schema).error)
                && FirstEntryFails(env, PropertiesOf(schema).value.value, input, ValidateObject(env, input, schema).error)
  {
  }

  /** A key an object-valued `properties` does not declare has no child schema there. */
  lemma UndeclaredUngoverned(schema: Json, k: string)
    requires schema.JsonObject? && Member(schema, PROPERTIES).Some? && Member(schema, PROPERTIES).value.JsonObject?
    requires !Declares(schema, k)
    ensures !Governs(Member(schema, PROPERTIES).value, k)
  {
    var properties := Member(schema, PROPERTIES).value;
    assert !Has(properties.members, k);
    assert Member(properties, k).None?;
  }

  /** Once the earlier steps pass, a failing `additionalProperties` step ends
      validation with its error; for an object schema with `type`, validation
      succeeds exactly when every leftover key's replacement does, and
      otherwise fails with the first failing leftover key's error. */
  lemma AdditionalErrorPropagates(env: Env, input: Members, schema: Json)
    requires schema.JsonObject?
    ensures && ClaimKeys(env, input, schema).Ok? && Member(schema, ADDITIONAL_PROPERTIES).Some?
            && (var c := ClaimKeys(env, input, schema).value;
                ProcessAdditionalProperties(env, c.members, Member(schema, ADDITIONAL_PROPERTIES).value,
                  c.inputProperties, c.patternProperties, c.schemaProperties).Err?)
            ==> var c := ClaimKeys(env, input, schema).value;
                ValidateObject(env, input, schema)
                  == Err(ProcessAdditionalProperties(env, c.members, Member(schema, ADDITIONAL_PROPERTIES).value,
                           c.inputProperties, c.patternProperties, c.schemaProperties).error)
    ensures && ClaimKeys(env, input, schema).Ok? && UniqueKeys(input) && Member(schema, ADDITIONAL_PROPERTIES).Some?
            && Member(schema, ADDITIONAL_PROPERTIES).value.JsonObject?
            && Has(Member(schema, ADDITIONAL_PROPERTIES).value.members, TYPE_KEY)
            ==> var c := ClaimKeys(env, input, schema).value;
                var additional := Member(schema, ADDITIONAL_PROPERTIES).value;
                var leftover := Leftover(c.inputProperties, c.schemaProperties, c.patternProperties);
                var r := ValidateObject(env, input, schema);
                && (r.Ok? <==> ReplacementsPass(env, c.members, additional, TypeText(additional.members), leftover, 0))
                && (r.Err? ==> FirstReplacementFails(env, c.members, additional, TypeText(additional.members), leftover, 0, r.error))
  {
    var claims := ClaimKeys(env, input, schema);
    if claims.Ok? && UniqueKeys(input) && Member(schema, ADDITIONAL_PROPERTIES).Some? {
      var additional := Member(schema, ADDITIONAL_PROPERTIES).value;
      if additional.JsonObject? && Has(additional.members, TYPE_KEY) {
        assert Distinct(Keys(input));
        var c := claims.value;
        AdditionalSchemaRewrites(env, c.members, additional, c.inputProperties, c.patternProperties, c.schemaProperties);
      }
    }
  }

  /** With `properties` present, an object-valued `additionalProperties` with
      `type` leaves under a key that is neither declared nor matched by a
      pattern its validator's answer on that key's own input value. */
  lemma AdditionalReachesResult(env: Env, input: Members, schema: Json, k: string)
    requires schema.JsonObject?
    ensures && ClaimKeys(env, input, schema).Ok? && UniqueKeys(input) && Has(input, k)
            && Member(schema, PROPERTIES).Some? && !Declares(schema, k) && !PatternMatches(env, schema, k)
            && Member(schema, ADDITIONAL_PROPERTIES).Some?
            && Member(schema, ADDITIONAL_PROPERTIES).value.JsonObject?
            && Has(Member(schema, ADDITIONAL_PROPERTIES).value.members, TYPE_KEY)
            && ValidateObject(env, input, schema).Ok?
            ==> var additional := Member(schema, ADDITIONAL_PROPERTIES).value;
                var result := ValidateObject(env, input, schema).value;
                Get(result, k).Some?
                && ReplacementFor(env, additional, TypeText(additional.members), Get(input, k).value) == Ok(Get(result, k).value)
  {
    var claims := ClaimKeys(env, input, schema);
    if && claims.Ok? && UniqueKeys(input) && Has(input, k)
       && Member(schema, PROPERTIES).Some? && !Declares(schema, k) && !PatternMatches(env, schema, k)
       && Member(schema, ADDITIONAL_PROPERTIES).Some?
    {
      var additional := Member(schema, ADDITIONAL_PROPERTIES).value;
      var c := claims.value;
      if additional.JsonObject? && Has(additional.members, TYPE_KEY) && ValidateObject(env, input, schema).Ok? {
        assert Distinct(Keys(input));
        assert k in c.inputProperties && k !in c.schemaProperties && k !in c.patternProperties;
        AdditionalSchemaRewrites(env, c.members, additional, c.inputProperties, c.patternProperties, c.schemaProperties);
        assert k in Leftover(c.inputProperties, c.schemaProperties, c.patternProperties);
        PropertiesReachClaims(env, input, schema, k);
        UndeclaredUngoverned(schema, k);
        assert Get(c.members, k) == Get(input, k);
        PresentKeyReplacement(env, c.members, additional, TypeText(additional.members), k);
      }
    }
  }

  /** A successful validation ends with the value the earlier steps left
      under a key, unless `additionalProperties` is an object schema and the
      key is handed to it: there is `properties`, and the key is neither
      declared nor matched by a pattern. */
  lemma ClaimedKeysKept(env: Env, input: Members, schema: Json, k: string)
    requires schema.JsonObject?
    ensures && ClaimKeys(env, input, schema).Ok? && ValidateObject(env, input, schema).Ok?
            && (|| Member(schema, ADDITIONAL_PROPERTIES).None? || !Member(schema, ADDITIONAL_PROPERTIES).value.JsonObject?
                || Member(schema, PROPERTIES).None? || Declares(schema, k) || PatternMatches(env, schema, k))
            ==> Get(ValidateObject(env, input, schema).value, k) == Get(ClaimKeys(env, input, schema).value.members, k)
  {
    var claims := ClaimKeys(env, input, schema);
    if && claims.Ok? && ValidateObject(env, input, schema).Ok?
       && (Member(schema, PROPERTIES).None? || Declares(schema, k) || PatternMatches(env, schema, k))
    {
      var c := claims.value;
      assert k !in c.inputProperties || k in c.schemaProperties || k in c.patternProperties;
    }
  }

  /** With `properties` present, a non-empty object-valued
      `additionalProperties` without `type` makes validation fail with
      ValidatorException as soon as some input key is neither declared nor
      matched by a pattern. */
  lemma UntypedAdditionalRejected(env: Env, input: Members, schema: Json, k: string)
    requires schema.JsonObject?
    ensures && ClaimKeys(env, input, schema).Ok? && Has(input, k)
            && Member(schema, PROPERTIES).Some? && !Declares(schema, k) && !PatternMatches(env, schema, k)
            && Member(schema, ADDITIONAL_PROPERTIES).Some?
            && Member(schema, ADDITIONAL_PROPERTIES).value.JsonObject?
            && |Member(schema, ADDITIONAL_PROPERTIES).value.members| > 0
            && !Has(Member(schema, ADDITIONAL_PROPERTIES).value.members, TYPE_KEY)
            ==> ValidateObject(env, input, schema) == Err(ValidatorException)
  {
    var claims := ClaimKeys(env, input, schema);
    if && claims.Ok? && Has(input, k)
       && Member(schema, PROPERTIES).Some? && !Declares(schema, k) && !PatternMatches(env, schema, k)
       && Member(schema, ADDITIONAL_PROPERTIES).Some?
    {
      var additional := Member(schema, ADDITIONAL_PROPERTIES).value;
      var c := claims.value;
      if additional.JsonObject? && |additional.members| > 0 {
        assert k in c.inputProperties && k !in c.schemaProperties && k !in c.patternProperties;
        AdditionalSchemaRewrites(env, c.members, additional, c.inputProperties, c.patternProperties, c.schemaProperties);
      }
    }
  }

  // ----- a schema under which no step fails ------------------------------------------

  /** A governed entry whose child type is not object and whose text the selected value validator can be handed. */
  predicate FlatEntry(properties: Json, entry: (string, Json))
    requires properties.JsonObject? && Governs(properties, entry.0)
  {
    var kind := Classify(TypeText(Member(properties, entry.0).value.members));
    kind != Some(ObjectKind) && (kind.Some? && IsValueKind(kind.value) ==> EntryText(kind.value, entry.1).Ok?)
  }

  /** Every entry `properties` governs is flat. */
  predicate FlatEntries(properties: Json, input: Members)
    requires properties.JsonObject?
  {
    forall j :: 0 <= j < |input| && Governs(properties, input[j].0) ==> FlatEntry(properties, input[j])
  }

  /** A `patternProperties` object whose every schema declares a readable type other than object. */
  predicate FlatPatterns(patterns: Json) {
    patterns.JsonObject?
    && forall m :: 0 <= m < |patterns.members| ==>
         TypedPattern(patterns.members[m].1) && Classify(PatternType(patterns.members[m].1)) != Some(ObjectKind)
  }

  /** An `additionalProperties` value that rejects nothing: a primitive converting to true,
      a value that is neither primitive nor object, or an object schema that is empty
      or declares a type other than object. */
  predicate FlatAdditional(additional: Json) {
    if additional.IsPrimitive() then DataTypeConverter.ConvertToBoolean(AsString(additional).value) == Ok(true)
    else if additional.JsonObject? then
      |additional.members| == 0 || (Has(additional.members, TYPE_KEY) && Classify(TypeText(additional.members)) != Some(ObjectKind))
    else true
  }

  /** With validators that accept everything, a flat governed entry updates. */
  lemma EntryAccepted(env: Env, properties: Json, entry: (string, Json))
    requires AcceptsAll(env) && properties.JsonObject? && Governs(properties, entry.0)
    ensures FlatEntry(properties, entry) ==> EntryUpdate(env, properties, entry).Ok?
  {
    var child := Member(properties, entry.0).value;
    var kind := Classify(TypeText(child.members));
    if FlatEntry(properties, entry) && kind.Some? && kind.value == NullKind {
      assert env.validateNull(child, Serialize(entry.1)) == Pass;
    }
  }

  /** With validators that accept everything, `properties` updates every flat entry. */
  lemma PropertiesAccepted(env: Env, properties: Json, input: Members)
    requires AcceptsAll(env) && properties.JsonObject?
    ensures FlatEntries(properties, input) ==> ProcessSchemaProperties(env, properties, input).Ok?
  {
    if FlatEntries(properties, input) {
      forall j | 0 <= j < |input| && Governs(properties, input[j].0)
        ensures EntryUpdate(env, properties, input[j]).Ok?
      {
        EntryAccepted(env, properties, input[j]);
      }
      assert EntriesUpdate(env, properties, input, 0);
    }
  }

  /** With validators that accept everything, a non-object type name replaces any value. */
  lemma ReplacementAccepted(env: Env, schema: Json, typeName: string, value: Json)
    requires AcceptsAll(env) && schema.JsonObject?
    ensures Classify(typeName) != Some(ObjectKind) ==> ReplacementFor(env, schema, typeName, value).Ok?
  {
    if Classify(typeName) == Some(NullKind) {
      assert env.validateNull(schema, Serialize(value)) == Pass;
    }
  }

  /** With validators that accept everything, parseAndReplaceValues succeeds on
      present keys under a non-object type name. */
  lemma {:induction false} ReplaceAllAccepted(env: Env, input: Members, schema: Json, typeName: string, keys: seq<string>, i: nat)
    requires AcceptsAll(env) && schema.JsonObject? && i <= |keys|
    requires KeysFrom(keys, i) <= KeySet(input)
    decreases |keys| - i
    ensures Classify(typeName) != Some(ObjectKind) ==> ReplaceAll(env, input, schema, typeName, keys, i).Ok?
  {
    if i < |keys| && Classify(typeName) != Some(ObjectKind) {
      assert keys[i] in keys[i..];
      assert Has(input, keys[i]);
      ReplacementAccepted(env, schema, typeName, Get(input, keys[i]).value);
      var next := ParseAndReplace(env, input, schema, typeName, keys[i]).value;
      ReplaceStep(keys, i, input, next);
      ReplaceAllAccepted(env, next, schema, typeName, keys, i + 1);
    }
  }

  /** With validators that accept everything, flat patterns from j on rewrite without error. */
  lemma {:induction false} PatternsAccepted(env: Env, input: Members, patterns: Json, j: nat, recorded: seq<string>)
    requires AcceptsAll(env) && FlatPatterns(patterns) && j <= |patterns.members|
    decreases |patterns.members| - j
    ensures ApplyPatterns(env, input, patterns, j, recorded).Ok?
  {
    if j < |patterns.members| {
      var regex := patterns.members[j].0;
      var schema := patterns.members[j].1;
      var keys := MatchingKeys(env, Keys(input), regex);
      assert keys[0..] == keys;
      ReplaceAllAccepted(env, input, schema, PatternType(schema), keys, 0);
      assert ReplaceMatching(env, input, regex, schema, PatternType(schema)).Ok?;
      var step := ApplyPattern(env, input, regex, schema).value;
      PatternsAccepted(env, step.0, patterns, j + 1, Record(recorded, step.1));
    }
  }

  /** With validators that accept everything, a flat `additionalProperties` passes
      when every listed input property is a key. */
  lemma AdditionalAccepted(env: Env, input: Members, additional: Json, inputProperties: seq<string>,
                           patternProperties: seq<string>, schemaProperties: seq<string>)
    requires AcceptsAll(env)
    requires forall k :: k in inputProperties ==> Has(input, k)
    ensures FlatAdditional(additional) ==>
              ProcessAdditionalProperties(env, input, additional, inputProperties, patternProperties, schemaProperties).Ok?
  {
    if FlatAdditional(additional) && additional.JsonObject? && |additional.members| > 0 {
      var leftover := Leftover(inputProperties, schemaProperties, patternProperties);
      assert leftover[0..] == leftover;
      ReplaceAllAccepted(env, input, additional, TypeText(additional.members), leftover, 0);
      assert ValidateLeftover(env, input, additional, leftover).Ok?;
    }
  }

  /** With validators that accept everything, the steps before `additionalProperties` pass on a flat schema. */
  lemma ClaimsAccepted(env: Env, input: Members, schema: Json)
    requires AcceptsAll(env) && schema.JsonObject?
    ensures && CheckRequired(input, schema).Ok?
            && ReadBound(schema, MIN_PROPERTIES).Ok? && ReadBound(schema, MAX_PROPERTIES).Ok?
            && CheckPropertyCount(ReadBound(schema, MAX_PROPERTIES).value, ReadBound(schema, MIN_PROPERTIES).value, |input|).Ok?
            && PropertiesOf(schema).Ok?
            && (PropertiesOf(schema).value.Some? ==> FlatEntries(PropertiesOf(schema).value.value, input))
            && (Member(schema, PATTERN_PROPERTIES).Some? ==> FlatPatterns(Member(schema, PATTERN_PROPERTIES).value))
            ==> ClaimKeys(env, input, schema).Ok?
  {
    var properties := PropertiesOf(schema);
    if properties.Ok? && properties.value.Some? {
      PropertiesAccepted(env, properties.value.value, input);
    }
    if properties.Ok? && Member(schema, PATTERN_PROPERTIES).Some? && FlatPatterns(Member(schema, PATTERN_PROPERTIES).value) {
      var afterProperties := if properties.value.Some? then ProcessSchemaProperties(env, properties.value.value, input) else Ok((input, []));
      if afterProperties.Ok? {
        PatternsAccepted(env, afterProperties.value.0, Member(schema, PATTERN_PROPERTIES).value, 0, []);
      }
    }
  }

  /**
   * validateObject accepts an object when the validators it calls accept
   * everything, the reads and the count pass, no step recurses into an object
   * schema, and `additionalProperties` rejects nothing.
   */
  lemma FlatSchemaAccepted(env: Env, input: Members, schema: Json)
    requires AcceptsAll(env) && schema.JsonObject?
    ensures && CheckRequired(input, schema).Ok?
            && ReadBound(schema, MIN_PROPERTIES).Ok? && ReadBound(schema, MAX_PROPERTIES).Ok?
            && CheckPropertyCount(ReadBound(schema, MAX_PROPERTIES).value, ReadBound(schema, MIN_PROPERTIES).value, |input|).Ok?
            && PropertiesOf(schema).Ok?
            && (PropertiesOf(schema).value.Some? ==> FlatEntries(PropertiesOf(schema).value.value, input))
            && (Member(schema, PATTERN_PROPERTIES).Some? ==> FlatPatterns(Member(schema, PATTERN_PROPERTIES).value))
            && (Member(schema, ADDITIONAL_PROPERTIES).Some? ==> FlatAdditional(Member(schema, ADDITIONAL_PROPERTIES).value))
            ==> ValidateObject(env, input, schema).Ok?
  {
    ClaimsAccepted(env, input, schema);
    var claims := ClaimKeys(env, input, schema);
    if claims.Ok? && Member(schema, ADDITIONAL_PROPERTIES).Some? {
      var c := claims.value;
      SameKeys(c.members, input);
      AdditionalAccepted(env, c.members, Member(schema, ADDITIONAL_PROPERTIES).value,
        c.inputProperties, c.patternProperties, c.schemaProperties);
    }
  }
}
