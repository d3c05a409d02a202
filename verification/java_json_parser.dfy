/**
 * JavaJsonParser, the public entry point: checks its arguments, handles the
 * schemas that need no validation (`{}`, `true`, `false`), and dispatches on
 * the schema's `type` to exactly one validator. A Java null argument or
 * result is `None`.
 */
module JavaJsonParser {
  import opened Wrappers
  import opened Exceptions
  import opened Gson
  import opened ValidatorConstants
  import opened Collaborators
  import ObjectValidator

  /** A Java string argument that is neither null nor empty. */
  predicate Given(s: Option<string>) {
    s.Some? && s.value != ""
  }

  /**
   * Both halves of a dispatch see the same call to the validator the type
   * selects; an unrecognised type calls none.
   */
  predicate AgreeOnSelected(env1: Env, env2: Env, schema: Json, input: string)
    requires schema.JsonObject? && Has(schema.members, TYPE_KEY)
  {
    match Classify(TypeText(schema.members))
    case None => true
    case Some(BooleanKind) => env1.validateBoolean(schema, input) == env2.validateBoolean(schema, input)
    case Some(NominalKind) => env1.validateNominal(schema, input) == env2.validateNominal(schema, input)
    case Some(NumericKind) => env1.validateNumeric(schema, input) == env2.validateNumeric(schema, input)
    case Some(ArrayKind) => env1.validateArray(input, schema) == env2.validateArray(input, schema)
    case Some(NullKind) => env1.validateNull(schema, input) == env2.validateNull(schema, input)
    case Some(ObjectKind) =>
      env1.parse(input) == env2.parse(input)
      && (env1.parse(input).Some? && env1.parse(input).value.JsonObject? ==>
            ObjectValidator.ValidateObject(env1, env1.parse(input).value.members, schema)
            == ObjectValidator.ValidateObject(env2, env1.parse(input).value.members, schema))
  }

  /**
   * parseJson(String, Object): the input must be non-empty and the schema a
   * JSON object with a `type`. The type text selects one validator, whose
   * result is returned as compact JSON text; a type no key set recognises
   * returns null without raising.
   */
  function ParseJsonWithSchema(env: Env, input: Option<string>, schema: Option<Json>): (r: Result<Option<string>, ErrorKind>)
    ensures !Given(input) || schema.None? || !schema.value.JsonObject? ==> r == Err(ParserException)
    ensures Given(input) && schema.Some? && schema.value.JsonObject? && !Has(schema.value.members, TYPE_KEY) ==>
              r == Err(ValidatorException)
    ensures Given(input) && schema.Some? && schema.value.JsonObject? && Has(schema.value.members, TYPE_KEY) ==>
              var kind := Classify(TypeText(schema.value.members));
              && (kind.None? ==> r == Ok(None))
              && (kind.Some? && r.Ok? ==> r.value.Some?)
              && (kind.Some? && IsValueKind(kind.value) ==>
                    var answer := Answer(env, kind.value, schema.value, input.value);
                    (answer.Ok? ==> r == Ok(Some(Serialize(answer.value))))
                    && (answer.Err? ==> r == Err(answer.error)))
              && (kind == Some(NullKind) ==>
                    (r.Ok? <==> env.validateNull(schema.value, input.value).Pass?)
                    && (r.Ok? ==> r == Ok(Some("null")))
                    && (r.Err? ==> r.error == env.validateNull(schema.value, input.value).error))
              && (kind == Some(ObjectKind) && env.parse(input.value).Some? && !env.parse(input.value).value.JsonObject? ==>
                    r == Err(ValidatorException))
              && (kind == Some(ObjectKind) && env.parse(input.value).None? ==> r == Err(RuntimeException))
              && (kind == Some(ObjectKind) && env.parse(input.value).Some? && env.parse(input.value).value.JsonObject? ==>
                    var validated := ObjectValidator.ValidateObject(env, env.parse(input.value).value.members, schema.value);
                    (validated.Ok? ==> r == Ok(Some(Serialize(JsonObject(validated.value)))))
                    && (validated.Err? ==> r == Err(validated.error)))
    ensures r.Ok? && r.value.Some? && Classify(TypeText(schema.value.members)) == Some(ObjectKind) ==>
              exists ms :: r.value.value == Serialize(JsonObject(ms))
                && KeySet(ms) == KeySet(env.parse(input.value).value.members)
  {
    if !Given(input) || schema.None? || !schema.value.JsonObject? then Err(ParserException)
    else
      var text := input.value;
      var s := schema.value;
      if !Has(s.members, TYPE_KEY) then Err(ValidatorException)
      else
        match Classify(TypeText(s.members))
        case Some(BooleanKind) =>
          var v :- env.validateBoolean(s, text);
          Ok(Some(Serialize(v)))
        case Some(NominalKind) =>
          var v :- env.validateNominal(s, text);
          Ok(Some(Serialize(v)))
        case Some(NumericKind) =>
          var v :- env.validateNumeric(s, text);
          Ok(Some(Serialize(v)))
        case Some(ArrayKind) =>
          var v :- env.validateArray(text, s);
          Ok(Some(Serialize(v)))
        case Some(NullKind) =>
          (match env.validateNull(s, text)
           case Fail(e) => Err(e)
           case Pass => Ok(Some(Serialize(JsonNull))))
        case Some(ObjectKind) =>
          (match env.parse(text)
           case None => Err(RuntimeException)
           case Some(parsed) =>
             if parsed.JsonObject? then
               var ms :- ObjectValidator.ValidateObject(env, parsed.members, s);
               Ok(Some(Serialize(JsonObject(ms))))
             else Err(ValidatorException))
        case None => Ok(None)
  }

  /**
   * The dispatcher calls exactly one validator: two environments that answer
   * that one call alike give the same result, whatever the other validators do.
   */
  lemma DispatchUsesOneValidator(env1: Env, env2: Env, input: string, schema: Json)
    requires input != "" && schema.JsonObject? && Has(schema.members, TYPE_KEY)
    requires AgreeOnSelected(env1, env2, schema, input)
    ensures ParseJsonWithSchema(env1, Some(input), Some(schema)) == ParseJsonWithSchema(env2, Some(input), Some(schema))
  {
    if Classify(TypeText(schema.members)) == Some(ObjectKind) && env1.parse(input).Some? {
      var parsed := env1.parse(input).value;
      if parsed.JsonObject? {
        assert ObjectValidator.ValidateObject(env1, parsed.members, schema) == ObjectValidator.ValidateObject(env2, parsed.members, schema);
      }
    }
  }

  lemma JoinStartsWithFirst(parts: seq<string>)
    requires |parts| > 0
    ensures parts[0] <= Join(parts)
  {
  }

  /** An object serializes to `{}`, once whitespace is removed, exactly when it has no member. */
  lemma EmptyObjectText(ms: Members)
    ensures RemoveWhitespace(Serialize(JsonObject(ms))) == "{}" <==> |ms| == 0
  {
    var text := Serialize(JsonObject(ms));
    if |ms| == 0 {
      assert text == "{}";
      assert RemoveWhitespace("}") == "}";
    } else {
      var parts := seq(|ms|, i requires 0 <= i < |ms| => Quote(ms[i].0) + ":" + Serialize(ms[i].1));
      JoinStartsWithFirst(parts);
      assert parts[0][0] == '"';
      assert text == "{" + Join(parts) + "}";
      assert text[1] == '"';
      assert '"' in RemoveWhitespace(text);
    }
  }

  /**
   * parseJson(String, String): both strings must be non-empty. An unparsable
   * schema, `false`, an array or null is rejected; `{}` and `true` accept the
   * input unchanged; any other object schema goes to the dispatcher.
   */
  function ParseJson(env: Env, input: Option<string>, schemaText: Option<string>): (r: Result<Option<string>, ErrorKind>)
    ensures !Given(input) || !Given(schemaText) ==> r == Err(ParserException)
    ensures Given(input) && Given(schemaText) ==>
              var schema := env.parse(schemaText.value);
              && (schema.None? ==> r == Err(ValidatorException))
              && (schema == Some(JsonObject([])) ==> r == Ok(input))
              && (schema.Some? && schema.value.JsonObject? && |schema.value.members| > 0 ==>
                    r == ParseJsonWithSchema(env, input, schema))
              && (schema == Some(JsonBoolean(true)) ==> r == Ok(input))
              && (schema == Some(JsonBoolean(false)) ==> r == Err(ValidatorException))
              && (schema.Some? && (schema.value.JsonArray? || schema.value.JsonNull?) ==> r == Err(ValidatorException))
    ensures r.Ok? && r != Ok(input) ==>
              (Given(schemaText) && env.parse(schemaText.value).Some?
               && env.parse(schemaText.value).value.JsonObject? && |env.parse(schemaText.value).value.members| > 0)
  {
    if !Given(input) || !Given(schemaText) then Err(ParserException)
    else
      match env.parse(schemaText.value)
      case None => Err(ValidatorException)
      case Some(schema) =>
        if schema.JsonObject? then
          EmptyObjectText(schema.members);
          if RemoveWhitespace(Serialize(schema)) == "{}" then Ok(input)
          else ParseJsonWithSchema(env, input, Some(schema))
        else if schema.IsPrimitive() then
          if AsBoolean(schema) then Ok(input) else Err(ValidatorException)
        else Err(ValidatorException)
  }

  /** A primitive schema is read with getAsBoolean: it accepts the input unchanged
      when it reads as true and rejects everything otherwise. */
  lemma PrimitiveSchemaIsBoolean(env: Env, input: string, schemaText: string)
    requires input != "" && schemaText != ""
    requires env.parse(schemaText).Some? && env.parse(schemaText).value.IsPrimitive()
    ensures ParseJson(env, Some(input), Some(schemaText)).Ok? <==>
              AsBoolean(env.parse(schemaText).value)
    ensures ParseJson(env, Some(input), Some(schemaText)).Ok? ==> ParseJson(env, Some(input), Some(schemaText)) == Ok(Some(input))
  {
  }
}
