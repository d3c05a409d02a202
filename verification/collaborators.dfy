/**
 * The code the object validator and the dispatcher call but whose source is
 * not part of this model: the scalar and array validators, regular-expression
 * search and Gson's text parser. Each is a function the caller supplies, so
 * every property proved about the validator holds whatever they do.
 */
module Collaborators {
  import opened Wrappers
  import opened Exceptions
  import opened Gson
  import opened ValidatorConstants

  datatype Env = Env(
    /** BooleanValidator.validateBoolean(schema, text) */
    validateBoolean: (Json, string) -> Result<Json, ErrorKind>,
    /** StringValidator.validateNominal(schema, text) */
    validateNominal: (Json, string) -> Result<Json, ErrorKind>,
    /** NumericValidator.validateNumeric(schema, text) */
    validateNumeric: (Json, string) -> Result<Json, ErrorKind>,
    /** ArrayValidator.validateArray(GSONDataTypeConverter.getMapFromString(text), schema) */
    validateArray: (string, Json) -> Result<Json, ErrorKind>,
    /** NullValidator.validateNull(schema, text), whose return value is ignored */
    validateNull: (Json, string) -> Outcome<ErrorKind>,
    /** Pattern.compile(regex).matcher(text).find(): a match anywhere in text */
    find: (string, string) -> bool,
    /** JsonParser.parse(text), or None when it throws JsonSyntaxException */
    parse: string -> Option<Json>)

  /** The kinds whose validator turns a text into a value: boolean, string, numeric and array. */
  predicate IsValueKind(kind: Kind) {
    kind != ObjectKind && kind != NullKind
  }

  /** The answer of the validator a value kind selects, for a schema and a text. */
  function Answer(env: Env, kind: Kind, schema: Json, text: string): Result<Json, ErrorKind>
    requires IsValueKind(kind)
  {
    match kind
    case BooleanKind => env.validateBoolean(schema, text)
    case NominalKind => env.validateNominal(schema, text)
    case NumericKind => env.validateNumeric(schema, text)
    case ArrayKind => env.validateArray(text, schema)
  }

  /** Every validator accepts every schema and text it is given. */
  ghost predicate AcceptsAll(env: Env) {
    && (forall kind, schema, text :: IsValueKind(kind) ==> Answer(env, kind, schema, text).Ok?)
    && (forall schema, text :: env.validateNull(schema, text) == Pass)
  }
}
