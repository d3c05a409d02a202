/**
 * The failure kinds a validation call can end with. Callers of the validator
 * branch on the kind, so the model keeps the kinds apart; message text is not
 * modelled.
 */
module Exceptions {

  datatype ErrorKind =
    /** exceptions.ParserException: a lexeme could not be converted to the declared type. */
    | ParserException
    /** exceptions.ValidatorException: a well-typed value breaks a schema constraint. */
    | ValidatorException
    /** Any unchecked Java exception (ClassCastException, IllegalStateException,
        UnsupportedOperationException, NullPointerException, JsonSyntaxException)
        that escapes from Gson accessors or casts. */
    | RuntimeException
}
