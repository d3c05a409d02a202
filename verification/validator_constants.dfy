/**
 * The constants every dispatch decision rests on: the quote-stripping pattern
 * `^"|"$` and the six sets of `type` names, one per validator.
 */
module ValidatorConstants {
  import opened Wrappers
  import opened Gson

  const TYPE_KEY := "type"

  const NUMERIC_KEYS: set<string> := {"number", "integer"}
  const BOOLEAN_KEYS: set<string> := {"boolean"}
  const NOMINAL_KEYS: set<string> := {"String", "string"}
  const OBJECT_KEYS: set<string> := {"object"}
  const ARRAY_KEYS: set<string> := {"array"}
  const NULL_KEYS: set<string> := {"null"}

  /** The validator a recognised `type` name selects. */
  datatype Kind = NumericKind | BooleanKind | NominalKind | ObjectKind | ArrayKind | NullKind

  /** The names that select each kind of validator. */
  function KeysOf(kind: Kind): set<string> {
    match kind
    case NumericKind => NUMERIC_KEYS
    case BooleanKind => BOOLEAN_KEYS
    case NominalKind => NOMINAL_KEYS
    case ObjectKind => OBJECT_KEYS
    case ArrayKind => ARRAY_KEYS
    case NullKind => NULL_KEYS
  }

  predicate LeadingQuote(s: string) {
    |s| > 0 && s[0] == '"'
  }

  predicate TrailingQuote(s: string) {
    |s| > 0 && s[|s| - 1] == '"'
  }

  /**
   * String.replaceAll("^\"|\"$", ""): deletes one leading double quote and one
   * trailing double quote, each only if present. Java's `$` would also match
   * just before a final line terminator; texts are taken to have none.
   */
  function Strip(s: string): (r: string)
    ensures |s| - 2 <= |r| <= |s|
    ensures LeadingQuote(s) ==> |r| < |s| && r == s[1..1 + |r|]
    ensures !LeadingQuote(s) ==> r == s[..|r|]
    ensures LeadingQuote(s) && |s| >= 2 && TrailingQuote(s) ==> |r| == |s| - 2
    ensures LeadingQuote(s) && !(|s| >= 2 && TrailingQuote(s)) ==> |r| == |s| - 1
    ensures !LeadingQuote(s) && TrailingQuote(s) ==> |r| == |s| - 1
    ensures !LeadingQuote(s) && !TrailingQuote(s) ==> r == s
  {
    var afterLead := if |s| > 0 && s[0] == '"' then s[1..] else s;
    if |afterLead| > 0 && afterLead[|afterLead| - 1] == '"' then afterLead[..|afterLead| - 1] else afterLead
  }

  /** Stripping undoes the quoting JsonWriter applies to a string. */
  lemma StripQuoted(t: string)
    ensures Strip("\"" + t + "\"") == t
  {
    var s := "\"" + t + "\"";
    assert s[1..] == t + "\"";
    assert (t + "\"")[..|t|] == t;
  }

  /**
   * Dispatch on a `type` name, testing the key sets in the order
   * JavaJsonParser.parseJson tests them. Because the sets are disjoint the
   * order does not matter: the answer is the one kind whose set holds the name.
   */
  function Classify(t: string): (r: Option<Kind>)
    ensures forall kind :: r == Some(kind) <==> t in KeysOf(kind)
    ensures r.None? <==> forall kind :: t !in KeysOf(kind)
  {
    if t in BOOLEAN_KEYS then Some(BooleanKind)
    else if t in NOMINAL_KEYS then Some(NominalKind)
    else if t in NUMERIC_KEYS then Some(NumericKind)
    else if t in ARRAY_KEYS then Some(ArrayKind)
    else if t in NULL_KEYS then Some(NullKind)
    else if t in OBJECT_KEYS then Some(ObjectKind)
    else None
  }

  /** No name selects two validators. */
  lemma KeySetsDisjoint(k1: Kind, k2: Kind)
    requires k1 != k2
    ensures KeysOf(k1) !! KeysOf(k2)
  {
  }

  /** Only the string kind has a capitalised spelling. */
  lemma ClassifyIsCaseSensitive()
    ensures Classify("String") == Some(NominalKind)
    ensures Classify("Boolean") == None
    ensures Classify("Integer") == None
    ensures Classify("Number") == None
    ensures Classify("Object") == None
    ensures Classify("Null") == None
  {
  }

  /** toString() of the schema's `type` member, quote-stripped, as
      JavaJsonParser and the properties and additionalProperties steps read it. */
  function TypeText(schema: Members): (r: string)
    requires Has(schema, TYPE_KEY)
    ensures Get(schema, TYPE_KEY).value.JsonString? ==>
              r == Escape(Get(schema, TYPE_KEY).value.s) && Classify(r) == Classify(Get(schema, TYPE_KEY).value.s)
    ensures Get(schema, TYPE_KEY).value.JsonNull? ==> Classify(r) == Some(NullKind)
    ensures Get(schema, TYPE_KEY).value.JsonArray? || Get(schema, TYPE_KEY).value.JsonObject? ==> Classify(r) == None
  {
    var t := Get(schema, TYPE_KEY).value;
    if t.JsonString? then
      TypeTextOfString(t.s);
      Strip(Serialize(t))
    else
      Strip(Serialize(t))
  }

  /** getAsString() of the schema's `type` member, quote-stripped, as the
      patternProperties step reads it. */
  function TypeTextAsString(schema: Members): (r: Result<string, Exceptions.ErrorKind>)
    requires Has(schema, TYPE_KEY)
    ensures Get(schema, TYPE_KEY).value.JsonString? ==> r == Ok(Strip(Get(schema, TYPE_KEY).value.s))
    ensures Get(schema, TYPE_KEY).value.IsPrimitive() ==> r.Ok?
    ensures Get(schema, TYPE_KEY).value.JsonNull? || Get(schema, TYPE_KEY).value.JsonObject? ==> r == Err(Exceptions.RuntimeException)
    ensures r.Ok? <==> AsString(Get(schema, TYPE_KEY).value).Ok?
  {
    var text :- AsString(Get(schema, TYPE_KEY).value);
    Ok(Strip(text))
  }

  lemma {:induction false} EscapeUnchanged(s: string)
    requires forall i :: 0 <= i < |s| ==> !NeedsEscape(s[i])
    ensures Escape(s) == s
  {
    if |s| > 0 {
      EscapeUnchanged(s[1..]);
      assert !NeedsEscape(s[0]);
      assert EscapeChar(s[0]) == [s[0]];
      assert s == [s[0]] + s[1..];
    }
  }

  lemma {:induction false} EscapeMarked(s: string, i: int)
    requires 0 <= i < |s| && NeedsEscape(s[i])
    ensures '\\' in Escape(s)
  {
    if i > 0 {
      EscapeMarked(s[1..], i - 1);
      assert Escape(s) == EscapeChar(s[0]) + Escape(s[1..]);
    } else {
      assert Escape(s) == EscapeChar(s[0]) + Escape(s[1..]);
      assert Escape(s)[0] == '\\';
    }
  }

  /**
   * A `type` given as the JSON string s is classified as s itself, whether it
   * is read through toString() or through getAsString(): a name containing a
   * character JsonWriter escapes is never a type name either way, and no type
   * name starts or ends with a double quote.
   */
  lemma NoTypeNameHasBackslash(t: string)
    requires '\\' in t
    ensures Classify(t) == None
  {
    forall kind ensures t !in KeysOf(kind) {
      forall name | name in KeysOf(kind) ensures '\\' !in name {
      }
    }
  }

  lemma NoTypeNameNeedsEscape(t: string, i: int)
    requires 0 <= i < |t| && NeedsEscape(t[i])
    ensures Classify(t) == None
  {
    forall kind ensures t !in KeysOf(kind) {
      forall name | name in KeysOf(kind) ensures forall j :: 0 <= j < |name| ==> !NeedsEscape(name[j]) {
      }
    }
  }

  /** A string `type` read with toString (quoted and escaped) and stripped
      classifies as the raw string. */
  lemma {:induction false} TypeTextOfString(s: string)
    ensures Strip(Serialize(JsonString(s))) == Escape(s)
    ensures Classify(Strip(Serialize(JsonString(s)))) == Classify(s)
  {
    StripQuoted(Escape(s));
    assert Strip(Serialize(JsonString(s))) == Escape(s);
    if forall i :: 0 <= i < |s| ==> !NeedsEscape(s[i]) {
      EscapeUnchanged(s);
    } else {
      var i :| 0 <= i < |s| && NeedsEscape(s[i]);
      EscapeMarked(s, i);
      NoTypeNameHasBackslash(Escape(s));
      NoTypeNameNeedsEscape(s, i);
    }
  }

  /** A `type` string with no quote at either end is classified the same
      whether read through toString or through getAsString. */
  lemma TypeReadingsAgree(schema: Members)
    requires Has(schema, TYPE_KEY)
    ensures var t := Get(schema, TYPE_KEY).value;
            t.JsonString? && !LeadingQuote(t.s) && !TrailingQuote(t.s) ==>
              TypeTextAsString(schema).Ok? && Classify(TypeText(schema)) == Classify(TypeTextAsString(schema).value)
  {
  }

  /** The two readings part for a string that carries its own quotes:
      getAsString strips them, toString escapes them. */
  lemma QuotedTypeReadingsDiverge(schema: Members)
    requires Get(schema, TYPE_KEY) == Some(JsonString("\"number\""))
    ensures Classify(TypeText(schema)) == None
    ensures TypeTextAsString(schema) == Ok("number")
  {
    var s := Get(schema, TYPE_KEY).value.s;
    assert Classify(TypeText(schema)) == Classify(s);
    QuotedNumber();
  }

  /** "\"number\"" is no type name, and stripping leaves the name number. */
  lemma QuotedNumber()
    ensures Classify("\"number\"") == None
    ensures Strip("\"number\"") == "number"
  {
    assert "\"number\"" == "\"" + "number" + "\"";
    StripQuoted("number");
  }

  /** The two readings part for JSON null: toString writes the null type
      name, getAsString refuses. */
  lemma NullTypeReadingsDiverge(schema: Members)
    requires Get(schema, TYPE_KEY) == Some(JsonNull)
    ensures Classify(TypeText(schema)) == Some(NullKind)
    ensures TypeTextAsString(schema).Err?
  {
  }
}
