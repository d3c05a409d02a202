/**
 * The parsed JSON tree the validators walk, as Gson represents it, together
 * with the Gson accessors the validators call: member lookup, remove/add,
 * getAsString, getAsBoolean and toString. Text parsing is not here: the model
 * receives trees that are already parsed.
 */
module Gson {
  import opened Wrappers
  import opened Exceptions

  /** A Gson JsonElement. A number keeps its lexeme: Gson's lazily parsed
      numbers print exactly that text from both toString and getAsString. */
  datatype Json =
    | JsonNull
    | JsonBoolean(b: bool)
    | JsonNumber(lexeme: string)
    | JsonString(s: string)
    | JsonArray(elements: seq<Json>)
    | JsonObject(members: seq<(string, Json)>)
  {
    /** JsonElement.isJsonPrimitive: booleans, numbers and strings, not null. */
    predicate IsPrimitive() {
      JsonBoolean? || JsonNumber? || JsonString?
    }
  }

  /** The members of a JsonObject, in Gson's iteration (insertion) order. */
  type Members = seq<(string, Json)>

  function Keys(ms: Members): (ks: seq<string>)
    ensures |ks| == |ms|
    ensures forall i :: 0 <= i < |ms| ==> ks[i] == ms[i].0
  {
    seq(|ms|, i requires 0 <= i < |ms| => ms[i].0)
  }

  function KeySet(ms: Members): (ks: set<string>)
    ensures forall k :: k in ks <==> k in Keys(ms)
  {
    set k | k in Keys(ms)
  }

  /** Gson objects never hold two members with the same name. */
  predicate UniqueKeys(ms: Members) {
    forall i, j :: 0 <= i < j < |ms| ==> ms[i].0 != ms[j].0
  }

  /** JsonObject.has */
  predicate Has(ms: Members, k: string) {
    k in Keys(ms)
  }

  lemma HasCons(ms: Members, k: string)
    requires |ms| > 0
    ensures Has(ms, k) <==> ms[0].0 == k || Has(ms[1..], k)
  {
    if Has(ms, k) && ms[0].0 != k {
      var i :| 0 <= i < |ms| && Keys(ms)[i] == k;
      assert Keys(ms[1..])[i - 1] == k;
    }
    if Has(ms[1..], k) {
      var i :| 0 <= i < |ms| - 1 && Keys(ms[1..])[i] == k;
      assert Keys(ms)[i + 1] == k;
    }
  }

  /** JsonObject.get: the value of the member named k, if there is one. */
  function Get(ms: Members, k: string): (r: Option<Json>)
    ensures r.None? <==> !Has(ms, k)
    ensures r.Some? ==> exists i :: 0 <= i < |ms| && ms[i] == (k, r.value)
  {
    if |ms| == 0 then None
    else
      HasCons(ms, k);
      if ms[0].0 == k then Some(ms[0].1)
      else
        var r := Get(ms[1..], k);
        assert r.Some? ==> exists i :: 0 <= i < |ms| && ms[i] == (k, r.value) by {
          if r.Some? {
            var i :| 0 <= i < |ms| - 1 && ms[1..][i] == (k, r.value);
            assert ms[i + 1] == (k, r.value);
          }
        }
        r
  }

  /** Member lookup on an object value; a member is structurally smaller than
      the object holding it, which is what makes the validator's recursion on
      sub-schemas terminate. */
  function Member(obj: Json, k: string): (r: Option<Json>)
    requires obj.JsonObject?
    ensures r == Get(obj.members, k)
    ensures r.Some? ==> r.value < obj
  {
    var r := Get(obj.members, k);
    assert r.Some? ==> r.value < obj by {
      if r.Some? {
        var i :| 0 <= i < |obj.members| && obj.members[i] == (k, r.value);
        assert obj.members[i].1 < obj.members[i];
      }
    }
    r
  }

  lemma GetAppend(a: Members, b: Members, k: string)
    ensures Get(a + b, k) == if Has(a, k) then Get(a, k) else Get(b, k)
    decreases |a|
  {
    if |a| > 0 {
      HasCons(a, k);
      assert (a + b)[1..] == a[1..] + b;
      GetAppend(a[1..], b, k);
    } else {
      assert a + b == b;
    }
  }

  /** Two member lists with the same keys in the same order find a key at the same position. */
  lemma {:induction false} GetAtSamePosition(a: Members, b: Members, k: string) returns (j: nat)
    requires Keys(a) == Keys(b) && Has(a, k)
    ensures j < |a| && j < |b| && a[j].0 == k && Get(a, k) == Some(a[j].1) && Get(b, k) == Some(b[j].1)
  {
    HasCons(a, k);
    assert |b| == |a| && b[0].0 == a[0].0;
    if a[0].0 == k {
      j := 0;
    } else {
      assert Keys(a[1..]) == Keys(a)[1..] && Keys(b[1..]) == Keys(b)[1..];
      assert Has(a[1..], k);
      var i := GetAtSamePosition(a[1..], b[1..], k);
      assert Get(a, k) == Get(a[1..], k) && Get(b, k) == Get(b[1..], k);
      j := i + 1;
      assert a[1..][i] == a[j] && b[1..][i] == b[j];
    }
  }


  /** The keys of ks that drop does not list, in their order in ks. */
  function Outside(ks: seq<string>, drop: seq<string>): (r: seq<string>)
    ensures |r| <= |ks|
  {
    if |ks| == 0 then [] else (if ks[0] in drop then [] else [ks[0]]) + Outside(ks[1..], drop)
  }

  /** Outside keeps exactly the keys of ks that drop does not list. */
  lemma {:induction false} OutsideMembers(ks: seq<string>, drop: seq<string>)
    ensures forall k :: k in Outside(ks, drop) <==> k in ks && k !in drop
  {
    if |ks| > 0 {
      assert forall k :: k in ks <==> k == ks[0] || k in ks[1..];
      OutsideMembers(ks[1..], drop);
    }
  }

  lemma {:induction false} OutsideAppend(a: seq<string>, b: seq<string>, drop: seq<string>)
    ensures Outside(a + b, drop) == Outside(a, drop) + Outside(b, drop)
  {
    if |a| > 0 {
      assert (a + b)[1..] == a[1..] + b;
      OutsideAppend(a[1..], b, drop);
    } else {
      assert a + b == b;
    }
  }

  /** Dropping one list of keys and then another drops both at once. */
  lemma {:induction false} OutsideTwice(ks: seq<string>, d1: seq<string>, d2: seq<string>)
    ensures Outside(Outside(ks, d1), d2) == Outside(ks, d1 + d2)
  {
    if |ks| > 0 {
      OutsideTwice(ks[1..], d1, d2);
      var rest := Outside(ks[1..], d1);
      var head := if ks[0] in d1 + d2 then [] else [ks[0]];
      assert ks[0] in d1 + d2 <==> ks[0] in d1 || ks[0] in d2;
      assert Outside(ks, d1 + d2) == head + Outside(ks[1..], d1 + d2);
      if ks[0] in d1 {
        assert Outside(ks, d1) == rest;
      } else {
        var once := [ks[0]] + rest;
        assert Outside(ks, d1) == once;
        assert once[0] == ks[0] && once[1..] == rest;
        assert Outside(once, d2) == (if ks[0] in d2 then [] else [ks[0]]) + Outside(rest, d2);
      }
    }
  }

  /** Dropping keys that ks does not hold leaves ks as it is. */
  lemma {:induction false} OutsideNone(ks: seq<string>, drop: seq<string>)
    requires forall k :: k in ks ==> k !in drop
    ensures Outside(ks, drop) == ks
  {
    if |ks| > 0 {
      assert forall k :: k in ks[1..] ==> k in ks;
      OutsideNone(ks[1..], drop);
    }
  }

  /** Moving a to the end, then the keys of rest behind it, moves [a] + rest to the end. */
  lemma MoveToEnd(ks: seq<string>, a: string, rest: seq<string>)
    requires a !in rest
    ensures Outside(Outside(ks, [a]) + [a], rest) + rest == Outside(ks, [a] + rest) + ([a] + rest)
  {
    var once := Outside(ks, [a]);
    var both := Outside(ks, [a] + rest);
    OutsideAppend(once, [a], rest);
    OutsideTwice(ks, [a], rest);
    OutsideNone([a], rest);
    assert Outside(once + [a], rest) == both + [a];
    assert both + [a] + rest == both + ([a] + rest);
  }

  /** JsonObject.remove: drops the member named k. */
  function Remove(ms: Members, k: string): (r: Members)
    ensures forall k' :: Has(r, k') <==> Has(ms, k') && k' != k
    ensures forall k' :: k' != k ==> Get(r, k') == Get(ms, k')
    ensures UniqueKeys(ms) ==> UniqueKeys(r) && |r| == if Has(ms, k) then |ms| - 1 else |ms|
    ensures Keys(r) == Outside(Keys(ms), [k])
  {
    if |ms| == 0 then []
    else
      var rest := Remove(ms[1..], k);
      forall k' ensures Has(ms, k') <==> ms[0].0 == k' || Has(ms[1..], k') {
        HasCons(ms, k');
      }
      if ms[0].0 == k then
        assert UniqueKeys(ms) ==> !Has(ms[1..], k);
        RemoveOrderStep(ms, k, rest, rest);
        rest
      else
        var r := [ms[0]] + rest;
        RemoveOrderStep(ms, k, rest, r);
        forall k' ensures Has(r, k') <==> r[0].0 == k' || Has(rest, k') {
          HasCons(r, k');
          assert r[1..] == rest;
        }
        forall k' | k' != k ensures Get(r, k') == Get(ms, k') {
          GetAppend([ms[0]], rest, k');
          GetAppend([ms[0]], ms[1..], k');
          assert [ms[0]] + ms[1..] == ms;
          HasCons([ms[0]], k');
        }
        assert UniqueKeys(ms) ==> UniqueKeys(r) by {
          if UniqueKeys(ms) {
            assert UniqueKeys(ms[1..]);
            assert !Has(rest, ms[0].0);
            forall i, j | 0 <= i < j < |r| ensures r[i].0 != r[j].0 {
              if i == 0 {
                assert Keys(rest)[j - 1] == r[j].0;
              }
            }
          }
        }
        r
  }

  lemma KeysAppend(a: Members, b: Members)
    ensures Keys(a + b) == Keys(a) + Keys(b)
  {
  }

  /** Removing k from the members after the first keeps the order of Remove's result. */
  lemma RemoveOrderStep(ms: Members, k: string, rest: Members, r: Members)
    requires |ms| > 0 && Keys(rest) == Outside(Keys(ms[1..]), [k])
    requires r == if ms[0].0 == k then rest else [ms[0]] + rest
    ensures Keys(r) == Outside(Keys(ms), [k])
  {
    var ks := Keys(ms);
    assert ks[1..] == Keys(ms[1..]);
    assert Outside(ks, [k]) == (if ks[0] in [k] then [] else [ks[0]]) + Outside(ks[1..], [k]);
    if ms[0].0 != k {
      KeysAppend([ms[0]], rest);
    }
  }

  /** JsonObject.remove(k) followed by JsonObject.add(k, v). Gson keeps
      members in insertion order, so the member moves to the end and the
      others keep their order. */
  function Put(ms: Members, k: string, v: Json): (r: Members)
    ensures KeySet(r) == KeySet(ms) + {k}
    ensures Get(r, k) == Some(v)
    ensures forall k' :: k' != k ==> Get(r, k') == Get(ms, k')
    ensures r[|r| - 1] == (k, v)
    ensures UniqueKeys(ms) ==> UniqueKeys(r) && |r| == if Has(ms, k) then |ms| else |ms| + 1
    ensures Keys(r) == Outside(Keys(ms), [k]) + [k]
  {
    var rest := Remove(ms, k);
    AppendLast(rest, k, v);
    var r := rest + [(k, v)];
    assert KeySet(r) == KeySet(ms) + {k} by {
      forall k' ensures k' in KeySet(r) <==> k' in KeySet(ms) + {k} {
        assert Has(r, k') <==> Has(rest, k') || k' == k;
      }
    }
    r
  }

  /** Adding a member whose key is new puts it last and changes no other key. */
  lemma AppendLast(rest: Members, k: string, v: Json)
    requires !Has(rest, k)
    ensures Keys(rest + [(k, v)]) == Keys(rest) + [k]
    ensures forall k' :: Has(rest + [(k, v)], k') <==> Has(rest, k') || k' == k
    ensures forall k' :: Get(rest + [(k, v)], k') == if k' == k then Some(v) else Get(rest, k')
    ensures UniqueKeys(rest) ==> UniqueKeys(rest + [(k, v)])
  {
    var r := rest + [(k, v)];
    KeysAppend(rest, [(k, v)]);
    forall k' ensures Get(r, k') == if k' == k then Some(v) else Get(rest, k') {
      GetAppend(rest, [(k, v)], k');
    }
    if UniqueKeys(rest) {
      forall i, j | 0 <= i < j < |r| ensures r[i].0 != r[j].0 {
        if j == |r| - 1 {
          assert Keys(rest)[i] == r[i].0;
        }
      }
    }
  }

  /** JsonElement.getAsString. Null and objects throw; an array answers for
      its single element and throws when it has any other length. */
  function AsString(j: Json): (r: Result<string, ErrorKind>)
    ensures j.IsPrimitive() ==> r.Ok?
    ensures j.JsonNull? || j.JsonObject? ==> r == Err(RuntimeException)
    ensures r.Err? ==> r.error == RuntimeException
    ensures j.JsonArray? && |j.elements| == 1 ==> r == AsString(j.elements[0])
    ensures j.JsonArray? && |j.elements| != 1 ==> r == Err(RuntimeException)
    ensures j.JsonBoolean? || j.JsonNumber? ==> r == Ok(Serialize(j))
    ensures j.JsonString? ==> r.Ok? && Serialize(j) == Quote(r.value)
  {
    match j
    case JsonNull => Err(RuntimeException)
    case JsonBoolean(b) => Ok(if b then "true" else "false")
    case JsonNumber(lexeme) => Ok(lexeme)
    case JsonString(s) => Ok(s)
    case JsonArray(es) => if |es| == 1 then AsString(es[0]) else Err(RuntimeException)
    case JsonObject(_) => Err(RuntimeException)
  }

  /** ASCII case-insensitive comparison with "true". */
  predicate IsTrueIgnoringCase(s: string) {
    && |s| == 4
    && (s[0] == 't' || s[0] == 'T')
    && (s[1] == 'r' || s[1] == 'R')
    && (s[2] == 'u' || s[2] == 'U')
    && (s[3] == 'e' || s[3] == 'E')
  }

  /** JsonPrimitive.getAsBoolean: the boolean itself, otherwise
      Boolean.parseBoolean of the primitive's text. */
  function AsBoolean(j: Json): (r: bool)
    requires j.IsPrimitive()
    ensures j.JsonBoolean? ==> r == j.b
    ensures j.JsonString? ==> (r <==> IsTrueIgnoringCase(j.s))
    ensures j.JsonNumber? ==> (r <==> IsTrueIgnoringCase(j.lexeme))
  {
    if j.JsonBoolean? then j.b else IsTrueIgnoringCase(AsString(j).value)
  }

  const HEX_DIGITS: string := "0123456789abcdef"

  /** A character JsonWriter writes as an escape sequence. */
  predicate NeedsEscape(c: char) {
    c == '"' || c == '\\' || (c as int) < 0x20 || c == '\U{2028}' || c == '\U{2029}'
  }

  /** How JsonWriter writes one character of a string. */
  function EscapeChar(c: char): (r: string)
    ensures NeedsEscape(c) ==> |r| > 0 && r[0] == '\\'
    ensures !NeedsEscape(c) ==> r == [c]
  {
    if c == '"' then "\\\""
    else if c == '\\' then "\\\\"
    else if c == '\t' then "\\t"
    else if c == '\U{8}' then "\\b"
    else if c == '\n' then "\\n"
    else if c == '\r' then "\\r"
    else if c == '\U{C}' then "\\f"
    else if (c as int) < 0x20 then "\\u00" + [HEX_DIGITS[(c as int) / 16], HEX_DIGITS[(c as int) % 16]]
    else if c == '\U{2028}' then "\\u2028"
    else if c == '\U{2029}' then "\\u2029"
    else [c]
  }

  function Escape(s: string): string {
    if |s| == 0 then "" else EscapeChar(s[0]) + Escape(s[1..])
  }

  /** A string literal as JsonWriter writes it. */
  function Quote(s: string): string {
    "\"" + Escape(s) + "\""
  }

  /** Comma-separated concatenation, as JsonWriter separates elements. */
  function Join(parts: seq<string>): string {
    if |parts| == 0 then ""
    else if |parts| == 1 then parts[0]
    else parts[0] + "," + Join(parts[1..])
  }

  /** JsonElement.toString: compact JSON text, no whitespace between tokens.
      A string is written quoted and escaped, a container between its brackets. */
  function Serialize(j: Json): (r: string)
    ensures j.JsonString? ==> r == Quote(j.s)
    ensures j.JsonString? || j.JsonArray? || j.JsonObject? ==> |r| >= 2
    ensures j.JsonString? ==> r[0] == '"' && r[|r| - 1] == '"'
    ensures j.JsonArray? ==> r[0] == '[' && r[|r| - 1] == ']'
    ensures j.JsonObject? ==> r[0] == '{' && r[|r| - 1] == '}'
  {
    match j
    case JsonNull => "null"
    case JsonBoolean(b) => if b then "true" else "false"
    case JsonNumber(lexeme) => lexeme
    case JsonString(s) => Quote(s)
    case JsonArray(es) =>
      "[" + Join(seq(|es|, i requires 0 <= i < |es| => Serialize(es[i]))) + "]"
    case JsonObject(ms) =>
      "{" + Join(seq(|ms|, i requires 0 <= i < |ms| => Quote(ms[i].0) + ":" + Serialize(ms[i].1))) + "}"
  }

  /** The characters Java's regular-expression class \s matches. */
  predicate IsWhitespace(c: char) {
    c == ' ' || c == '\t' || c == '\n' || c == '\U{B}' || c == '\U{C}' || c == '\r'
  }

  /** String.replaceAll("\\s+", "") */
  function RemoveWhitespace(s: string): (r: string)
    ensures |r| <= |s|
    ensures forall i :: 0 <= i < |r| ==> !IsWhitespace(r[i])
    ensures forall c :: c in r ==> c in s && !IsWhitespace(c)
    ensures forall c :: c in s && !IsWhitespace(c) ==> c in r
    ensures (forall i :: 0 <= i < |s| ==> !IsWhitespace(s[i])) ==> r == s
  {
    if |s| == 0 then ""
    else if IsWhitespace(s[0]) then RemoveWhitespace(s[1..])
    else [s[0]] + RemoveWhitespace(s[1..])
  }

  /** Removing whitespace works piece by piece, and a second pass changes nothing. */
  lemma {:induction false} RemoveWhitespaceAppend(a: string, b: string)
    ensures RemoveWhitespace(a + b) == RemoveWhitespace(a) + RemoveWhitespace(b)
    ensures RemoveWhitespace(RemoveWhitespace(a)) == RemoveWhitespace(a)
  {
    if |a| > 0 {
      assert (a + b)[1..] == a[1..] + b;
      RemoveWhitespaceAppend(a[1..], b);
    } else {
      assert a + b == b;
    }
  }
}
