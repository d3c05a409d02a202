/**
 * The lexical converters the object validator uses for keyword values:
 * text to boolean and text to 32-bit int, each after quote stripping.
 */
module DataTypeConverter {
  import opened Wrappers
  import opened Exceptions
  import opened ValidatorConstants

  const MIN_INT: int := -0x8000_0000
  const MAX_INT: int := 0x7fff_ffff

  /** The range of a Java int. */
  predicate IsInt32(n: int) {
    MIN_INT <= n <= MAX_INT
  }

  /** The text Java prints for a boolean. */
  function BooleanText(b: bool): string {
    if b then "true" else "false"
  }

  /**
   * convertToBoolean: empty text is refused; otherwise the quote-stripped
   * text must be exactly "true" or "false" (case-sensitive, no trimming).
   */
  function ConvertToBoolean(value: string): (r: Result<bool, ErrorKind>)
    ensures r.Err? ==> r.error == ParserException
    ensures r.Ok? <==> Strip(value) in {"true", "false"}
    ensures r.Ok? ==> BooleanText(r.value) == Strip(value)
  {
    if value == "" then Err(ParserException)
    else
      var stripped := Strip(value);
      if stripped == "true" || stripped == "false" then Ok(stripped == "true")
      else Err(ParserException)
  }

  /** A boolean's text, bare or quoted, converts back to the boolean. */
  lemma BooleanRoundTrip(b: bool)
    ensures ConvertToBoolean(BooleanText(b)) == Ok(b)
    ensures ConvertToBoolean("\"" + BooleanText(b) + "\"") == Ok(b)
  {
    StripQuoted(BooleanText(b));
  }

  /** Any other spelling is a conversion failure. */
  lemma ConvertToBooleanRejects()
    ensures ConvertToBoolean("") == Err(ParserException)
    ensures ConvertToBoolean("Banana") == Err(ParserException)
    ensures ConvertToBoolean("True") == Err(ParserException)
    ensures ConvertToBoolean(" true") == Err(ParserException)
  {
  }

  /** r is s[i..j], and every character of s outside that slice is at most U+0020. */
  predicate BlankFramed(s: string, r: string, i: int, j: int) {
    && 0 <= i <= j <= |s| && r == s[i..j]
    && (forall k :: 0 <= k < i ==> s[k] <= ' ')
    && (forall k :: j <= k < |s| ==> s[k] <= ' ')
  }

  /** String.trim: drops leading and trailing characters up to U+0020. The
      result is the slice of s between two runs of such characters. */
  function Trim(s: string): (r: string)
    ensures |r| > 0 ==> r[0] > ' ' && r[|r| - 1] > ' '
    ensures |s| == 0 || (s[0] > ' ' && s[|s| - 1] > ' ') ==> r == s
    ensures exists i, j :: BlankFramed(s, r, i, j)
  {
    var start := TrimStart(s);
    var r := TrimEnd(start);
    TrimFrames(s, start, r);
    r
  }

  lemma TrimFrames(s: string, start: string, r: string)
    requires |start| <= |s| && |r| <= |start|
    requires start == s[|s| - |start|..] && forall k :: 0 <= k < |s| - |start| ==> s[k] <= ' '
    requires r == start[..|r|] && forall k :: |r| <= k < |start| ==> start[k] <= ' '
    ensures BlankFramed(s, r, |s| - |start|, |s| - |start| + |r|)
  {
    var i := |s| - |start|;
    forall k | i + |r| <= k < |s| ensures s[k] <= ' ' {
      assert s[k] == start[k - i];
    }
  }

  /** Drops the leading characters up to U+0020: what is left is a suffix of s. */
  function TrimStart(s: string): (r: string)
    ensures |r| <= |s|
    ensures |r| > 0 ==> r[0] > ' '
    ensures r == s[|s| - |r|..]
    ensures forall k :: 0 <= k < |s| - |r| ==> s[k] <= ' '
    ensures |s| == 0 || s[0] > ' ' ==> r == s
  {
    if |s| > 0 && s[0] <= ' ' then
      var r := TrimStart(s[1..]);
      assert s[1..][|s| - 1 - |r|..] == s[|s| - |r|..];
      r
    else s
  }

  /** Drops the trailing characters up to U+0020: what is left is a prefix of s. */
  function TrimEnd(s: string): (r: string)
    ensures |r| <= |s|
    ensures |r| > 0 ==> r[|r| - 1] > ' '
    ensures r == s[..|r|]
    ensures forall k :: |r| <= k < |s| ==> s[k] <= ' '
    ensures |s| == 0 || s[|s| - 1] > ' ' ==> r == s
  {
    if |s| > 0 && s[|s| - 1] <= ' ' then TrimEnd(s[..|s| - 1]) else s
  }

  predicate IsDigit(c: char) {
    '0' <= c <= '9'
  }

  predicate AllDigits(s: string) {
    forall i :: 0 <= i < |s| ==> IsDigit(s[i])
  }

  function DigitValue(c: char): nat
    requires IsDigit(c)
  {
    (c as int) - ('0' as int)
  }

  /** The number a string of decimal digits denotes. */
  function DigitsValue(ds: string): nat
    requires AllDigits(ds)
  {
    if |ds| == 0 then 0 else 10 * DigitsValue(ds[..|ds| - 1]) + DigitValue(ds[|ds| - 1])
  }

  /**
   * Integer.parseInt(t): an optional sign, then one or more decimal digits,
   * denoting a value a Java int can hold.
   */
  function ParseInt(t: string): (r: Option<int>)
    ensures r.Some? ==> IsInt32(r.value)
    ensures r.Some? ==> |t| > 0 && (t[0] == '-' || t[0] == '+' || IsDigit(t[0]))
    ensures r.Some? ==> forall i :: 0 < i < |t| ==> IsDigit(t[i])
    ensures r.Some? ==> IsDigit(t[|t| - 1])
    ensures r.Some? ==> (r.value < 0 ==> t[0] == '-') && (r.value > 0 ==> t[0] != '-')
  {
    if |t| == 0 then None
    else
      var digits := if t[0] == '-' || t[0] == '+' then t[1..] else t;
      if |digits| == 0 || !AllDigits(digits) then None
      else
        var magnitude: int := DigitsValue(digits);
        var n: int := if t[0] == '-' then -magnitude else magnitude;
        if IsInt32(n) then Some(n) else None
  }

  /**
   * Every text the parser can see is a digit string with or without a sign,
   * or something else; on the digit strings it gives the value in decimal,
   * negated after '-', when a Java int can hold it.
   */
  lemma ParseIntOfDigits(ds: string)
    requires |ds| > 0 && AllDigits(ds)
    ensures ParseInt(ds) == if DigitsValue(ds) <= MAX_INT then Some(DigitsValue(ds)) else None
    ensures ParseInt("+" + ds) == ParseInt(ds)
    ensures ParseInt("-" + ds) == if DigitsValue(ds) <= MAX_INT + 1 then Some(-(DigitsValue(ds) as int)) else None
  {
    assert IsDigit(ds[0]);
    assert ("+" + ds)[1..] == ds;
    assert ("-" + ds)[1..] == ds;
  }

  /** Text that is not an optionally signed digit string is refused. */
  lemma ParseIntRejectsOtherText(t: string)
    requires forall ds :: |ds| > 0 && AllDigits(ds) ==> t != ds && t != "+" + ds && t != "-" + ds
    ensures ParseInt(t) == None
  {
    if |t| > 0 && (t[0] == '-' || t[0] == '+') {
      assert t == [t[0]] + t[1..];
    }
  }

  /** A plus sign and leading zeros are accepted; a lone sign is not. */
  lemma ParseIntExamples()
    ensures ParseInt("+5") == Some(5)
    ensures ParseInt("-07") == Some(-7)
    ensures ParseInt("+") == None
  {
    PlusFive();
    MinusSeven();
  }

  lemma PlusFive()
    ensures ParseInt("+5") == Some(5)
  {
    ParseIntOfDigits("5");
    assert "+5" == "+" + "5";
  }

  lemma MinusSeven()
    ensures ParseInt("-07") == Some(-7)
  {
    LeadingZeroIgnored("7");
    assert "0" + "7" == "07";
    ParseIntOfDigits("07");
    assert "-07" == "-" + "07";
  }

  /** Leading zeros do not change a digit string's value. */
  lemma {:induction false} LeadingZeroIgnored(ds: string)
    requires AllDigits(ds)
    ensures AllDigits("0" + ds) && DigitsValue("0" + ds) == DigitsValue(ds)
  {
    var z := "0" + ds;
    assert AllDigits(z) by {
      forall i | 0 <= i < |z| ensures IsDigit(z[i]) {
        if i > 0 { assert z[i] == ds[i - 1]; }
      }
    }
    if |ds| > 0 {
      assert z[..|z| - 1] == "0" + ds[..|ds| - 1];
      LeadingZeroIgnored(ds[..|ds| - 1]);
    }
  }

  /**
   * convertToInt: empty text is refused; otherwise quote-strip, trim and
   * parse, and every parse failure is a ParserException.
   */
  function ConvertToInt(value: string): (r: Result<int, ErrorKind>)
    ensures value == "" ==> r == Err(ParserException)
    ensures r.Err? ==> r.error == ParserException
    ensures r.Ok? ==> IsInt32(r.value)
    ensures value != "" ==> (r.Ok? <==> ParseInt(Trim(Strip(value))).Some?)
    ensures r.Ok? ==> ParseInt(Trim(Strip(value))) == Some(r.value)
  {
    if value == "" then Err(ParserException)
    else
      match ParseInt(Trim(Strip(value)))
      case None => Err(ParserException)
      case Some(n) => Ok(n)
  }

  function DigitChar(d: nat): (c: char)
    requires d < 10
    ensures IsDigit(c) && DigitValue(c) == d
  {
    ('0' as int + d) as char
  }

  /** Decimal text of a natural number, without leading zeros. */
  function NatText(n: nat): (r: string)
    ensures |r| > 0 && AllDigits(r)
  {
    if n < 10 then [DigitChar(n)] else NatText(n / 10) + [DigitChar(n % 10)]
  }

  /** Integer.toString */
  function IntText(n: int): string {
    if n < 0 then "-" + NatText(-n) else NatText(n)
  }

  lemma {:induction false} NatTextValue(n: nat)
    ensures DigitsValue(NatText(n)) == n
  {
    if n >= 10 {
      NatTextValue(n / 10);
      var t := NatText(n);
      assert t[..|t| - 1] == NatText(n / 10);
    }
  }

  /** Every Java int, written in decimal, converts back to itself. */
  lemma IntRoundTrip(n: int)
    requires IsInt32(n)
    ensures ConvertToInt(IntText(n)) == Ok(n)
  {
    if n < 0 {
      NegativeRoundTrip(n);
    } else {
      NonNegativeRoundTrip(n);
    }
  }

  lemma NegativeRoundTrip(n: int)
    requires IsInt32(n) && n < 0
    ensures ConvertToInt(IntText(n)) == Ok(n)
  {
    var m: nat := -n;
    var ds := NatText(m);
    NatTextValue(m);
    ParseIntOfDigits(ds);
    SignedDigitsArePlain("-", ds);
    assert IntText(n) == "-" + ds;
    ConvertsAsParsed("-" + ds, n);
  }

  lemma NonNegativeRoundTrip(n: int)
    requires IsInt32(n) && n >= 0
    ensures ConvertToInt(IntText(n)) == Ok(n)
  {
    var ds := NatText(n);
    NatTextValue(n);
    ParseIntOfDigits(ds);
    DigitsArePlain(ds);
    ConvertsAsParsed(ds, n);
  }

  /** Text that quote stripping and trimming leave alone converts to what the parser reads. */
  lemma ConvertsAsParsed(t: string, n: int)
    requires t != "" && Trim(Strip(t)) == t && ParseInt(t) == Some(n)
    ensures ConvertToInt(t) == Ok(n)
  {
  }

  /** Every Java int, written in decimal between quotes, converts back to itself. */
  lemma QuotedIntRoundTrip(n: int)
    requires IsInt32(n)
    ensures ConvertToInt("\"" + IntText(n) + "\"") == Ok(n)
  {
    var t := IntText(n);
    IntRoundTrip(n);
    StripQuoted(t);
    IntTextIsPlain(n);
    assert Trim(Strip("\"" + t + "\"")) == Trim(Strip(t));
  }

  /** Integer.toString output starts with a sign or a digit and ends with a digit,
      so quote stripping leaves it as it is. */
  lemma IntTextIsPlain(n: int)
    ensures |IntText(n)| > 0
    ensures Strip(IntText(n)) == IntText(n)
  {
    var t := IntText(n);
    assert t[0] == '-' || IsDigit(t[0]);
    assert IsDigit(t[|t| - 1]);
  }

  /** Text that neither starts nor ends with a quote or a blank reaches the parser as is. */
  lemma PlainText(t: string)
    requires |t| > 0
    requires t[0] > ' ' && t[0] != '"'
    requires t[|t| - 1] > ' ' && t[|t| - 1] != '"'
    ensures Trim(Strip(t)) == t
  {
  }

  /** Digits reach the parser as they are. */
  lemma DigitsArePlain(ds: string)
    requires |ds| > 0 && AllDigits(ds)
    ensures Trim(Strip(ds)) == ds
  {
    assert IsDigit(ds[0]) && IsDigit(ds[|ds| - 1]);
    PlainText(ds);
  }

  /** A sign followed by digits reaches the parser as it is. */
  lemma SignedDigitsArePlain(sign: string, ds: string)
    requires sign == "+" || sign == "-"
    requires |ds| > 0 && AllDigits(ds)
    ensures Trim(Strip(sign + ds)) == sign + ds
  {
    var t := sign + ds;
    assert t[|t| - 1] == ds[|ds| - 1];
    assert t[0] == sign[0];
    PlainText(t);
  }

  /** A digit string too large for an int is refused, with any sign it can carry. */
  lemma OutOfRangeRejected(ds: string)
    requires |ds| > 0 && AllDigits(ds)
    requires DigitsValue(ds) > MAX_INT
    ensures ConvertToInt(ds) == Err(ParserException)
    ensures ConvertToInt("+" + ds) == Err(ParserException)
    ensures DigitsValue(ds) > MAX_INT + 1 ==> ConvertToInt("-" + ds) == Err(ParserException)
  {
    ParseIntOfDigits(ds);
    DigitsArePlain(ds);
    SignedDigitsArePlain("+", ds);
    SignedDigitsArePlain("-", ds);
  }
}
