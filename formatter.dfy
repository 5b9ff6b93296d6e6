/**
 * The value formatter: Criteria::processValue, processFloat, assertNotBlanks and
 * assertPositiveFloat, as pure functions over already-stringified text.
 *
 * The reserved tokens are the special characters of the Lucene/Solr standard query
 * parser ("Escaping Special Characters"): + - && || ! ( ) { } [ ] ^ " ~ * ? : / \
 */
module Formatter {
  import opened Results

  /** A scalar argument after PHP's runtime type dispatch: a string (numbers, dates and
    * objects are given by their string form), a boolean, or null. */
  datatype Scalar = Str(text: string) | Bool(b: bool) | Null

  /** The one-character reserved tokens. */
  predicate IsSpecialChar(c: char)
  {
    c == '+' || c == '-' || c == '!' || c == '(' || c == ')' || c == '{' || c == '}' ||
    c == '[' || c == ']' || c == '^' || c == '"' || c == '~' || c == '*' || c == '?' ||
    c == ':' || c == '/' || c == '\\'
  }

  /** The two-character reserved tokens && and || at the start of s. */
  predicate StartsWithDoubled(s: string)
  {
    |s| >= 2 && s[0] == s[1] && (s[0] == '&' || s[0] == '|')
  }

  /** One left-to-right pass that puts a backslash before every reserved token;
    * a lone & or | is not a token and is kept as it is. */
  function Escape(s: string): (r: string)
    ensures (' ' in r) <==> (' ' in s)
    ensures |r| >= |s|
    ensures |s| > 0 ==> |r| > 0 && (r[0] == ' ' <==> s[0] == ' ') && r[0] != '"'
    decreases |s|
  {
    if s == [] then []
    else if StartsWithDoubled(s) then ['\\', s[0], s[1]] + Escape(s[2..])
    else if IsSpecialChar(s[0]) then ['\\', s[0]] + Escape(s[1..])
    else [s[0]] + Escape(s[1..])
  }

  /** Reads an escaped text back: a backslash is dropped, and a backslash before & or |
    * protects the two characters that follow it. */
  function Unescape(s: string): string
    decreases |s|
  {
    if s == [] then []
    else if s[0] == '\\' && |s| >= 3 && (s[1] == '&' || s[1] == '|') then s[1..3] + Unescape(s[3..])
    else if s[0] == '\\' && |s| >= 2 then [s[1]] + Unescape(s[2..])
    else [s[0]] + Unescape(s[1..])
  }

  /** Escaping loses nothing: every reserved token got exactly one backslash. */
  lemma {:induction false} UnescapeEscape(s: string)
    ensures Unescape(Escape(s)) == s
    decreases |s|
  {
    if s == [] {
    } else if StartsWithDoubled(s) {
      var rest := Escape(s[2..]);
      var e := ['\\', s[0], s[1]] + rest;
      assert Escape(s) == e;
      assert e[1..3] == s[..2];
      assert e[3..] == rest;
      UnescapeEscape(s[2..]);
      assert s == s[..2] + s[2..];
    } else if IsSpecialChar(s[0]) {
      var rest := Escape(s[1..]);
      var e := ['\\', s[0]] + rest;
      assert Escape(s) == e;
      assert e[2..] == rest;
      UnescapeEscape(s[1..]);
      assert s == [s[0]] + s[1..];
    } else {
      var rest := Escape(s[1..]);
      var e := [s[0]] + rest;
      assert Escape(s) == e;
      assert e[1..] == rest;
      UnescapeEscape(s[1..]);
      assert s == [s[0]] + s[1..];
    }
  }

  /** s holds no character that can start a reserved token. */
  predicate IsPlain(s: string)
  {
    forall i :: 0 <= i < |s| ==> !IsSpecialChar(s[i]) && s[i] != '&' && s[i] != '|'
  }

  /** Plain text is left as it is by the escaping pass. */
  lemma {:induction false} EscapePlain(s: string)
    requires IsPlain(s)
    ensures Escape(s) == s
    decreases |s|
  {
    if s != [] {
      assert !StartsWithDoubled(s) && !IsSpecialChar(s[0]);
      EscapePlain(s[1..]);
      assert s == [s[0]] + s[1..];
    }
  }

  /** Number of reserved tokens the escaping pass matches in s. */
  function TokenCount(s: string): nat
    decreases |s|
  {
    if s == [] then 0
    else if StartsWithDoubled(s) then 1 + TokenCount(s[2..])
    else if IsSpecialChar(s[0]) then 1 + TokenCount(s[1..])
    else TokenCount(s[1..])
  }

  /** Escaping adds one character per reserved token and nothing else. */
  lemma {:induction false} EscapeLength(s: string)
    ensures |Escape(s)| == |s| + TokenCount(s)
    decreases |s|
  {
    if s == [] {
    } else if StartsWithDoubled(s) {
      EscapeLength(s[2..]);
    } else {
      EscapeLength(s[1..]);
    }
  }

  /** PHP strpos: the index of the first occurrence of c in s, or false (None). */
  function StrPos(s: string, c: char): (r: Option<nat>)
    ensures r.None? <==> c !in s
    ensures r.Some? ==> r.value < |s| && s[r.value] == c
    ensures r.Some? ==> forall i :: 0 <= i < r.value ==> s[i] != c
  {
    if s == [] then None
    else if s[0] == c then Some(0)
    else match StrPos(s[1..], c)
      case None => None
      case Some(i) => Some(i + 1)
  }

  /** PHP truthiness of a strpos result: false and 0 are both falsy. */
  predicate Truthy(r: Option<nat>)
  {
    r.Some? && r.value != 0
  }

  /** `if (strpos($s, $c))`: c occurs in s, but not as its first character. */
  predicate OccursAfterStart(s: string, c: char)
  {
    Truthy(StrPos(s, c))
  }

  lemma OccursAfterStartIff(s: string, c: char)
    ensures OccursAfterStart(s, c) <==> (c in s && s[0] != c)
  {
  }

  /** A string PHP reads as true in a condition: neither '' nor '0'. */
  predicate PhpTruthyString(s: string)
  {
    s != "" && s != "0"
  }

  /** Wraps s in double quotes when it holds a space and its first space is not at index 0. */
  function QuoteIfSpaced(s: string): string
  {
    if OccursAfterStart(s, ' ') then "\"" + s + "\"" else s
  }

  /** Criteria::processValue: '*' is kept, booleans are spelled, everything else is
    * stringified (null gives ''), escaped, then quoted when it holds a space and the first one is not at index 0. */
  function ProcessValue(v: Scalar): (r: string)
    ensures v == Str("*") ==> r == "*"
    ensures v.Bool? ==> r == (if v.b then "true" else "false")
    ensures v.Null? ==> r == ""
  {
    if v == Str("*") then "*"
    else match v
      case Bool(b) => if b then "true" else "false"
      case Str(s) => QuoteIfSpaced(Escape(s))
      case Null => QuoteIfSpaced(Escape(""))
  }

  /** A token wrapped in double quotes. */
  predicate IsQuoted(r: string)
  {
    |r| >= 2 && r[0] == '"' && r[|r| - 1] == '"'
  }

  /** Reads a formatted string value back: drops the quotes, then the escapes. */
  function DecodeValue(r: string): string
  {
    if |r| >= 2 && r[0] == '"' then Unescape(r[1..|r| - 1]) else Unescape(r)
  }

  /** A string value is quoted exactly when it holds a space and its first space is not at index 0. */
  lemma ProcessValueQuoting(s: string)
    ensures IsQuoted(ProcessValue(Str(s))) <==> (' ' in s && s[0] != ' ')
    ensures !IsQuoted(ProcessValue(Str(s))) ==> ProcessValue(Str(s)) == [] || ProcessValue(Str(s))[0] != '"'
  {
    var e := Escape(s);
    OccursAfterStartIff(e, ' ');
    OccursAfterStartIff(s, ' ');
  }

  /** A string value can be read back from its formatted token: the formatter is injective. */
  lemma ProcessValueRoundTrip(s: string)
    ensures DecodeValue(ProcessValue(Str(s))) == s
  {
    if s != "*" {
      var e := Escape(s);
      ProcessValueQuoting(s);
      UnescapeEscape(s);
      OccursAfterStartIff(e, ' ');
      if OccursAfterStart(e, ' ') {
        var r := "\"" + e + "\"";
        assert r[1..|r| - 1] == e;
      }
    }
  }

  /** A plain string value is only quoted (when its first space is not at index 0). */
  lemma ProcessPlain(s: string)
    requires IsPlain(s)
    ensures ProcessValue(Str(s)) == if ' ' in s && s[0] != ' ' then "\"" + s + "\"" else s
  {
    EscapePlain(s);
    OccursAfterStartIff(s, ' ');
    assert s != "*" by {
      if |s| == 1 { assert !IsSpecialChar(s[0]); }
    }
  }

  /** A leading space defeats the quoting (strpos returns 0, which PHP reads as false):
    * the formatted token keeps a bare space. */
  lemma LeadingSpaceStaysUnquoted(s: string)
    requires |s| > 0 && s[0] == ' '
    ensures ProcessValue(Str(s)) == Escape(s)
    ensures ' ' in ProcessValue(Str(s))
  {
    OccursAfterStartIff(Escape(s), ' ');
  }

  /** Criteria::processFloat over the stringified number t. */
  function ProcessFloat(t: string): (r: string)
    ensures (r == t) <==> ('.' in t && t[0] != '.')
    ensures r != t ==> r == t + ".0"
    ensures t <= r && '.' in r
    ensures PhpTruthyString(r)
  {
    OccursAfterStartIff(t, '.');
    var r := if OccursAfterStart(t, '.') then t else t + ".0";
    assert r != t ==> r[|t|] == '.';
    r
  }

  /** processFloat is idempotent on non-empty text that does not start with a dot
    * (every stringified number); '' becomes '.0', which it is not idempotent on. */
  lemma ProcessFloatIdempotent(t: string)
    requires t != [] && t[0] != '.'
    ensures ProcessFloat(ProcessFloat(t)) == ProcessFloat(t)
  {
    var r := ProcessFloat(t);
    if r != t {
      assert r[|t|] == '.';
      assert r[0] == t[0];
    }
  }

  /** PHP's (string) cast of a scalar, as strpos sees it. */
  function StringCast(v: Scalar): string
  {
    match v
      case Str(s) => s
      case Bool(b) => if b then "1" else ""
      case Null => ""
  }

  /** Criteria::assertNotBlanks. */
  function AssertNotBlanks(v: Scalar): (r: Outcome)
    ensures r.Fail? ==> r.error == BlanksInPattern
    ensures r.Fail? <==> (' ' in StringCast(v) && StringCast(v)[0] != ' ')
  {
    OccursAfterStartIff(StringCast(v), ' ');
    if OccursAfterStart(StringCast(v), ' ') then Fail(BlanksInPattern) else Pass
  }

  /** Criteria::assertPositiveFloat: zero passes, only negative distances fail. */
  function AssertPositiveFloat(distance: real): (r: Outcome)
    ensures r.Fail? <==> distance < 0.0
    ensures r.Fail? ==> r.error == NegativeDistance
  {
    if distance < 0.0 then Fail(NegativeDistance) else Pass
  }
}
