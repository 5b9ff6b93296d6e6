/**
 * The predicate tokens the fluent methods of Criteria append, and the argument
 * values they take (nested PHP arrays included).
 */
module Tokens {
  import opened Results
  import opened Formatter

  /** A PHP argument: a scalar or an array of (possibly nested) arguments. */
  datatype Value = Atom(s: Scalar) | Array(items: seq<Value>)

  /** A PHP number: its value for the bound checks, and its string form for the output. */
  datatype Number = Number(value: real, text: string)

  /** The scalars of v, depth first, in order: what in() and the list methods visit. */
  function Flatten(v: Value): seq<Scalar>
    decreases v
  {
    match v
      case Atom(s) => [s]
      case Array(items) => FlattenAll(items)
  }

  function FlattenAll(vs: seq<Value>): seq<Scalar>
    decreases vs
  {
    if vs == [] then [] else FlattenAll(vs[..|vs| - 1]) + Flatten(vs[|vs| - 1])
  }

  /** Number of non-array leaves of v, counted without building the flattened list. */
  function LeafCount(v: Value): nat
    decreases v
  {
    match v
      case Atom(_) => 1
      case Array(items) => LeafCountAll(items)
  }

  function LeafCountAll(vs: seq<Value>): nat
    decreases vs
  {
    if vs == [] then 0 else LeafCount(vs[0]) + LeafCountAll(vs[1..])
  }

  lemma {:induction false} LeafCountAllSplit(vs: seq<Value>)
    requires vs != []
    ensures LeafCountAll(vs) == LeafCountAll(vs[..|vs| - 1]) + LeafCount(vs[|vs| - 1])
    decreases |vs|
  {
    if |vs| > 1 {
      var init := vs[..|vs| - 1];
      assert init[1..] == vs[1..][..|vs[1..]| - 1];
      LeafCountAllSplit(vs[1..]);
      assert init[0] == vs[0];
    } else {
      assert vs[1..] == [];
    }
  }

  /** Flattening keeps one entry per non-array leaf. */
  lemma {:induction false} FlattenCount(v: Value)
    ensures |Flatten(v)| == LeafCount(v)
    decreases v, 1
  {
    match v
      case Atom(_) =>
      case Array(items) => FlattenAllCount(items);
  }

  lemma {:induction false} FlattenAllCount(vs: seq<Value>)
    ensures |FlattenAll(vs)| == LeafCountAll(vs)
    decreases vs, 0
  {
    if vs != [] {
      FlattenAllCount(vs[..|vs| - 1]);
      FlattenCount(vs[|vs| - 1]);
      LeafCountAllSplit(vs);
    }
  }

  /** Total size of an argument, for the termination of the recursive list methods. */
  function Size(v: Value): nat
    decreases v
  {
    match v
      case Atom(_) => 1
      case Array(items) => 1 + SizeAll(items)
  }

  function SizeAll(vs: seq<Value>): nat
    decreases vs
  {
    if vs == [] then 0 else SizeAll(vs[..|vs| - 1]) + Size(vs[|vs| - 1])
  }

  lemma {:induction false} SizeAllBounds(vs: seq<Value>, i: nat)
    requires i < |vs|
    ensures Size(vs[i]) <= SizeAll(vs)
    ensures SizeAll(vs[..i]) <= SizeAll(vs)
    decreases |vs|
  {
    if i < |vs| - 1 {
      var init := vs[..|vs| - 1];
      SizeAllBounds(init, i);
      assert init[i] == vs[i];
      assert init[..i] == vs[..i];
    } else {
      assert vs[..i] == vs[..|vs| - 1];
    }
  }

  /** The bound Criteria::between substitutes for null. */
  function Bound(v: Scalar): Scalar
  {
    if v == Null then Str("*") else v
  }

  /** Criteria::between: '[' or '{', the formatted bounds around ' TO ', then ']' or '}'. */
  function RangeToken(lower: Scalar, upper: Scalar, includeLower: bool, includeUpper: bool): string
  {
    (if includeLower then "[" else "{") + ProcessValue(Bound(lower)) + " TO " +
    ProcessValue(Bound(upper)) + (if includeUpper then "]" else "}")
  }

  /** The token isNotNull() appends (and the one an empty criteria renders with). */
  const AllValues: string := RangeToken(Null, Null, true, true)

  lemma AllValuesText()
    ensures AllValues == "[* TO *]"
  {
  }

  /** The bracket characters of a range token carry its inclusivity flags, and a null
    * bound is written as the bare wildcard. */
  lemma RangeTokenShape(lower: Scalar, upper: Scalar, includeLower: bool, includeUpper: bool)
    ensures var t := RangeToken(lower, upper, includeLower, includeUpper);
      |t| >= 6 &&
      (t[0] == '[' <==> includeLower) && (t[0] == '{' <==> !includeLower) &&
      (t[|t| - 1] == ']' <==> includeUpper) && (t[|t| - 1] == '}' <==> !includeUpper) &&
      (lower == Null ==> t[1..6] == "* TO ") &&
      (upper == Null ==> t[|t| - 6..|t| - 1] == " TO *")
  {
  }

  /** A range between two bounds the formatter leaves as they are. */
  lemma RangeTokenVerbatim(lower: string, upper: string)
    requires ProcessValue(Str(lower)) == lower && ProcessValue(Str(upper)) == upper
    ensures RangeToken(Str(lower), Str(upper), true, true) == "[" + lower + " TO " + upper + "]"
  {
  }

  /** The separator of a range token is plain text. */
  lemma SeparatorPlain()
    ensures IsPlain(" TO ")
  {
    var sep := " TO ";
    forall i | 0 <= i < |sep| ensures !IsSpecialChar(sep[i]) && sep[i] != '&' && sep[i] != '|' {
      assert sep[i] in {' ', 'T', 'O'};
    }
  }

  lemma PlainConcat(a: string, b: string)
    requires IsPlain(a) && IsPlain(b)
    ensures IsPlain(a + b)
  {
    var t := a + b;
    forall i | 0 <= i < |t| ensures !IsSpecialChar(t[i]) && t[i] != '&' && t[i] != '|' {
      if i < |a| { assert t[i] == a[i]; } else { assert t[i] == b[i - |a|]; }
    }
  }

  /** The range token does not determine its bounds: because a space at index 0 does not
    * trigger quoting, two different bound pairs give the same token. */
  lemma RangeTokenAmbiguous(b: string)
    requires IsPlain(b) && ' ' !in b
    ensures RangeToken(Str(""), Str(" TO " + b), true, true) == RangeToken(Str(" TO "), Str(b), true, true)
  {
    var sep := " TO ";
    var t := sep + b;
    SeparatorPlain();
    PlainConcat(sep, b);
    assert ProcessValue(Str(t)) == t by {
      ProcessPlain(t);
      assert t[0] == ' ';
    }
    assert ProcessValue(Str(sep)) == sep by {
      ProcessPlain(sep);
      assert sep[0] == ' ';
    }
    assert ProcessValue(Str(b)) == b by {
      ProcessPlain(b);
    }
    assert ProcessValue(Str("")) == "" by {
      ProcessPlain("");
    }
    RangeTokenVerbatim("", t);
    RangeTokenVerbatim(sep, b);
    BracketShift(sep, b);
  }

  lemma BracketShift(sep: string, b: string)
    ensures "[" + "" + sep + (sep + b) + "]" == "[" + sep + sep + b + "]"
  {
    assert "[" + "" == "[";
  }

  /** The token in() and is() append for one scalar: null stands for "[* TO *]" (and
    * negates the criteria), anything else is formatted. */
  function IsToken(s: Scalar): string
  {
    if s == Null then AllValues else ProcessValue(s)
  }

  /** The tokens of is() on each scalar, in order. */
  function IsTokens(ss: seq<Scalar>): seq<string>
  {
    seq(|ss|, i requires 0 <= i < |ss| => IsToken(ss[i]))
  }

  /** Criteria::contains for one scalar. */
  function ContainsToken(s: Scalar): string
  {
    "*" + ProcessValue(s) + "*"
  }

  /** Criteria::startsWith for one scalar. */
  function StartsWithToken(s: Scalar): string
  {
    ProcessValue(s) + "*"
  }

  /** Criteria::endsWith for one scalar. */
  function EndsWithToken(s: Scalar): string
  {
    "*" + ProcessValue(s)
  }

  /** A term accepted by startsWith/endsWith is never quoted, so the wildcard sits
    * directly against the escaped text, which reads back to the term. */
  lemma WildcardTokensReadBack(s: string)
    requires AssertNotBlanks(Str(s)).Pass?
    ensures var p := StartsWithToken(Str(s)); |p| >= 1 && p[|p| - 1] == '*' && DecodeValue(p[..|p| - 1]) == s
    ensures var e := EndsWithToken(Str(s)); |e| >= 1 && e[0] == '*' && DecodeValue(e[1..]) == s
    ensures var c := ContainsToken(Str(s)); |c| >= 2 && c[0] == '*' && c[|c| - 1] == '*' && DecodeValue(c[1..|c| - 1]) == s
  {
    ProcessValueRoundTrip(s);
    var v := ProcessValue(Str(s));
    var p := v + "*";
    assert p[..|p| - 1] == v;
    var e := "*" + v;
    assert e[1..] == v;
    var c := "*" + v + "*";
    assert c[1..|c| - 1] == v;
  }

  /** Criteria::fuzzy: the formatted value, '~', then the formatted distance if any. */
  function FuzzyToken(s: Scalar, distance: Option<Number>): string
  {
    ProcessValue(s) + "~" + (if distance.None? then "" else ProcessFloat(distance.value.text))
  }

  /** Criteria::sloppy: the formatted phrase, '~', then the distance as PHP prints it. */
  function SloppyToken(phrase: string, distance: Number): string
  {
    ProcessValue(Str(phrase)) + "~" + distance.text
  }

  /** A phrase sloppy accepts (one whose first space is not at index 0) is always quoted. */
  lemma SloppyPhraseQuoted(phrase: string, distance: Number)
    requires ' ' in phrase && phrase[0] != ' '
    ensures var t := SloppyToken(phrase, distance);
      t == "\"" + Escape(phrase) + "\"~" + distance.text
  {
    assert phrase != "*";
    var e := Escape(phrase);
    OccursAfterStartIff(e, ' ');
    assert ProcessValue(Str(phrase)) == "\"" + e + "\"";
  }

  /** The two circle filters of withinCircle and nearCircle. */
  datatype GeoFilter = GeoFilt | BBox

  function GeoFilterName(g: GeoFilter): string
  {
    match g
      case GeoFilt => "geofilt"
      case BBox => "bbox"
  }

  /** Criteria::withinCircle / nearCircle: a local-params filter naming the field itself. */
  function CircleToken(g: GeoFilter, latitude: Number, longitude: Number, field: string, distance: Number): string
  {
    "{!" + GeoFilterName(g) + " pt=" + ProcessFloat(latitude.text) + "," + ProcessFloat(longitude.text) +
    " sfield=" + field + " d=" + ProcessFloat(distance.text) + "}"
  }

  /** Criteria::withinBox: a range between two corner points. */
  function BoxToken(startLatitude: Number, startLongitude: Number, endLatitude: Number, endLongitude: Number): string
  {
    "[" + ProcessFloat(startLatitude.text) + "," + ProcessFloat(startLongitude.text) + " TO " +
    ProcessFloat(endLatitude.text) + "," + ProcessFloat(endLongitude.text) + "]"
  }

  /** The scalars before the first one assertNotBlanks rejects: what a list argument of
    * startsWith/endsWith has appended when the exception stops the loop. */
  function TakeUntilBlank(ss: seq<Scalar>): seq<Scalar>
  {
    if ss == [] then []
    else if AssertNotBlanks(ss[0]).Fail? then []
    else [ss[0]] + TakeUntilBlank(ss[1..])
  }

  predicate AllWithoutBlanks(ss: seq<Scalar>)
  {
    forall i :: 0 <= i < |ss| ==> AssertNotBlanks(ss[i]).Pass?
  }

  /** The kept scalars are a prefix that passes the check, and the one after it, if any,
    * fails it: the longest such prefix. */
  lemma {:induction false} TakeUntilBlankPrefix(ss: seq<Scalar>)
    ensures TakeUntilBlank(ss) <= ss && AllWithoutBlanks(TakeUntilBlank(ss))
    ensures |TakeUntilBlank(ss)| < |ss| ==> AssertNotBlanks(ss[|TakeUntilBlank(ss)|]).Fail?
    decreases |ss|
  {
    if ss != [] && AssertNotBlanks(ss[0]).Pass? {
      var rest := TakeUntilBlank(ss[1..]);
      TakeUntilBlankPrefix(ss[1..]);
      assert ss == [ss[0]] + ss[1..];
      var r := [ss[0]] + rest;
      forall i | 0 <= i < |r| ensures AssertNotBlanks(r[i]).Pass? {
        if i > 0 { assert r[i] == rest[i - 1]; }
      }
      if |r| < |ss| { assert ss[|r|] == ss[1..][|rest|]; }
    }
  }

  /** Nothing is left out exactly when no scalar is rejected. */
  lemma TakeUntilBlankAll(ss: seq<Scalar>)
    ensures TakeUntilBlank(ss) == ss <==> AllWithoutBlanks(ss)
  {
    TakeUntilBlankPrefix(ss);
    var t := TakeUntilBlank(ss);
    if |t| < |ss| {
      assert AssertNotBlanks(ss[|t|]).Fail?;
    }
  }

  /** The tokens of startsWith() on each scalar, in order. */
  function StartsWithTokens(ss: seq<Scalar>): seq<string>
  {
    seq(|ss|, i requires 0 <= i < |ss| => StartsWithToken(ss[i]))
  }

  /** The tokens of endsWith() on each scalar, in order. */
  function EndsWithTokens(ss: seq<Scalar>): seq<string>
  {
    seq(|ss|, i requires 0 <= i < |ss| => EndsWithToken(ss[i]))
  }

  /** The tokens of contains() on each scalar, in order. */
  function ContainsTokens(ss: seq<Scalar>): seq<string>
  {
    seq(|ss|, i requires 0 <= i < |ss| => ContainsToken(ss[i]))
  }
}
