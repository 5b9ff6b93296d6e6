/**
 * What the predicate methods of Criteria do to the one criteria they are called on:
 * the argument checks they make before touching it, and what in()/is() append for a
 * (possibly nested) list argument.
 */
module Predicates {
  import opened Results
  import opened Formatter
  import opened Tokens
  import opened Tree

  /** Criteria::fuzzy's check: a distance, when given, lies within [0, 1]. */
  function FuzzyCheck(distance: Option<Number>): (o: Outcome)
    ensures o.Fail? <==> distance.Some? && (distance.value.value < 0.0 || distance.value.value > 1.0)
    ensures o.Fail? ==> o.error == FuzzyDistanceOutOfBounds
  {
    if distance.Some? && (distance.value.value < 0.0 || distance.value.value > 1.0)
    then Fail(FuzzyDistanceOutOfBounds) else Pass
  }

  /** Criteria::sloppy's checks, in their order: the distance first, then a space anywhere
    * in the phrase (strpos compared with false, so a leading space is enough). */
  function SloppyCheck(phrase: string, distance: Number): (o: Outcome)
    ensures o == Pass <==> distance.value > 0.0 && ' ' in phrase
    ensures distance.value <= 0.0 ==> o == Fail(SlopNotPositive)
    ensures distance.value > 0.0 && ' ' !in phrase ==> o == Fail(SloppySingleTerm)
  {
    if distance.value <= 0.0 then Fail(SlopNotPositive)
    else if StrPos(phrase, ' ').None? then Fail(SloppySingleTerm)
    else Pass
  }

  /** Criteria::boost's check: zero passes, only a negative factor fails. */
  function BoostCheck(factor: Number): (o: Outcome)
    ensures o.Fail? <==> factor.value < 0.0
    ensures o.Fail? ==> o.error == NegativeBoost
  {
    if factor.value < 0.0 then Fail(NegativeBoost) else Pass
  }

  /** is(v): null is isNull() ("[* TO *]" and negation), a list is in(), anything else
    * appends its formatted value. */
  function IsValue(s: CriteriaState, v: Value): CriteriaState
    decreases v, 1
  {
    match v
      case Atom(Null) => WithToken(s, AllValues).(isNegating := true)
      case Atom(x) => WithToken(s, ProcessValue(x))
      case Array(items) => InValues(s, items)
  }

  /** in(vs): is() for each entry in order (a nested list goes to in() itself). */
  function InValues(s: CriteriaState, vs: seq<Value>): CriteriaState
    decreases vs, 0
  {
    if vs == [] then s else IsValue(InValues(s, vs[..|vs| - 1]), vs[|vs| - 1])
  }

  lemma TokensAppend(a: seq<Scalar>, b: seq<Scalar>)
    ensures IsTokens(a + b) == IsTokens(a) + IsTokens(b)
    ensures ContainsTokens(a + b) == ContainsTokens(a) + ContainsTokens(b)
    ensures StartsWithTokens(a + b) == StartsWithTokens(a) + StartsWithTokens(b)
    ensures EndsWithTokens(a + b) == EndsWithTokens(a) + EndsWithTokens(b)
  {
  }

  /** The criteria after is() on each of the scalars ss in turn: one token each, and
    * negated once a null is among them. */
  function Appended(s: CriteriaState, ss: seq<Scalar>): CriteriaState
  {
    s.(predicates := s.predicates + IsTokens(ss), isNegating := s.isNegating || Null in ss)
  }

  lemma AppendedAppend(s: CriteriaState, a: seq<Scalar>, b: seq<Scalar>)
    ensures Appended(Appended(s, a), b) == Appended(s, a + b)
  {
    TokensAppend(a, b);
    assert s.predicates + IsTokens(a) + IsTokens(b) == s.predicates + IsTokens(a + b);
    assert (Null in a + b) <==> (Null in a || Null in b);
  }

  /** is(v) appends one token per scalar of v, in depth-first order, each null giving
    * "[* TO *]" and negating the criteria; nothing else of the criteria changes. */
  lemma {:induction false} IsValueTokens(s: CriteriaState, v: Value)
    ensures IsValue(s, v) == Appended(s, Flatten(v))
    decreases v, 1
  {
    match v
      case Atom(x) =>
        assert Flatten(v) == [x];
      case Array(items) =>
        InValuesTokens(s, items);
  }

  lemma {:induction false} InValuesTokens(s: CriteriaState, vs: seq<Value>)
    ensures InValues(s, vs) == Appended(s, FlattenAll(vs))
    decreases vs, 0
  {
    if vs != [] {
      var init := vs[..|vs| - 1];
      InValuesTokens(s, init);
      IsValueTokens(InValues(s, init), vs[|vs| - 1]);
      AppendedAppend(s, FlattenAll(init), Flatten(vs[|vs| - 1]));
    }
  }

  /** in(vs) appends exactly as many tokens as vs has non-list entries at any depth. */
  lemma InValuesCount(s: CriteriaState, vs: seq<Value>)
    ensures |InValues(s, vs).predicates| == |s.predicates| + LeafCountAll(vs)
    ensures InValues(s, vs).predicates[..|s.predicates|] == s.predicates
  {
    InValuesTokens(s, vs);
    FlattenAllCount(vs);
  }

  /** is(list) is in(list). */
  lemma IsListIsIn(s: CriteriaState, vs: seq<Value>)
    ensures IsValue(s, Array(vs)) == InValues(s, vs)
  {
  }

  /** Flattening a list split in two flattens the two parts one after the other. */
  lemma {:induction false} FlattenAllAppend(a: seq<Value>, b: seq<Value>)
    ensures FlattenAll(a + b) == FlattenAll(a) + FlattenAll(b)
    decreases |b|
  {
    if b == [] {
      assert a + b == a;
    } else {
      var init := b[..|b| - 1];
      FlattenAllAppend(a, init);
      assert (a + b)[..|a + b| - 1] == a + init;
      assert (a + b)[|a + b| - 1] == b[|b| - 1];
    }
  }

  /** A criteria with the tokens ts appended in order. */
  function WithTokens(s: CriteriaState, ts: seq<string>): CriteriaState
  {
    s.(predicates := s.predicates + ts)
  }

  lemma WithTokensAppend(s: CriteriaState, a: seq<string>, b: seq<string>)
    ensures WithTokens(WithTokens(s, a), b) == WithTokens(s, a + b)
  {
    assert s.predicates + a + b == s.predicates + (a + b);
  }

  /** A list passes the blank check exactly when both of its parts do. */
  lemma AllWithoutBlanksAppend(a: seq<Scalar>, b: seq<Scalar>)
    ensures AllWithoutBlanks(a + b) <==> AllWithoutBlanks(a) && AllWithoutBlanks(b)
  {
    if AllWithoutBlanks(a + b) {
      forall i | 0 <= i < |b| ensures AssertNotBlanks(b[i]).Pass? {
        assert (a + b)[|a| + i] == b[i];
      }
      forall i | 0 <= i < |a| ensures AssertNotBlanks(a[i]).Pass? {
        assert (a + b)[i] == a[i];
      }
    }
    if AllWithoutBlanks(a) && AllWithoutBlanks(b) {
      forall i | 0 <= i < |a + b| ensures AssertNotBlanks((a + b)[i]).Pass? {
        if i >= |a| { assert (a + b)[i] == b[i - |a|]; } else { assert (a + b)[i] == a[i]; }
      }
    }
  }

  lemma FlattenAllSplit(vs: seq<Value>, j: nat)
    requires j <= |vs|
    ensures FlattenAll(vs) == FlattenAll(vs[..j]) + FlattenAll(vs[j..])
  {
    var a, b := vs[..j], vs[j..];
    assert vs == a + b;
    FlattenAllAppend(a, b);
  }

  /** A prefix without rejected terms is kept whole, and the scan goes on after it; a
    * prefix with one stops the scan inside it. */
  lemma {:induction false} TakeUntilBlankAppend(a: seq<Scalar>, b: seq<Scalar>)
    ensures AllWithoutBlanks(a) ==> TakeUntilBlank(a + b) == a + TakeUntilBlank(b)
    ensures !AllWithoutBlanks(a) ==> TakeUntilBlank(a + b) == TakeUntilBlank(a)
    decreases |a|
  {
    if a == [] {
      assert a + b == b;
    } else {
      var rest := a[1..];
      TakeUntilBlankAppend(rest, b);
      assert (a + b)[1..] == rest + b;
      assert (a + b)[0] == a[0];
      assert AllWithoutBlanks(a) <==> AssertNotBlanks(a[0]).Pass? && AllWithoutBlanks(rest) by {
        AllWithoutBlanksAppend([a[0]], rest);
        assert a == [a[0]] + rest;
      }
      if AssertNotBlanks(a[0]).Pass? {
        assert TakeUntilBlank(a) == [a[0]] + TakeUntilBlank(rest);
        assert TakeUntilBlank(a + b) == [a[0]] + TakeUntilBlank(rest + b);
        assert AllWithoutBlanks(a) ==> a == [a[0]] + rest;
      }
    }
  }

  /** The list argument of startsWith/endsWith, scanned entry by entry: when entry i is
    * the first to hold a rejected term, what is kept is everything before it plus what
    * entry i itself kept, and the whole list counts as rejected. */
  lemma TakeUntilBlankStops(items: seq<Value>, i: nat)
    requires i < |items| && AllWithoutBlanks(FlattenAll(items[..i])) && !AllWithoutBlanks(Flatten(items[i]))
    ensures TakeUntilBlank(FlattenAll(items)) == FlattenAll(items[..i]) + TakeUntilBlank(Flatten(items[i]))
    ensures !AllWithoutBlanks(FlattenAll(items))
  {
    var a := FlattenAll(items[..i]);
    var b := Flatten(items[i]);
    var rest := FlattenAll(items[i + 1..]);
    FlattenAllSplit(items, i + 1);
    FlattenAllSnoc(items, i);
    TakeUntilBlankStopsIn(FlattenAll(items), a, b, rest);
  }

  lemma FlattenAllSnoc(vs: seq<Value>, i: nat)
    requires i < |vs|
    ensures FlattenAll(vs[..i + 1]) == FlattenAll(vs[..i]) + Flatten(vs[i])
  {
    assert vs[..i + 1][..i] == vs[..i];
  }

  lemma TakeUntilBlankStopsIn(all: seq<Scalar>, a: seq<Scalar>, b: seq<Scalar>, rest: seq<Scalar>)
    requires all == a + b + rest && AllWithoutBlanks(a) && !AllWithoutBlanks(b)
    ensures TakeUntilBlank(all) == a + TakeUntilBlank(b)
    ensures !AllWithoutBlanks(all)
  {
    AllWithoutBlanksAppend(a, b);
    TakeUntilBlankAppend(a, b);
    AllWithoutBlanksAppend(a + b, rest);
    TakeUntilBlankAppend(a + b, rest);
  }

  /** The same scan when entry i holds no rejected term: the kept prefix grows by all of it. */
  lemma TakeUntilBlankContinues(items: seq<Value>, i: nat)
    requires i < |items| && AllWithoutBlanks(FlattenAll(items[..i])) && AllWithoutBlanks(Flatten(items[i]))
    ensures AllWithoutBlanks(FlattenAll(items[..i + 1]))
    ensures FlattenAll(items[..i + 1]) == FlattenAll(items[..i]) + Flatten(items[i])
  {
    FlattenAllSnoc(items, i);
    AllWithoutBlanksAppend(FlattenAll(items[..i]), Flatten(items[i]));
  }
  /** startsWith's token (trailing wildcard) or endsWith's (leading wildcard). */
  function AffixToken(trailing: bool, s: Scalar): string
  {
    if trailing then StartsWithToken(s) else EndsWithToken(s)
  }

  function AffixTokens(trailing: bool, ss: seq<Scalar>): seq<string>
  {
    if trailing then StartsWithTokens(ss) else EndsWithTokens(ss)
  }

  lemma AffixTokensAppend(trailing: bool, a: seq<Scalar>, b: seq<Scalar>)
    ensures AffixTokens(trailing, a + b) == AffixTokens(trailing, a) + AffixTokens(trailing, b)
  {
    TokensAppend(a, b);
  }
  /** Appending no token leaves the table of criteria as it was. */
  lemma NoTokens(t: seq<CriteriaState>, c: nat, ss: seq<Scalar>)
    requires c < |t| && ss == []
    ensures t[c := WithTokens(t[c], ContainsTokens(ss))] == t
    ensures t[c := WithTokens(t[c], AffixTokens(true, ss))] == t
    ensures t[c := WithTokens(t[c], AffixTokens(false, ss))] == t
  {
    assert ContainsTokens(ss) == [] && StartsWithTokens(ss) == [] && EndsWithTokens(ss) == [];
    assert t[c].predicates + [] == t[c].predicates;
  }

  /** startsWith/endsWith on one scalar, in the terms of a list argument: the outcome of
    * the check decides whether its one token is kept. */
  lemma AffixOne(t: seq<CriteriaState>, c: nat, x: Scalar, trailing: bool, o: Outcome)
    requires c < |t| && o == AssertNotBlanks(x)
    ensures o.Fail? <==> !AllWithoutBlanks(Flatten(Atom(x)))
    ensures o.Fail? ==> t == t[c := WithTokens(t[c], AffixTokens(trailing, TakeUntilBlank(Flatten(Atom(x)))))]
    ensures o.Pass? ==>
      t[c := WithToken(t[c], AffixToken(trailing, x))] == t[c := WithTokens(t[c], AffixTokens(trailing, TakeUntilBlank(Flatten(Atom(x)))))]
  {
    var ss := Flatten(Atom(x));
    assert ss == [x];
    assert AllWithoutBlanks(ss) <==> AssertNotBlanks(ss[0]).Pass?;
    if o.Fail? {
      NoTokens(t, c, TakeUntilBlank(ss));
    } else {
      assert TakeUntilBlank(ss) == [x];
      assert AffixTokens(trailing, [x]) == [AffixToken(trailing, x)];
    }
  }
}
