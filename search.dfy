/**
 * The Criteria and Node objects of one PHP process, as one arena whose two tables the
 * methods update in place. A Criteria object is its index in `criteria` (the handle the
 * fluent calls return), a Node object its index in `nodes`. Every method states its new
 * tables as a function of the old ones, and keeps the invariant Tree.Valid.
 */
module Search {
  import opened Results
  import opened Formatter
  import opened Tokens
  import opened Tree
  import opened Render
  import opened Predicates

  /** The argument of andWhere/orWhere: a field name, or another criteria. */
  datatype Operand = Field(name: string) | Other(handle: CriteriaId)

  /** The predicate loop of traverse: the tokens with one space between neighbours. */
  method Join(ts: seq<string>) returns (q: string)
    ensures q == JoinSpace(ts)
  {
    q := "";
    var i := 0;
    while i < |ts|
      invariant 0 <= i <= |ts|
      invariant q == JoinSpace(ts[..i]) + (if 0 < i < |ts| then " " else "")
    {
      JoinSpaceSnoc(ts[..i], ts[i]);
      assert ts[..i + 1] == ts[..i] + [ts[i]];
      q := q + ts[i];
      if i + 1 != |ts| {
        q := q + " ";
      }
      i := i + 1;
    }
    assert ts[..|ts|] == ts;
  }

  class Arena {
    /** Every Criteria object, by handle. */
    var criteria: seq<CriteriaState>
    /** Every Node object, by identity. */
    var nodes: seq<Node>

    function Snapshot(): Forest
      reads this
    {
      Forest(criteria, nodes)
    }

    ghost predicate Valid()
      reads this
    {
      Tree.Valid(Snapshot())
    }

    constructor ()
      ensures criteria == [] && nodes == [] && Valid()
    {
      criteria := [];
      nodes := [];
    }

    /*
     * Node (src/Internal/Node.php): the mutators, on the node with identity r.
     */

    /** new Node(TYPE_CROTCH, OPERATOR_BLANK). */
    method NewGroup() returns (r: NodeId)
      modifies this
      ensures r == |old(nodes)| && Snapshot() == NewRoot(old(Snapshot()))
    {
      r := |nodes|;
      nodes := nodes + [Crotch(Blank, [], None, false)];
    }

    /** Node::append. */
    method AppendLeaf(r: NodeId, op: Operator, c: CriteriaId)
      requires r < |nodes| && nodes[r].Crotch?
      modifies this
      ensures Snapshot() == Append(old(Snapshot()), r, op, c)
    {
      var node := nodes[r];
      nodes := nodes[r := node.(children := node.children + [|nodes|], mostRecent := Some(c))] + [Leaf(op, c)];
    }

    /** Node::inject. */
    method InjectGroup(r: NodeId, op: Operator, q: NodeId)
      requires r < |nodes| && nodes[r].Crotch?
      modifies this
      ensures Snapshot() == Inject(old(Snapshot()), r, op, q)
    {
      var node := nodes[r];
      nodes := nodes[r := node.(children := node.children + [|nodes|])] + [Crotch(op, [q], None, false)];
    }

    /** Node::connect. */
    method ConnectChildren(r: NodeId)
      requires r < |nodes| && nodes[r].Crotch?
      modifies this
      ensures Snapshot() == Tree.Connect(old(Snapshot()), r)
    {
      var node := nodes[r];
      var group := Crotch(Blank, node.children, None, node.negatingWholeChildren);
      nodes := nodes[r := node.(children := [|nodes|], negatingWholeChildren := false)] + [group];
    }

    /** Node::setNegatingWholeChildren. */
    method SetNegating(r: NodeId, b: bool)
      requires r < |nodes| && nodes[r].Crotch?
      modifies this
      ensures Snapshot() == SetNegatingWholeChildren(old(Snapshot()), r, b)
    {
      nodes := nodes[r := nodes[r].(negatingWholeChildren := b)];
    }

    /*
     * Criteria (src/Criteria.php): construction and combination.
     */

    /** The private constructor: a criteria on root r, refused for an empty field name. */
    method NewCriteriaOn(field: string, r: NodeId) returns (res: Result<CriteriaId>)
      modifies this
      ensures field == "" ==> res == Err(EmptyFieldName) && Snapshot() == old(Snapshot())
      ensures field != "" ==> res == Ok(|old(criteria)|) && Snapshot() == NewCriteria(old(Snapshot()), field, r)
    {
      if field == "" {
        return Err(EmptyFieldName);
      }
      res := Ok(|criteria|);
      criteria := criteria + [Fresh(field, r)];
    }

    /** Criteria::where. The root group is created before the field name is checked, so a
      * refused name leaves one empty group that nothing refers to. */
    method Where(field: string) returns (res: Result<CriteriaId>)
      requires Valid()
      modifies this
      ensures Valid()
      ensures field == "" ==> res == Err(EmptyFieldName) && Snapshot() == NewRoot(old(Snapshot()))
      ensures field != "" ==> res == Ok(|old(criteria)|) && Snapshot() == Tree.Where(old(Snapshot()), field)
    {
      NewRootValid(Snapshot());
      var root := NewGroup();
      res := NewCriteriaOn(field, root);
      if res.Ok? {
        AppendLeaf(root, Blank, res.value);
      }
    }

    /** andWhere/orWhere with a field name: a new criteria on the receiver's root, appended
      * to it with op, which is then the root's most recent criteria and is returned. */
    method CombineField(c: CriteriaId, op: Operator, name: string) returns (res: Result<CriteriaId>)
      requires Valid() && c < |criteria| && op != Blank
      modifies this
      ensures Valid()
      ensures name == "" ==> res == Err(EmptyFieldName) && Snapshot() == old(Snapshot())
      ensures name != "" ==> res == Ok(|old(criteria)|) && Snapshot() == AddField(old(Snapshot()), c, op, name)
    {
      ghost var f := Snapshot();
      var root := criteria[c].root;
      res := NewCriteriaOn(name, root);
      if res.Ok? {
        AppendLeaf(root, op, res.value);
        AddFieldIs(f, c, op, name);
        res := Ok(nodes[root].mostRecent.value);
      }
    }

    /** andWhere/orWhere with another criteria: its root is injected under a new group
      * carrying op, and the receiver root's most recent criteria is returned. */
    method CombineOther(c: CriteriaId, op: Operator, other: CriteriaId) returns (res: Result<CriteriaId>)
      requires Valid() && c < |criteria| && other < |criteria| && op != Blank
      modifies this
      ensures Valid()
      ensures res == Ok(old(nodes[criteria[c].root].mostRecent.value))
      ensures Snapshot() == AddNested(old(Snapshot()), c, op, other)
    {
      ghost var f := Snapshot();
      var root := criteria[c].root;
      InjectGroup(root, op, criteria[other].root);
      AddNestedIs(f, c, op, other);
      res := Ok(nodes[root].mostRecent.value);
    }

    method Combine(c: CriteriaId, op: Operator, operand: Operand) returns (res: Result<CriteriaId>)
      requires Valid() && c < |criteria| && op != Blank
      requires operand.Other? ==> operand.handle < |criteria|
      modifies this
      ensures Valid()
      ensures operand == Field("") ==> res == Err(EmptyFieldName) && Snapshot() == old(Snapshot())
      ensures operand.Field? && operand.name != "" ==>
        res == Ok(|old(criteria)|) && Snapshot() == AddField(old(Snapshot()), c, op, operand.name)
      ensures operand.Other? ==>
        res == Ok(old(nodes[criteria[c].root].mostRecent.value)) && Snapshot() == AddNested(old(Snapshot()), c, op, operand.handle)
    {
      match operand
      case Other(h) =>
        res := CombineOther(c, op, h);
      case Field(name) =>
        res := CombineField(c, op, name);
    }

    /** Criteria::andWhere. */
    method AndWhere(c: CriteriaId, operand: Operand) returns (res: Result<CriteriaId>)
      requires Valid() && c < |criteria| && (operand.Other? ==> operand.handle < |criteria|)
      modifies this
      ensures Valid()
      ensures operand == Field("") ==> res == Err(EmptyFieldName) && Snapshot() == old(Snapshot())
      ensures operand.Field? && operand.name != "" ==>
        res == Ok(|old(criteria)|) && Snapshot() == AddField(old(Snapshot()), c, And, operand.name)
      ensures operand.Other? ==>
        res == Ok(old(nodes[criteria[c].root].mostRecent.value)) && Snapshot() == AddNested(old(Snapshot()), c, And, operand.handle)
    {
      res := Combine(c, And, operand);
    }

    /** Criteria::orWhere. */
    method OrWhere(c: CriteriaId, operand: Operand) returns (res: Result<CriteriaId>)
      requires Valid() && c < |criteria| && (operand.Other? ==> operand.handle < |criteria|)
      modifies this
      ensures Valid()
      ensures operand == Field("") ==> res == Err(EmptyFieldName) && Snapshot() == old(Snapshot())
      ensures operand.Field? && operand.name != "" ==>
        res == Ok(|old(criteria)|) && Snapshot() == AddField(old(Snapshot()), c, Or, operand.name)
      ensures operand.Other? ==>
        res == Ok(old(nodes[criteria[c].root].mostRecent.value)) && Snapshot() == AddNested(old(Snapshot()), c, Or, operand.handle)
    {
      res := Combine(c, Or, operand);
    }

    /** Criteria::connect. */
    method Connect(c: CriteriaId)
      requires Valid() && c < |criteria|
      modifies this
      ensures Valid() && Snapshot() == ConnectRoot(old(Snapshot()), c)
    {
      ConnectChildren(criteria[c].root);
    }

    /** Criteria::notOperator. */
    method NotOperator(c: CriteriaId)
      requires Valid() && c < |criteria|
      modifies this
      ensures Valid() && Snapshot() == NegateRoot(old(Snapshot()), c)
    {
      SetNegating(criteria[c].root, true);
    }

    /*
     * Criteria: the predicate methods, on the criteria with handle c.
     */

    /** $this->predicates[] = token. */
    method Push(c: CriteriaId, token: string)
      requires Valid() && c < |criteria|
      modifies this
      ensures Valid() && nodes == old(nodes)
      ensures criteria == old(criteria)[c := WithToken(old(criteria[c]), token)]
    {
      UpdateCriteriaValid(Snapshot(), c, WithToken(criteria[c], token));
      criteria := criteria[c := WithToken(criteria[c], token)];
    }

    /** Criteria::between: null bounds stand for '*'. */
    method Between(c: CriteriaId, lower: Scalar, upper: Scalar, includeLower: bool, includeUpper: bool)
      requires Valid() && c < |criteria|
      modifies this
      ensures Valid() && nodes == old(nodes)
      ensures criteria == old(criteria)[c := WithToken(old(criteria[c]), RangeToken(lower, upper, includeLower, includeUpper))]
    {
      var lo := if lower == Null then Str("*") else lower;
      var hi := if upper == Null then Str("*") else upper;
      Push(c, (if includeLower then "[" else "{") + ProcessValue(lo) + " TO " + ProcessValue(hi) + (if includeUpper then "]" else "}"));
    }

    /** Criteria::lessThanEqual: [* TO upper]. */
    method LessThanEqual(c: CriteriaId, upper: Scalar)
      requires Valid() && c < |criteria|
      modifies this
      ensures Valid() && nodes == old(nodes)
      ensures criteria == old(criteria)[c := WithToken(old(criteria[c]), RangeToken(Null, upper, true, true))]
    {
      Between(c, Null, upper, true, true);
    }

    /** Criteria::lessThan: [* TO upper}. */
    method LessThan(c: CriteriaId, upper: Scalar)
      requires Valid() && c < |criteria|
      modifies this
      ensures Valid() && nodes == old(nodes)
      ensures criteria == old(criteria)[c := WithToken(old(criteria[c]), RangeToken(Null, upper, true, false))]
    {
      Between(c, Null, upper, true, false);
    }

    /** Criteria::greaterThan: {lower TO *]. */
    method GreaterThan(c: CriteriaId, lower: Scalar)
      requires Valid() && c < |criteria|
      modifies this
      ensures Valid() && nodes == old(nodes)
      ensures criteria == old(criteria)[c := WithToken(old(criteria[c]), RangeToken(lower, Null, false, true))]
    {
      Between(c, lower, Null, false, true);
    }

    /** Criteria::greaterThanEqual: [lower TO *]. */
    method GreaterThanEqual(c: CriteriaId, lower: Scalar)
      requires Valid() && c < |criteria|
      modifies this
      ensures Valid() && nodes == old(nodes)
      ensures criteria == old(criteria)[c := WithToken(old(criteria[c]), RangeToken(lower, Null, true, true))]
    {
      Between(c, lower, Null, true, true);
    }

    /** Criteria::not. */
    method Not(c: CriteriaId)
      requires Valid() && c < |criteria|
      modifies this
      ensures Valid() && nodes == old(nodes)
      ensures criteria == old(criteria)[c := old(criteria[c]).(isNegating := true)]
    {
      UpdateCriteriaValid(Snapshot(), c, criteria[c].(isNegating := true));
      criteria := criteria[c := criteria[c].(isNegating := true)];
    }

    /** Criteria::isNull: all values, negated. */
    method IsNull(c: CriteriaId)
      requires Valid() && c < |criteria|
      modifies this
      ensures Valid() && nodes == old(nodes)
      ensures criteria == old(criteria)[c := WithToken(old(criteria[c]), AllValues).(isNegating := true)]
    {
      Between(c, Null, Null, true, true);
      Not(c);
    }

    /** Criteria::isNotNull: all values. */
    method IsNotNull(c: CriteriaId)
      requires Valid() && c < |criteria|
      modifies this
      ensures Valid() && nodes == old(nodes)
      ensures criteria == old(criteria)[c := WithToken(old(criteria[c]), AllValues)]
    {
      Between(c, Null, Null, true, true);
    }

    /** Criteria::is. */
    method Is(c: CriteriaId, v: Value)
      requires Valid() && c < |criteria|
      modifies this
      ensures Valid() && nodes == old(nodes)
      ensures criteria == old(criteria)[c := IsValue(old(criteria[c]), v)]
      decreases Size(v), 1
    {
      match v
      case Atom(Null) =>
        IsNull(c);
      case Array(items) =>
        In(c, items);
      case Atom(x) =>
        Push(c, ProcessValue(x));
    }

    /** Criteria::in: each entry in order, a nested list through in() itself. */
    method In(c: CriteriaId, values: seq<Value>)
      requires Valid() && c < |criteria|
      modifies this
      ensures Valid() && nodes == old(nodes)
      ensures criteria == old(criteria)[c := InValues(old(criteria[c]), values)]
      decreases SizeAll(values), 2
    {
      ghost var s0 := criteria[c];
      ghost var t0 := criteria;
      for i := 0 to |values|
        invariant Valid() && nodes == old(nodes)
        invariant criteria == t0[c := InValues(s0, values[..i])]
      {
        SizeAllBounds(values, i);
        assert values[..i + 1][..i] == values[..i];
        match values[i]
        case Array(items) =>
          In(c, items);
        case Atom(_) =>
          Is(c, values[i]);
      }
      assert values[..|values|] == values;
    }

    /** Criteria::withinCircle and Criteria::nearCircle: the radius is checked, then the
      * filter token is appended and the field prefix hidden. */
    method Circle(c: CriteriaId, g: GeoFilter, latitude: Number, longitude: Number, distance: Number) returns (o: Outcome)
      requires Valid() && c < |criteria|
      modifies this
      ensures Valid() && nodes == old(nodes)
      ensures o == AssertPositiveFloat(distance.value)
      ensures o.Fail? ==> criteria == old(criteria)
      ensures o.Pass? ==> criteria == old(criteria)[c :=
        WithToken(old(criteria[c]), CircleToken(g, latitude, longitude, old(criteria[c].field), distance)).(isHideFieldName := true)]
    {
      o := AssertPositiveFloat(distance.value);
      if o.Fail? {
        return;
      }
      Push(c, "{!" + GeoFilterName(g) + " pt=" + ProcessFloat(latitude.text) + "," + ProcessFloat(longitude.text) +
              " sfield=" + criteria[c].field + " d=" + ProcessFloat(distance.text) + "}");
      UpdateCriteriaValid(Snapshot(), c, criteria[c].(isHideFieldName := true));
      criteria := criteria[c := criteria[c].(isHideFieldName := true)];
    }

    /** Criteria::withinCircle. */
    method WithinCircle(c: CriteriaId, latitude: Number, longitude: Number, distance: Number) returns (o: Outcome)
      requires Valid() && c < |criteria|
      modifies this
      ensures Valid() && nodes == old(nodes)
      ensures o.Fail? <==> distance.value < 0.0
      ensures o.Fail? ==> o == Fail(NegativeDistance) && criteria == old(criteria)
      ensures o.Pass? ==> criteria == old(criteria)[c :=
        WithToken(old(criteria[c]), CircleToken(GeoFilt, latitude, longitude, old(criteria[c].field), distance)).(isHideFieldName := true)]
    {
      o := Circle(c, GeoFilt, latitude, longitude, distance);
    }

    /** Criteria::nearCircle. */
    method NearCircle(c: CriteriaId, latitude: Number, longitude: Number, distance: Number) returns (o: Outcome)
      requires Valid() && c < |criteria|
      modifies this
      ensures Valid() && nodes == old(nodes)
      ensures o.Fail? <==> distance.value < 0.0
      ensures o.Fail? ==> o == Fail(NegativeDistance) && criteria == old(criteria)
      ensures o.Pass? ==> criteria == old(criteria)[c :=
        WithToken(old(criteria[c]), CircleToken(BBox, latitude, longitude, old(criteria[c].field), distance)).(isHideFieldName := true)]
    {
      o := Circle(c, BBox, latitude, longitude, distance);
    }

    /** Criteria::withinBox: no check, and the field prefix stays. */
    method WithinBox(c: CriteriaId, startLatitude: Number, startLongitude: Number, endLatitude: Number, endLongitude: Number)
      requires Valid() && c < |criteria|
      modifies this
      ensures Valid() && nodes == old(nodes)
      ensures criteria == old(criteria)[c :=
        WithToken(old(criteria[c]), BoxToken(startLatitude, startLongitude, endLatitude, endLongitude))]
    {
      Push(c, BoxToken(startLatitude, startLongitude, endLatitude, endLongitude));
    }

    /** Criteria::contains: '*term*' for every scalar of the argument, nested lists included. */
    method Contains(c: CriteriaId, v: Value)
      requires Valid() && c < |criteria|
      modifies this
      ensures Valid() && nodes == old(nodes)
      ensures criteria == old(criteria)[c := WithTokens(old(criteria[c]), ContainsTokens(Flatten(v)))]
      decreases Size(v), 1
    {
      match v
      case Atom(x) =>
        Push(c, "*" + ProcessValue(x) + "*");
        assert ContainsTokens(Flatten(v)) == [ContainsToken(x)];
      case Array(items) =>
        ContainsAll(c, items);
    }

    /** contains() on each entry of a list argument, in order. */
    method ContainsAll(c: CriteriaId, items: seq<Value>)
      requires Valid() && c < |criteria|
      modifies this
      ensures Valid() && nodes == old(nodes)
      ensures criteria == old(criteria)[c := WithTokens(old(criteria[c]), ContainsTokens(FlattenAll(items)))]
      decreases SizeAll(items), 2
    {
      ghost var s0 := criteria[c];
      ghost var t0 := criteria;
      NoTokens(t0, c, FlattenAll(items[..0]));
      for i := 0 to |items|
        invariant Valid() && nodes == old(nodes)
        invariant criteria == t0[c := WithTokens(s0, ContainsTokens(FlattenAll(items[..i])))]
      {
        SizeAllBounds(items, i);
        ghost var before := FlattenAll(items[..i]);
        Contains(c, items[i]);
        FlattenAllSnoc(items, i);
        TokensAppend(before, Flatten(items[i]));
        WithTokensAppend(s0, ContainsTokens(before), ContainsTokens(Flatten(items[i])));
      }
      assert items[..|items|] == items;
    }

    /** startsWith/endsWith on one scalar: checked, then appended with the wildcard. */
    method AffixScalar(c: CriteriaId, x: Scalar, trailing: bool) returns (o: Outcome)
      requires Valid() && c < |criteria|
      modifies this
      ensures Valid() && nodes == old(nodes)
      ensures o == AssertNotBlanks(x)
      ensures o.Fail? ==> criteria == old(criteria)
      ensures o.Pass? ==> criteria == old(criteria)[c := WithToken(old(criteria[c]), AffixToken(trailing, x))]
    {
      o := AssertNotBlanks(x);
      if o.Pass? {
        Push(c, if trailing then ProcessValue(x) + "*" else "*" + ProcessValue(x));
      }
    }

    /** Criteria::startsWith and Criteria::endsWith: every scalar of the argument, in
      * order, is checked and then appended with the wildcard; the first term the check
      * rejects ends the call, and what was appended before it stays. */
    method Affix(c: CriteriaId, v: Value, trailing: bool) returns (o: Outcome)
      requires Valid() && c < |criteria|
      modifies this
      ensures Valid() && nodes == old(nodes)
      ensures o.Fail? <==> !AllWithoutBlanks(Flatten(v))
      ensures o.Fail? ==> o.error == BlanksInPattern
      ensures criteria == old(criteria)[c := WithTokens(old(criteria[c]), AffixTokens(trailing, TakeUntilBlank(Flatten(v))))]
      decreases Size(v), 1
    {
      match v
      case Atom(x) =>
        o := AffixScalar(c, x, trailing);
        AffixOne(old(criteria), c, x, trailing, o);
      case Array(items) =>
        o := AffixAll(c, items, trailing);
    }

    /** startsWith/endsWith on each entry of a list argument, until one fails. */
    method AffixAll(c: CriteriaId, items: seq<Value>, trailing: bool) returns (o: Outcome)
      requires Valid() && c < |criteria|
      modifies this
      ensures Valid() && nodes == old(nodes)
      ensures o.Fail? <==> !AllWithoutBlanks(FlattenAll(items))
      ensures o.Fail? ==> o.error == BlanksInPattern
      ensures criteria == old(criteria)[c := WithTokens(old(criteria[c]), AffixTokens(trailing, TakeUntilBlank(FlattenAll(items))))]
      decreases SizeAll(items), 2
    {
      ghost var s0 := criteria[c];
      ghost var t0 := criteria;
      NoTokens(t0, c, FlattenAll(items[..0]));
      var i := 0;
      while i < |items|
        invariant 0 <= i <= |items|
        invariant Valid() && nodes == old(nodes)
        invariant AllWithoutBlanks(FlattenAll(items[..i]))
        invariant criteria == t0[c := WithTokens(s0, AffixTokens(trailing, FlattenAll(items[..i])))]
      {
        SizeAllBounds(items, i);
        ghost var before := FlattenAll(items[..i]);
        o := Affix(c, items[i], trailing);
        ghost var kept := TakeUntilBlank(Flatten(items[i]));
        AffixTokensAppend(trailing, before, kept);
        WithTokensAppend(s0, AffixTokens(trailing, before), AffixTokens(trailing, kept));
        if o.Fail? {
          TakeUntilBlankStops(items, i);
          return;
        }
        TakeUntilBlankAll(Flatten(items[i]));
        TakeUntilBlankContinues(items, i);
        i := i + 1;
      }
      assert items[..|items|] == items;
      TakeUntilBlankAll(FlattenAll(items));
      o := Pass;
    }

    /** Criteria::startsWith. */
    method StartsWith(c: CriteriaId, v: Value) returns (o: Outcome)
      requires Valid() && c < |criteria|
      modifies this
      ensures Valid() && nodes == old(nodes)
      ensures o.Fail? <==> !AllWithoutBlanks(Flatten(v))
      ensures o.Fail? ==> o.error == BlanksInPattern
      ensures criteria == old(criteria)[c := WithTokens(old(criteria[c]), StartsWithTokens(TakeUntilBlank(Flatten(v))))]
    {
      o := Affix(c, v, true);
    }

    /** Criteria::endsWith. */
    method EndsWith(c: CriteriaId, v: Value) returns (o: Outcome)
      requires Valid() && c < |criteria|
      modifies this
      ensures Valid() && nodes == old(nodes)
      ensures o.Fail? <==> !AllWithoutBlanks(Flatten(v))
      ensures o.Fail? ==> o.error == BlanksInPattern
      ensures criteria == old(criteria)[c := WithTokens(old(criteria[c]), EndsWithTokens(TakeUntilBlank(Flatten(v))))]
    {
      o := Affix(c, v, false);
    }

    /** Criteria::fuzzy. */
    method Fuzzy(c: CriteriaId, v: Scalar, distance: Option<Number>) returns (o: Outcome)
      requires Valid() && c < |criteria|
      modifies this
      ensures Valid() && nodes == old(nodes)
      ensures o == FuzzyCheck(distance)
      ensures o.Fail? ==> criteria == old(criteria)
      ensures o.Pass? ==> criteria == old(criteria)[c := WithToken(old(criteria[c]), FuzzyToken(v, distance))]
    {
      if distance.Some? && (distance.value.value < 0.0 || distance.value.value > 1.0) {
        return Fail(FuzzyDistanceOutOfBounds);
      }
      Push(c, ProcessValue(v) + "~" + (if distance.None? then "" else ProcessFloat(distance.value.text)));
      o := Pass;
    }

    /** Criteria::sloppy. */
    method Sloppy(c: CriteriaId, phrase: string, distance: Number) returns (o: Outcome)
      requires Valid() && c < |criteria|
      modifies this
      ensures Valid() && nodes == old(nodes)
      ensures o == SloppyCheck(phrase, distance)
      ensures o.Fail? ==> criteria == old(criteria)
      ensures o.Pass? ==> criteria == old(criteria)[c := WithToken(old(criteria[c]), SloppyToken(phrase, distance))]
    {
      if distance.value <= 0.0 {
        return Fail(SlopNotPositive);
      }
      if StrPos(phrase, ' ').None? {
        return Fail(SloppySingleTerm);
      }
      Push(c, ProcessValue(Str(phrase)) + "~" + distance.text);
      o := Pass;
    }

    /** Criteria::expression: the text is appended as it is, unescaped. */
    method Expression(c: CriteriaId, e: string)
      requires Valid() && c < |criteria|
      modifies this
      ensures Valid() && nodes == old(nodes)
      ensures criteria == old(criteria)[c := WithToken(old(criteria[c]), e)]
    {
      Push(c, e);
    }

    /** Criteria::boost: a negative factor is refused; otherwise the formatted factor
      * replaces any earlier one. */
    method Boost(c: CriteriaId, factor: Number) returns (o: Outcome)
      requires Valid() && c < |criteria|
      modifies this
      ensures Valid() && nodes == old(nodes)
      ensures o == BoostCheck(factor)
      ensures o.Fail? ==> criteria == old(criteria)
      ensures o.Pass? ==> criteria == old(criteria)[c := old(criteria[c]).(boost := Some(ProcessFloat(factor.text)))]
    {
      if factor.value < 0.0 {
        return Fail(NegativeBoost);
      }
      UpdateCriteriaValid(Snapshot(), c, criteria[c].(boost := Some(ProcessFloat(factor.text))));
      criteria := criteria[c := criteria[c].(boost := Some(ProcessFloat(factor.text)))];
      o := Pass;
    }

    /*
     * Criteria: rendering.
     */

    /** Criteria::traverse for the handle whose root is top, from node n. It fills every
      * empty criteria it meets with "[* TO *]" and returns what RenderNode gives on the
      * tables as they were when rendering began (f0), which it never changes otherwise. */
    method Traverse(top: NodeId, n: NodeId, ghost f0: Forest, ghost k: nat) returns (q: string)
      requires Tree.Valid(f0) && n < |f0.nodes| && RenderNode(f0, n, top, k).Some?
      requires MaterializedFrom(f0, Snapshot())
      modifies this
      ensures MaterializedFrom(f0, Snapshot())
      ensures q == RenderNode(f0, n, top, k).value
      decreases k, 1
    {
      var node := nodes[n];
      assert NodeIndexed(f0, node);
      match node
      case Crotch(op, cs, _, neg) =>
        var addsParentheses := neg || (n != top && |cs| > 1);
        var body := TraverseChildren(top, cs, f0, k - 1);
        q := OperatorPrefix(op) + Enclose(neg, addsParentheses, body);
      case Leaf(op, c) =>
        var text := TraverseLeaf(c, f0);
        q := OperatorPrefix(op) + text;
    }

    /** The children loop of traverse on a group: the children's texts one after another. */
    method TraverseChildren(top: NodeId, cs: seq<NodeId>, ghost f0: Forest, ghost fuel: nat) returns (body: string)
      requires Tree.Valid(f0) && (forall i :: 0 <= i < |cs| ==> cs[i] < |f0.nodes|)
      requires RenderChildren(f0, cs, top, fuel).Some?
      requires MaterializedFrom(f0, Snapshot())
      modifies this
      ensures MaterializedFrom(f0, Snapshot())
      ensures body == RenderChildren(f0, cs, top, fuel).value
      decreases fuel + 1, 0
    {
      body := "";
      for i := 0 to |cs|
        invariant MaterializedFrom(f0, Snapshot())
        invariant RenderChildren(f0, cs[..i], top, fuel).Some?
        invariant body == RenderChildren(f0, cs[..i], top, fuel).value
      {
        RenderChildrenElement(f0, cs, top, fuel, i);
        var t := Traverse(top, cs[i], f0, fuel);
        assert cs[..i + 1] == cs[..i] + [cs[i]];
        RenderChildrenSnoc(f0, cs[..i], cs[i], top, fuel);
        body := body + t;
      }
      assert cs[..|cs|] == cs;
    }

    /** traverse on a leaf: an empty criteria first gets isNotNull(); then the negation, the
      * field prefix, the predicates (in parentheses when there were more than one) and a
      * boost PHP reads as true. */
    method TraverseLeaf(c: CriteriaId, ghost f0: Forest) returns (text: string)
      requires Tree.Valid(f0) && c < |f0.criteria| && MaterializedFrom(f0, Snapshot())
      modifies this
      ensures MaterializedFrom(f0, Snapshot())
      ensures text == LeafText(f0.criteria[c])
    {
      ghost var cur := criteria[c];
      var count := |criteria[c].predicates|;
      var addsParentheses := count > 1;
      if count == 0 {
        MaterializedValid(f0, Snapshot());
        ghost var g := Snapshot();
        IsNotNull(c);
        MaterializeOne(f0, g, c);
        count := 1;
      }
      var s := criteria[c];
      MaterializedLeaf(f0.criteria[c], cur, s, addsParentheses);
      var negation := if s.isNegating then "-" else "";
      var prefix := if s.isHideFieldName then "" else s.field + ":";
      var joined := Join(s.predicates);
      var predicates := if addsParentheses then "(" + joined + ")" else joined;
      var boost := if s.boost.Some? && PhpTruthyString(s.boost.value) then "^" + s.boost.value else "";
      text := negation + prefix + predicates + boost;
    }

    /** Criteria::getQuery: the query of c's expression, rendered from c's root. It is
      * Query on the tables as they were, and rendering again gives the same string. */
    method GetQuery(c: CriteriaId) returns (q: string)
      requires Valid() && c < |criteria| && Terminates(Snapshot(), criteria[c].root)
      modifies this
      ensures Valid() && MaterializedFrom(old(Snapshot()), Snapshot())
      ensures q == Query(old(Snapshot()), RootOf(old(Snapshot()), c))
      ensures Terminates(Snapshot(), RootOf(old(Snapshot()), c)) && Query(Snapshot(), RootOf(old(Snapshot()), c)) == q
    {
      ghost var f0 := Snapshot();
      var root := criteria[c].root;
      ghost var k: nat :| RenderNode(f0, root, root, k).Some?;
      q := Traverse(root, root, f0, k);
      QueryAt(f0, root, k);
      MaterializedValid(f0, Snapshot());
      MaterializedRendersAlike(f0, Snapshot(), root, root, k);
      QueryAt(Snapshot(), root, k);
    }

    /** Criteria::__toString: the same traversal as getQuery. */
    method ToString(c: CriteriaId) returns (q: string)
      requires Valid() && c < |criteria| && Terminates(Snapshot(), criteria[c].root)
      modifies this
      ensures Valid() && MaterializedFrom(old(Snapshot()), Snapshot())
      ensures q == Query(old(Snapshot()), RootOf(old(Snapshot()), c))
      ensures Terminates(Snapshot(), RootOf(old(Snapshot()), c)) && Query(Snapshot(), RootOf(old(Snapshot()), c)) == q
    {
      q := GetQuery(c);
    }
  }
}
