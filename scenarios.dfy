/**
 * One query the library's own tests pin down, derived from the model's operations:
 * connect() followed by andWhere(other) keeps the receiver's terms outside the
 * parentheses and the other expression's terms inside them.
 */
module Scenarios {
  import opened Results
  import opened Formatter
  import opened Tokens
  import opened Tree
  import opened Render
  import opened Predicates

  /** is(v) with a plain string on criteria c, as a step on the whole tables. */
  function IsText(f: Forest, c: CriteriaId, v: string): (g: Forest)
    requires Valid(f) && c < |f.criteria|
    ensures Valid(g)
    ensures g == f.(criteria := f.criteria[c := WithToken(f.criteria[c], ProcessValue(Str(v)))])
  {
    var s := IsValue(f.criteria[c], Atom(Str(v)));
    UpdateCriteriaValid(f, c, s);
    f.(criteria := f.criteria[c := s])
  }

  /** The three criteria of the scenario below, once their values are set. */
  const Z := CriteriaState("z", 0, ["roo"], None, false, false)
  const X := CriteriaState("x", 2, ["foo"], None, false, false)
  const Y := CriteriaState("y", 2, ["bar"], None, false, false)

  /** where('z')->is('roo'), then where('x')->is('foo')->orWhere('y')->is('bar'), then
    * connect() on the first and andWhere(second) on it: andWhere returns the first root's
    * most recent criteria, the first one, whose query is "z:roo AND (x:foo OR y:bar)". */
  lemma ConnectThenAndWhere()
    ensures
      var f1 := IsText(Where(Forest([], []), "z"), 0, "roo");
      var f2 := IsText(Where(f1, "x"), 1, "foo");
      var f3 := IsText(AddField(f2, 1, Or, "y"), 2, "bar");
      var f4 := AddNested(ConnectRoot(f3, 0), 0, And, 1);
      f4.nodes[RootOf(f4, 0)].mostRecent == Some(0) &&
      Terminates(f4, RootOf(f4, 0)) && Query(f4, RootOf(f4, 0)) == "z:roo AND (x:foo OR y:bar)"
  {
    var f1 := IsText(Where(Forest([], []), "z"), 0, "roo");
    FirstPart();
    var f2 := IsText(Where(f1, "x"), 1, "foo");
    SecondPart(f1);
    var f3 := IsText(AddField(f2, 1, Or, "y"), 2, "bar");
    SecondPartOr(f2);
    var f4 := AddNested(ConnectRoot(f3, 0), 0, And, 1);
    Connected(f3);
    assert ConnectedTables(f4);
    RenderConnected(f4);
    QueryAt(f4, 0, 4);
  }

  /** The three values are plain words: is() prints them as they are. */
  lemma PlainWords()
    ensures ProcessValue(Str("roo")) == "roo"
    ensures ProcessValue(Str("foo")) == "foo"
    ensures ProcessValue(Str("bar")) == "bar"
  {
    assert IsPlain("roo") && IsPlain("foo") && IsPlain("bar") by {
      assert "roo" == ['r', 'o', 'o'] && "foo" == ['f', 'o', 'o'] && "bar" == ['b', 'a', 'r'];
    }
    ProcessPlain("roo");
    ProcessPlain("foo");
    ProcessPlain("bar");
  }

  /** where('z')->is('roo'): one root holding one leaf. */
  lemma FirstPart()
    ensures IsText(Where(Forest([], []), "z"), 0, "roo") ==
      Forest([Z], [Crotch(Blank, [1], Some(0), false), Leaf(Blank, 0)])
  {
    PlainWords();
    var w := Where(Forest([], []), "z");
    assert w.criteria == [Fresh("z", 0)];
    assert WithToken(Fresh("z", 0), "roo") == Z;
    assert IsText(w, 0, "roo").criteria == [Fresh("z", 0)][0 := Z];
  }

  /** where('x')->is('foo') next to it: a second root with its leaf. */
  lemma SecondPart(f: Forest)
    requires Valid(f) && f == Forest([Z], [Crotch(Blank, [1], Some(0), false), Leaf(Blank, 0)])
    ensures IsText(Where(f, "x"), 1, "foo") ==
      Forest([Z, X], f.nodes + [Crotch(Blank, [3], Some(1), false), Leaf(Blank, 1)])
  {
    PlainWords();
    var w := Where(f, "x");
    assert w.criteria == [Z, Fresh("x", 2)];
    assert WithToken(Fresh("x", 2), "foo") == X;
    assert IsText(w, 1, "foo").criteria == [Z, Fresh("x", 2)][1 := X];
  }

  /** ->orWhere('y')->is('bar') on the second root: a leaf with the OR operator. */
  lemma SecondPartOr(f: Forest)
    requires Valid(f) && f.criteria == [Z, X]
    requires f.nodes == [Crotch(Blank, [1], Some(0), false), Leaf(Blank, 0), Crotch(Blank, [3], Some(1), false), Leaf(Blank, 1)]
    ensures IsText(AddField(f, 1, Or, "y"), 2, "bar") ==
      Forest([Z, X, Y], [f.nodes[0], f.nodes[1], Crotch(Blank, [3, 4], Some(2), false), f.nodes[3], Leaf(Or, 2)])
  {
    PlainWords();
    OrNodes(f);
    var w := AddField(f, 1, Or, "y");
    assert WithToken(Fresh("y", 2), "bar") == Y;
    assert IsText(w, 2, "bar").criteria == [Z, X, Fresh("y", 2)][2 := Y];
  }

  /** The nodes after ->orWhere('y'): the second root gains the new leaf. */
  lemma OrNodes(f: Forest)
    requires Valid(f) && f.criteria == [Z, X]
    requires f.nodes == [Crotch(Blank, [1], Some(0), false), Leaf(Blank, 0), Crotch(Blank, [3], Some(1), false), Leaf(Blank, 1)]
    ensures AddField(f, 1, Or, "y").nodes ==
      [f.nodes[0], f.nodes[1], Crotch(Blank, [3, 4], Some(2), false), f.nodes[3], Leaf(Or, 2)]
  {
    var n := f.nodes;
    var m := AddField(f, 1, Or, "y").nodes;
    assert |m| == 5 && m[0] == n[0] && m[1] == n[1] && m[3] == n[3] && m[4] == Leaf(Or, 2);
    assert m[2] == Crotch(Blank, [3, 4], Some(2), false);
  }

  /** connect() on the first root, then andWhere(second): the first root holds the group
    * of its old children and a group, carrying AND, around the second root. */
  lemma Connected(f: Forest)
    requires Valid(f) && f.criteria == [Z, X, Y]
    requires f.nodes == [Crotch(Blank, [1], Some(0), false), Leaf(Blank, 0),
      Crotch(Blank, [3, 4], Some(2), false), Leaf(Blank, 1), Leaf(Or, 2)]
    ensures AddNested(ConnectRoot(f, 0), 0, And, 1) ==
      Forest([Z, X, Y], [Crotch(Blank, [5, 6], Some(0), false), f.nodes[1], f.nodes[2], f.nodes[3], f.nodes[4],
        Crotch(Blank, [1], None, false), Crotch(And, [2], None, false)])
  {
    var p := ConnectRoot(f, 0).nodes;
    assert |p| == 6 && p[1] == f.nodes[1] && p[2] == f.nodes[2] && p[3] == f.nodes[3] && p[4] == f.nodes[4];
    assert p[0] == Crotch(Blank, [5], Some(0), false) && p[5] == Crotch(Blank, [1], None, false);
    var q := AddNested(ConnectRoot(f, 0), 0, And, 1).nodes;
    assert |q| == 7 && q[1] == p[1] && q[2] == p[2] && q[3] == p[3] && q[4] == p[4] && q[5] == p[5];
    assert q[0] == Crotch(Blank, [5, 6], Some(0), false) && q[6] == Crotch(And, [2], None, false);
    assert q == [q[0], p[1], p[2], p[3], p[4], p[5], q[6]];
  }

  /** A leaf holding one token, with no flags and no boost, prints field:token. */
  lemma LeafRenders(f: Forest, n: NodeId, top: NodeId, fuel: nat, text: string)
    requires WellIndexed(f) && n < |f.nodes| && f.nodes[n].Leaf? && fuel > 0
    requires var cs := f.criteria[f.nodes[n].criteria];
      cs.boost == None && !cs.isNegating && !cs.isHideFieldName && |cs.predicates| == 1 &&
      text == cs.field + ":" + cs.predicates[0]
    ensures RenderNode(f, n, top, fuel) == Some(OperatorPrefix(f.nodes[n].op) + text)
  {
    var cs := f.criteria[f.nodes[n].criteria];
    assert NodeIndexed(f, f.nodes[n]);
    var a, b := cs.field + ":", JoinSpace(LeafTokens(cs));
    assert b == cs.predicates[0];
    assert LeafText(cs) == "" + a + b + "";
    assert "" + a == a && a + b + "" == a + b;
  }

  /** The nodes connect() and andWhere() leave behind. */
  predicate ConnectedTables(f: Forest)
  {
    f.criteria == [Z, X, Y] &&
    f.nodes == [Crotch(Blank, [5, 6], Some(0), false), Leaf(Blank, 0),
      Crotch(Blank, [3, 4], Some(2), false), Leaf(Blank, 1), Leaf(Or, 2),
      Crotch(Blank, [1], None, false), Crotch(And, [2], None, false)]
  }

  /** The group injected by andWhere renders the second expression in parentheses. */
  lemma RenderInjected(f: Forest)
    requires WellIndexed(f) && ConnectedTables(f)
    ensures RenderNode(f, 6, 0, 3) == Some(" AND (x:foo OR y:bar)")
  {
    assert OperatorPrefix(Blank) == "" && OperatorPrefix(Or) == " OR " && OperatorPrefix(And) == " AND ";
    LeafRenders(f, 3, 0, 1, "x:foo");
    LeafRenders(f, 4, 0, 1, "y:bar");
    InnerSpelling();
    assert [] + [3] == [3] && [3] + [4] == [3, 4] && [] + [2] == [2];
    RenderChildrenSnoc(f, [], 3, 0, 1);
    assert RenderChildren(f, [3], 0, 1) == Some("x:foo");
    RenderChildrenSnoc(f, [3], 4, 0, 1);
    assert RenderChildren(f, [3, 4], 0, 1) == Some("x:foo OR y:bar");
    assert RenderNode(f, 2, 0, 2) == Some("(x:foo OR y:bar)");
    RenderChildrenSnoc(f, [], 2, 0, 2);
    assert RenderChildren(f, [2], 0, 2) == Some("(x:foo OR y:bar)");
  }

  /** The tables the scenario above builds render, from the first root, in four levels. */
  lemma RenderConnected(f: Forest)
    requires WellIndexed(f) && ConnectedTables(f)
    ensures RenderNode(f, 0, 0, 4) == Some("z:roo AND (x:foo OR y:bar)")
  {
    assert OperatorPrefix(Blank) == "";
    LeafRenders(f, 1, 0, 2, "z:roo");
    RenderInjected(f);
    OuterSpelling();
    assert [] + [1] == [1] && [] + [5] == [5] && [5] + [6] == [5, 6];
    RenderChildrenSnoc(f, [], 1, 0, 2);
    assert RenderNode(f, 5, 0, 3) == Some("z:roo");
    RenderChildrenSnoc(f, [], 5, 0, 3);
    RenderChildrenSnoc(f, [5], 6, 0, 3);
    assert RenderChildren(f, [5, 6], 0, 3) == Some("z:roo AND (x:foo OR y:bar)");
  }

  /** A proof aid for RenderInjected: the literal concatenations it needs, kept in a lemma
    * of their own so that they are proved apart from the tables. */
  lemma InnerSpelling()
    ensures "" + "x:foo" == "x:foo"
    ensures "x:foo" + (" OR " + "y:bar") == "x:foo OR y:bar"
    ensures "" + ("(" + "x:foo OR y:bar" + ")") == "(x:foo OR y:bar)"
    ensures "" + "(x:foo OR y:bar)" == "(x:foo OR y:bar)"
    ensures " AND " + ("" + "(x:foo OR y:bar)") == " AND (x:foo OR y:bar)"
  {
    assert "x:foo" + " OR " == "x:foo OR ";
    assert "(" + "x:foo OR y:bar" == "(x:foo OR y:bar";
  }

  /** A proof aid for RenderConnected: the literal concatenations it needs, kept in a lemma
    * of their own so that they are proved apart from the tables. */
  lemma OuterSpelling()
    ensures "" + "z:roo" == "z:roo"
    ensures "" + "z:roo" + " AND (x:foo OR y:bar)" == "z:roo AND (x:foo OR y:bar)"
    ensures "" + "z:roo AND (x:foo OR y:bar)" == "z:roo AND (x:foo OR y:bar)"
  {
  }
}
