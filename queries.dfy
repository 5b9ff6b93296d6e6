/**
 * How each operation of the builder changes the query of the handle it is called on:
 * andWhere/orWhere add one operand, connect adds one pair of parentheses at most,
 * notOperator negates the whole expression, and inject can close a cycle, after which
 * the expression has no query at all.
 */
module Queries {
  import opened Results
  import opened Formatter
  import opened Tokens
  import opened Tree
  import opened Render

  /** Some chain of child links leads from a to b. */
  ghost predicate Reaches(f: Forest, a: NodeId, b: NodeId)
  {
    exists d: nat :: Path(f, a, b, d)
  }

  /** g keeps every node of f except r, and every criteria of f. */
  ghost predicate KeepsAllBut(f: Forest, g: Forest, r: NodeId)
  {
    |f.nodes| <= |g.nodes| && |f.criteria| <= |g.criteria| &&
    (forall n :: 0 <= n < |f.nodes| && n != r ==> g.nodes[n] == f.nodes[n]) &&
    (forall c :: 0 <= c < |f.criteria| ==> g.criteria[c] == f.criteria[c])
  }

  /** Whatever avoids the changed node r sees the same tables in g as in f. */
  lemma AgreeAvoiding(f: Forest, g: Forest, a: NodeId, r: NodeId, top: NodeId, top': NodeId)
    requires WellIndexed(f) && KeepsAllBut(f, g, r)
    requires forall m: NodeId, d: nat :: Path(f, a, m, d) ==> m != r && (m == top <==> m == top')
    ensures AgreeFrom(f, g, a, top, top')
  {
    forall m: NodeId, d: nat | Path(f, a, m, d)
      ensures m < |f.nodes| && (f.nodes[m].Leaf? ==> f.nodes[m].criteria < |f.criteria|)
    {
      PathInRange(f, a, m, d);
      assert NodeIndexed(f, f.nodes[m]);
    }
  }

  /** The operands r already had render alike after a change to r alone: since r renders,
    * none of them leads back to r. */
  lemma OldChildrenAlike(f: Forest, g: Forest, r: NodeId, k: nat)
    requires WellIndexed(f) && WellIndexed(g) && r < |f.nodes| && f.nodes[r].Crotch?
    requires RenderNode(f, r, r, k + 1).Some? && KeepsAllBut(f, g, r)
    ensures (forall i :: 0 <= i < |f.nodes[r].children| ==> f.nodes[r].children[i] < |g.nodes|)
    ensures RenderChildren(g, f.nodes[r].children, r, k) == RenderChildren(f, f.nodes[r].children, r, k)
  {
    var cs := f.nodes[r].children;
    assert NodeIndexed(f, f.nodes[r]);
    forall i | 0 <= i < |cs| ensures AgreeFrom(f, g, cs[i], r, r) {
      forall m: NodeId, d: nat | Path(f, cs[i], m, d) ensures m != r {
        NoPathBack(f, r, r, k + 1, i, m, d);
      }
      AgreeAvoiding(f, g, cs[i], r, r, r);
    }
    RenderChildrenFrame(f, g, cs, r, r, k);
  }

  /** Where the text of a new operand goes: at the end, or just inside the closing
    * parenthesis when the whole expression is negated. */
  function AddOperand(q: string, neg: bool, operand: string): (r: string)
    ensures |r| == |q| + |operand|
    ensures !neg ==> r == q + operand
    ensures neg && q != [] ==> r[..|q| - 1] == q[..|q| - 1] && r[|r| - 1] == q[|q| - 1]
  {
    if neg && q != [] then q[..|q| - 1] + operand + [q[|q| - 1]] else q + operand
  }

  lemma EncloseAddOperand(neg: bool, body: string, operand: string)
    ensures Enclose(neg, neg, body + operand) == AddOperand(Enclose(neg, neg, body), neg, operand)
  {
    if neg {
      var q := "-(" + body + ")";
      assert q[..|q| - 1] == "-(" + body;
    }
  }

  /** A blank-operator group r that renders as the handle's root, given one more child x
    * that renders as operand: the old children keep their text and x's text follows
    * them, inside the group's brackets. */
  lemma AppendOperandRender(f: Forest, g: Forest, r: NodeId, x: NodeId, k: nat, operand: string)
    requires WellIndexed(f) && WellIndexed(g) && r < |f.nodes| && f.nodes[r].Crotch? && f.nodes[r].op == Blank
    requires RenderNode(f, r, r, k + 1).Some? && KeepsAllBut(f, g, r)
    requires g.nodes[r].Crotch? && g.nodes[r] == f.nodes[r].(children := f.nodes[r].children + [x], mostRecent := g.nodes[r].mostRecent)
    requires x < |g.nodes| && RenderNode(g, x, r, k) == Some(operand)
    ensures var neg := f.nodes[r].negatingWholeChildren;
      var body := RenderChildren(f, f.nodes[r].children, r, k);
      body.Some? &&
      RenderNode(f, r, r, k + 1) == Some(Enclose(neg, neg, body.value)) &&
      RenderNode(g, r, r, k + 1) == Some(Enclose(neg, neg, body.value + operand))
  {
    var cs := f.nodes[r].children;
    OldChildrenAlike(f, g, r, k);
    RenderChildrenSnoc(g, cs, x, r, k);
    var neg := f.nodes[r].negatingWholeChildren;
    var body := RenderChildren(f, cs, r, k).value;
    assert OperatorPrefix(Blank) + Enclose(neg, neg, body) == Enclose(neg, neg, body);
    assert OperatorPrefix(Blank) + Enclose(neg, neg, body + operand) == Enclose(neg, neg, body + operand);
  }

  /** AppendOperandRender on the handle's query text: the operand is added to it. */
  lemma AppendOperandQuery(f: Forest, g: Forest, r: NodeId, x: NodeId, k: nat, operand: string)
    requires WellIndexed(f) && WellIndexed(g) && r < |f.nodes| && f.nodes[r].Crotch? && f.nodes[r].op == Blank
    requires RenderNode(f, r, r, k + 1).Some? && KeepsAllBut(f, g, r)
    requires g.nodes[r].Crotch? && g.nodes[r] == f.nodes[r].(children := f.nodes[r].children + [x], mostRecent := g.nodes[r].mostRecent)
    requires x < |g.nodes| && RenderNode(g, x, r, k) == Some(operand)
    ensures r < |g.nodes| && Terminates(f, r) && Terminates(g, r)
    ensures Query(g, r) == AddOperand(Query(f, r), f.nodes[r].negatingWholeChildren, operand)
  {
    AppendOperandRender(f, g, r, x, k, operand);
    EncloseAddOperand(f.nodes[r].negatingWholeChildren, RenderChildren(f, f.nodes[r].children, r, k).value, operand);
    QueryAt(f, r, k + 1);
    QueryAt(g, r, k + 1);
  }

  /** The leaf of a fresh criteria renders as its operator, its field and all values. */
  lemma FreshLeafRender(g: Forest, x: NodeId, top: NodeId, k: nat, op: Operator, field: string, r: NodeId)
    requires WellIndexed(g) && x < |g.nodes| && g.nodes[x].Leaf? && g.nodes[x].op == op && k >= 1
    requires g.nodes[x].criteria < |g.criteria| && g.criteria[g.nodes[x].criteria] == Fresh(field, r)
    ensures RenderNode(g, x, top, k) == Some(OperatorPrefix(op) + field + ":" + AllValues)
  {
    FreshText(field, r);
    assert OperatorPrefix(op) + LeafText(Fresh(field, r)) == OperatorPrefix(op) + field + ":" + AllValues;
  }

  /** A group holding just the leaf of a fresh criteria renders, as its own handle's
    * root, as that criteria's field over all values. */
  lemma FreshRootRender(g: Forest, r: NodeId, c: CriteriaId, field: string)
    requires WellIndexed(g) && r + 1 < |g.nodes| && c < |g.criteria|
    requires g.nodes[r] == Crotch(Blank, [r + 1], Some(c), false) && g.nodes[r + 1] == Leaf(Blank, c)
    requires g.criteria[c] == Fresh(field, r)
    ensures RenderNode(g, r, r, 2) == Some(field + ":" + AllValues)
  {
    FreshLeafRender(g, r + 1, r, 1, Blank, field, r);
    var none: seq<NodeId> := [];
    assert RenderChildren(g, none, r, 1) == Some("");
    RenderChildrenSnoc(g, none, r + 1, r, 1);
    assert none + [r + 1] == [r + 1];
    var t := field + ":" + AllValues;
    assert OperatorPrefix(Blank) + field + ":" + AllValues == t;
    assert "" + t == t;
    assert RenderChildren(g, [r + 1], r, 1) == Some(t);
    assert OperatorPrefix(Blank) + Enclose(false, false, t) == t;
  }

  /** The query of a fresh where(field): the field over all values. */
  lemma WhereQuery(f: Forest, field: string)
    requires Valid(f) && field != ""
    ensures Terminates(Where(f, field), |f.nodes|)
    ensures Query(Where(f, field), |f.nodes|) == field + ":" + AllValues
  {
    var g := Where(f, field);
    var r := |f.nodes|;
    assert g.nodes[r] == Crotch(Blank, [r + 1], Some(|f.criteria|), false) && g.nodes[r + 1] == Leaf(Blank, |f.criteria|);
    FreshRootRender(g, r, |f.criteria|, field);
    QueryAt(g, r, 2);
  }

  /** A root group that renders, given one more leaf child holding a fresh criteria:
    * its query gains that leaf's text as one more operand. */
  lemma AddLeafQuery(f: Forest, g: Forest, r: NodeId, x: NodeId, c: CriteriaId, op: Operator, field: string)
    requires WellIndexed(f) && WellIndexed(g) && r < |f.nodes| && f.nodes[r].Crotch? && f.nodes[r].op == Blank
    requires |f.nodes[r].children| > 0 && Terminates(f, r) && KeepsAllBut(f, g, r)
    requires g.nodes[r].Crotch? && g.nodes[r] == f.nodes[r].(children := f.nodes[r].children + [x], mostRecent := g.nodes[r].mostRecent)
    requires x < |g.nodes| && g.nodes[x] == Leaf(op, c) && c < |g.criteria| && g.criteria[c] == Fresh(field, r)
    ensures Terminates(g, r)
    ensures Query(g, r) == AddOperand(Query(f, r), f.nodes[r].negatingWholeChildren, OperatorPrefix(op) + field + ":" + AllValues)
  {
    var k: nat :| RenderNode(f, r, r, k).Some?;
    var cs := f.nodes[r].children;
    assert NodeIndexed(f, f.nodes[r]);
    RenderChildrenElement(f, cs, r, k - 1, 0);
    FreshLeafRender(g, x, r, k - 1, op, field, r);
    AppendOperandQuery(f, g, r, x, k - 1, OperatorPrefix(op) + field + ":" + AllValues);
  }

  /** andWhere/orWhere(field): the query gains exactly one operand, ' AND field:[* TO *]'
    * or ' OR field:[* TO *]', after the old ones. */
  lemma AddFieldQuery(f: Forest, c: CriteriaId, op: Operator, field: string)
    requires Valid(f) && c < |f.criteria| && op != Blank && field != ""
    requires Terminates(f, RootOf(f, c))
    ensures Terminates(AddField(f, c, op, field), RootOf(f, c))
    ensures Query(AddField(f, c, op, field), RootOf(f, c)) ==
      AddOperand(Query(f, RootOf(f, c)), f.nodes[RootOf(f, c)].negatingWholeChildren,
                 OperatorPrefix(op) + field + ":" + AllValues)
  {
    var r := RootOf(f, c);
    var g := AddField(f, c, op, field);
    assert g.criteria[|f.criteria|] == Fresh(field, r);
    AddLeafQuery(f, g, r, |f.nodes|, |f.criteria|, op, field);
  }

  /** How an expression shows inside another one: its own query, parenthesised when it is
    * an unnegated group of several operands (which its own handle prints bare). */
  ghost function Nested(f: Forest, q: NodeId): string
    requires Terminates(f, q)
  {
    if f.nodes[q].Crotch? && !f.nodes[q].negatingWholeChildren && |f.nodes[q].children| > 1
    then "(" + Query(f, q) + ")" else Query(f, q)
  }

  /** The nested text of a blank group that renders, from the text of its children. */
  lemma NestedAt(f: Forest, q: NodeId, k: nat, body: string)
    requires WellIndexed(f) && q < |f.nodes| && f.nodes[q].Crotch?
    requires RenderNode(f, q, q, k) == Some(Enclose(f.nodes[q].negatingWholeChildren, f.nodes[q].negatingWholeChildren, body))
    ensures Terminates(f, q)
    ensures var neg := f.nodes[q].negatingWholeChildren;
      Nested(f, q) == Enclose(neg, neg || |f.nodes[q].children| > 1, body)
  {
    QueryAt(f, q, k);
  }

  /** The children of a group q that renders, seen from another handle's root r, in a g
    * that changed only r and where q does not lead to r, render as from q's own handle. */
  lemma NestedChildrenAlike(f: Forest, g: Forest, q: NodeId, r: NodeId, k: nat)
    requires WellIndexed(f) && WellIndexed(g) && q < |f.nodes| && f.nodes[q].Crotch?
    requires RenderNode(f, q, q, k + 1).Some? && KeepsAllBut(f, g, r) && !Reaches(f, q, r)
    ensures (forall i :: 0 <= i < |f.nodes[q].children| ==> f.nodes[q].children[i] < |g.nodes|)
    ensures RenderChildren(g, f.nodes[q].children, r, k) == RenderChildren(f, f.nodes[q].children, q, k)
  {
    var csq := f.nodes[q].children;
    assert NodeIndexed(f, f.nodes[q]);
    forall i | 0 <= i < |csq| ensures AgreeFrom(f, g, csq[i], q, r) {
      forall m: NodeId, d: nat | Path(f, csq[i], m, d) ensures m != r && m != q {
        NoPathBack(f, q, q, k + 1, i, m, d);
        PathStep(f, q, i, m, d);
      }
      AgreeAvoiding(f, g, csq[i], r, q, r);
    }
    RenderChildrenFrame(f, g, csq, q, r, k);
  }

  /** The same group q rendered from its own handle and, nested, from r's. */
  lemma NestedRender(f: Forest, g: Forest, q: NodeId, r: NodeId, k: nat)
    requires WellIndexed(f) && WellIndexed(g) && q < |f.nodes| && f.nodes[q].Crotch? && f.nodes[q].op == Blank
    requires RenderNode(f, q, q, k + 1).Some? && KeepsAllBut(f, g, r) && !Reaches(f, q, r)
    ensures var neg := f.nodes[q].negatingWholeChildren;
      var body := RenderChildren(f, f.nodes[q].children, q, k);
      q < |g.nodes| && body.Some? &&
      RenderNode(f, q, q, k + 1) == Some(Enclose(neg, neg, body.value)) &&
      RenderNode(g, q, r, k + 1) == Some(Enclose(neg, neg || |f.nodes[q].children| > 1, body.value))
  {
    assert q != r by { assert Path(f, q, q, 0); }
    NestedChildrenAlike(f, g, q, r, k);
    var csq := f.nodes[q].children;
    var neg := f.nodes[q].negatingWholeChildren;
    var body := RenderChildren(f, csq, q, k).value;
    assert g.nodes[q] == f.nodes[q];
    assert OperatorPrefix(Blank) + Enclose(neg, neg, body) == Enclose(neg, neg, body);
    assert OperatorPrefix(Blank) + Enclose(neg, neg || |csq| > 1, body) == Enclose(neg, neg || |csq| > 1, body);
  }

  /** The group inject creates renders as its operator followed by the injected node. */
  lemma InjectedGroupRender(g: Forest, x: NodeId, q: NodeId, op: Operator, top: NodeId, k: nat)
    requires WellIndexed(g) && x < |g.nodes| && g.nodes[x] == Crotch(op, [q], None, false)
    requires q < |g.nodes| && RenderNode(g, q, top, k).Some?
    ensures RenderNode(g, x, top, k + 1) == Some(OperatorPrefix(op) + RenderNode(g, q, top, k).value)
  {
    var nested := RenderNode(g, q, top, k).value;
    var one: seq<NodeId> := [q];
    RenderChildrenSnoc(g, [], q, top, k);
    assert [] + [q] == one;
    assert RenderChildren(g, one, top, k) == Some("" + nested);
    assert "" + nested == nested;
    assert Enclose(false, false, nested) == nested;
  }

  /** The group inject adds to r's children, around the root q of another expression that
    * renders and does not lead to r, renders from r as its operator and q's nested text. */
  lemma InjectedNestedRender(f: Forest, g: Forest, r: NodeId, x: NodeId, q: NodeId, op: Operator, k: nat)
    requires WellIndexed(f) && WellIndexed(g) && q < |f.nodes| && f.nodes[q].Crotch? && f.nodes[q].op == Blank
    requires RenderNode(f, q, q, k + 1).Some? && !Reaches(f, q, r) && KeepsAllBut(f, g, r)
    requires x < |g.nodes| && g.nodes[x] == Crotch(op, [q], None, false)
    ensures var negq := f.nodes[q].negatingWholeChildren;
      var bodyq := RenderChildren(f, f.nodes[q].children, q, k);
      bodyq.Some? &&
      RenderNode(f, q, q, k + 1) == Some(Enclose(negq, negq, bodyq.value)) &&
      RenderNode(g, x, r, k + 2) == Some(OperatorPrefix(op) + Enclose(negq, negq || |f.nodes[q].children| > 1, bodyq.value))
  {
    NestedRender(f, g, q, r, k);
    InjectedGroupRender(g, x, q, op, r, k + 1);
  }

  /** andWhere/orWhere(other) on the receiver's root r, seen on the queries: r gains one
    * operand, a group carrying op around other's root q, which renders and does not lead to r. */
  lemma AddGroupQuery(f: Forest, g: Forest, r: NodeId, x: NodeId, q: NodeId, op: Operator)
    requires WellIndexed(f) && WellIndexed(g) && r < |f.nodes| && f.nodes[r].Crotch? && f.nodes[r].op == Blank
    requires q < |f.nodes| && f.nodes[q].Crotch? && f.nodes[q].op == Blank
    requires Terminates(f, r) && Terminates(f, q) && !Reaches(f, q, r) && KeepsAllBut(f, g, r)
    requires g.nodes[r].Crotch? && g.nodes[r] == f.nodes[r].(children := f.nodes[r].children + [x], mostRecent := g.nodes[r].mostRecent)
    requires x < |g.nodes| && g.nodes[x] == Crotch(op, [q], None, false)
    ensures Terminates(g, r)
    ensures Query(g, r) == AddOperand(Query(f, r), f.nodes[r].negatingWholeChildren, OperatorPrefix(op) + Nested(f, q))
  {
    var kr: nat :| RenderNode(f, r, r, kr).Some?;
    var kq: nat :| RenderNode(f, q, q, kq).Some?;
    var k := kr + kq;
    RenderNodeMono(f, r, r, kr, k + 3);
    RenderNodeMono(f, q, q, kq, k + 1);
    InjectedNestedRender(f, g, r, x, q, op, k);
    var negq := f.nodes[q].negatingWholeChildren;
    var nested := Enclose(negq, negq || |f.nodes[q].children| > 1, RenderChildren(f, f.nodes[q].children, q, k).value);
    NestedAt(f, q, k + 1, RenderChildren(f, f.nodes[q].children, q, k).value);
    AppendOperandQuery(f, g, r, x, k + 2, OperatorPrefix(op) + nested);
  }

  /** andWhere/orWhere(other) when other's expression does not lead back to the receiver's:
    * the query gains one operand, other's query as Nested shows it. */
  lemma AddNestedQuery(f: Forest, c: CriteriaId, op: Operator, other: CriteriaId)
    requires Valid(f) && c < |f.criteria| && other < |f.criteria| && op != Blank
    requires Terminates(f, RootOf(f, c)) && Terminates(f, RootOf(f, other))
    requires !Reaches(f, RootOf(f, other), RootOf(f, c))
    ensures Terminates(AddNested(f, c, op, other), RootOf(f, c))
    ensures Query(AddNested(f, c, op, other), RootOf(f, c)) ==
      AddOperand(Query(f, RootOf(f, c)), f.nodes[RootOf(f, c)].negatingWholeChildren,
                 OperatorPrefix(op) + Nested(f, RootOf(f, other)))
  {
    var g := AddNested(f, c, op, other);
    AddGroupQuery(f, g, RootOf(f, c), |f.nodes|, RootOf(f, other), op);
  }

  /** A chain from q to r, then a link from r to x and one from x to q: r lies on a cycle. */
  lemma InjectCycle(f: Forest, g: Forest, r: NodeId, x: NodeId, q: NodeId)
    requires WellIndexed(g) && Extends(f, g) && Reaches(f, q, r)
    requires r < |g.nodes| && g.nodes[r].Crotch? && x in g.nodes[r].children
    requires x < |g.nodes| && g.nodes[x].Crotch? && q in g.nodes[x].children
    ensures !Terminates(g, r)
  {
    var d: nat :| Path(f, q, r, d);
    PathExtends(f, g, q, r, d);
    var j :| 0 <= j < |g.nodes[x].children| && g.nodes[x].children[j] == q;
    PathStep(g, x, j, r, d);
    var i :| 0 <= i < |g.nodes[r].children| && g.nodes[r].children[i] == x;
    PathStep(g, r, i, r, d + 1);
    forall k: nat ensures RenderNode(g, r, r, k).None? {
      CycleNeverRenders(g, r, d + 2, r, k);
    }
  }

  /** andWhere/orWhere(other) when other's expression leads back to the receiver's (other
    * is the receiver, or contains it): the expression now contains itself and rendering
    * it never ends. */
  lemma AddNestedCycle(f: Forest, c: CriteriaId, op: Operator, other: CriteriaId)
    requires Valid(f) && c < |f.criteria| && other < |f.criteria| && op != Blank
    requires Reaches(f, RootOf(f, other), RootOf(f, c))
    ensures !Terminates(AddNested(f, c, op, other), RootOf(f, c))
  {
    var r := RootOf(f, c);
    var g := AddNested(f, c, op, other);
    var x := |f.nodes|;
    assert Extends(f, g);
    assert g.nodes[r].children[|f.nodes[r].children|] == x;
    assert g.nodes[x].children[0] == RootOf(f, other);
    InjectCycle(f, g, r, x, RootOf(f, other));
  }

  /** A root group r that renders, after connect moved its children into a new group x. */
  lemma ConnectedQuery(f: Forest, g: Forest, r: NodeId, x: NodeId)
    requires WellIndexed(f) && WellIndexed(g) && r < |f.nodes| && f.nodes[r].Crotch? && f.nodes[r].op == Blank
    requires Terminates(f, r) && KeepsAllBut(f, g, r) && x < |g.nodes| && x != r
    requires g.nodes[r] == f.nodes[r].(children := [x], negatingWholeChildren := false)
    requires g.nodes[x] == Crotch(Blank, f.nodes[r].children, None, f.nodes[r].negatingWholeChildren)
    ensures Terminates(g, r)
    ensures Query(g, r) ==
      if !f.nodes[r].negatingWholeChildren && |f.nodes[r].children| > 1 then "(" + Query(f, r) + ")" else Query(f, r)
  {
    var k: nat :| RenderNode(f, r, r, k).Some?;
    QueryAt(f, r, k);
    OldChildrenAlike(f, g, r, k - 1);
    var cs := f.nodes[r].children;
    var neg := f.nodes[r].negatingWholeChildren;
    var body := RenderChildren(f, cs, r, k - 1).value;
    assert x != r;
    var inner := Enclose(neg, neg || |cs| > 1, body);
    assert RenderNode(g, x, r, k) == Some(OperatorPrefix(Blank) + inner);
    assert OperatorPrefix(Blank) + inner == inner;
    var one: seq<NodeId> := [x];
    RenderChildrenSnoc(g, [], x, r, k);
    assert [] + [x] == one;
    assert RenderChildren(g, one, r, k) == Some("" + inner);
    assert "" + inner == inner;
    assert RenderNode(g, r, r, k + 1) == Some(OperatorPrefix(Blank) + Enclose(false, false, inner));
    assert OperatorPrefix(Blank) + Enclose(false, false, inner) == inner;
    assert OperatorPrefix(Blank) + Enclose(neg, neg, body) == Enclose(neg, neg, body);
    QueryAt(g, r, k + 1);
  }

  /** connect: the whole expression gains one pair of parentheses when it has several
    * operands and is not negated; otherwise its query is unchanged. */
  lemma ConnectQuery(f: Forest, c: CriteriaId)
    requires Valid(f) && c < |f.criteria| && Terminates(f, RootOf(f, c))
    ensures Terminates(ConnectRoot(f, c), RootOf(f, c))
    ensures Query(ConnectRoot(f, c), RootOf(f, c)) ==
      if !f.nodes[RootOf(f, c)].negatingWholeChildren && |f.nodes[RootOf(f, c)].children| > 1
      then "(" + Query(f, RootOf(f, c)) + ")" else Query(f, RootOf(f, c))
  {
    var g := ConnectRoot(f, c);
    ConnectedQuery(f, g, RootOf(f, c), |f.nodes|);
  }

  /** notOperator: the whole expression is negated, once. */
  lemma NotOperatorQuery(f: Forest, c: CriteriaId)
    requires Valid(f) && c < |f.criteria| && Terminates(f, RootOf(f, c))
    ensures Terminates(NegateRoot(f, c), RootOf(f, c))
    ensures Query(NegateRoot(f, c), RootOf(f, c)) ==
      if f.nodes[RootOf(f, c)].negatingWholeChildren then Query(f, RootOf(f, c))
      else "-(" + Query(f, RootOf(f, c)) + ")"
  {
    var r := RootOf(f, c);
    var g := NegateRoot(f, c);
    var k: nat :| RenderNode(f, r, r, k).Some?;
    QueryAt(f, r, k);
    OldChildrenAlike(f, g, r, k - 1);
    QueryAt(g, r, k);
  }

  /** A change to a criteria that no leaf reachable from top holds leaves top's query as
    * it was: separate expressions do not interfere. */
  lemma UnreachableCriteriaQuery(f: Forest, top: NodeId, c: CriteriaId, s: CriteriaState)
    requires Terminates(f, top) && c < |f.criteria|
    requires forall m: NodeId, d: nat :: Path(f, top, m, d) && m < |f.nodes| && f.nodes[m].Leaf? ==> f.nodes[m].criteria != c
    ensures Terminates(f.(criteria := f.criteria[c := s]), top)
    ensures Query(f.(criteria := f.criteria[c := s]), top) == Query(f, top)
  {
    var g := f.(criteria := f.criteria[c := s]);
    var k: nat :| RenderNode(f, top, top, k).Some?;
    forall m: NodeId, d: nat | Path(f, top, m, d)
      ensures m < |f.nodes| && (f.nodes[m].Leaf? ==> f.nodes[m].criteria < |f.criteria|)
    {
      PathInRange(f, top, m, d);
      assert NodeIndexed(f, f.nodes[m]);
    }
    assert WellIndexed(g) by {
      forall n | 0 <= n < |g.nodes| ensures NodeIndexed(g, g.nodes[n]) { assert NodeIndexed(f, f.nodes[n]); }
    }
    RenderNodeFrame(f, g, top, top, top, k);
    QueryAt(f, top, k);
    QueryAt(g, top, k);
  }
}
