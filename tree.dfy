/**
 * The expression tree as two tables: the Criteria objects (predicate leaves) and the
 * Node objects (leaves and "crotch" groups). An object is its index in its table, so
 * the sharing of the source (every Criteria of one expression points at the same root
 * Node; inject stores another expression's root Node itself) is the same index stored in
 * several places. The functions below are the effect of the Node operations on the
 * tables; Search.Arena implements them in place.
 */
module Tree {
  import opened Results

  /** Node::OPERATOR_AND, OPERATOR_OR and OPERATOR_BLANK. */
  datatype Operator = Blank | And | Or

  function OperatorText(op: Operator): string
  {
    match op
      case Blank => ""
      case And => "AND"
      case Or => "OR"
  }

  type NodeId = nat
  type CriteriaId = nat

  /** Node::TYPE_LEAF holds one Criteria; Node::TYPE_CROTCH holds an ordered list of child
    * nodes, the most recently appended Criteria and the negate-all flag. */
  datatype Node =
    | Leaf(op: Operator, criteria: CriteriaId)
    | Crotch(op: Operator, children: seq<NodeId>, mostRecent: Option<CriteriaId>, negatingWholeChildren: bool)

  /** The fields of one Criteria object. */
  datatype CriteriaState = CriteriaState(
    field: string,
    root: NodeId,
    predicates: seq<string>,
    boost: Option<string>,
    isNegating: bool,
    isHideFieldName: bool)

  datatype Forest = Forest(criteria: seq<CriteriaState>, nodes: seq<Node>)

  /** Every reference stored in a node names an existing object. */
  predicate NodeIndexed(f: Forest, node: Node)
  {
    match node
      case Leaf(_, c) => c < |f.criteria|
      case Crotch(_, cs, mr, _) =>
        (forall i :: 0 <= i < |cs| ==> cs[i] < |f.nodes|) && (mr.Some? ==> mr.value < |f.criteria|)
  }

  ghost predicate WellIndexed(f: Forest)
  {
    forall n :: 0 <= n < |f.nodes| ==> NodeIndexed(f, f.nodes[n])
  }

  /** In a group the first child carries the blank operator and every later one AND or OR. */
  ghost predicate ChildOperators(f: Forest, cs: seq<NodeId>)
    requires forall i :: 0 <= i < |cs| ==> cs[i] < |f.nodes|
  {
    forall i :: 0 <= i < |cs| ==> (f.nodes[cs[i]].op == Blank <==> i == 0)
  }

  /** What holds of the root of every expression: a group with the blank operator and at
    * least one child, whose most recent criteria belongs to the same expression. */
  ghost predicate RootOk(f: Forest, r: NodeId)
  {
    r < |f.nodes| && f.nodes[r].Crotch? && f.nodes[r].op == Blank && |f.nodes[r].children| > 0 &&
    f.nodes[r].mostRecent.Some? && f.nodes[r].mostRecent.value < |f.criteria| &&
    f.criteria[f.nodes[r].mostRecent.value].root == r
  }

  ghost predicate CriteriaOk(f: Forest, c: CriteriaState)
  {
    c.field != "" && RootOk(f, c.root) && (c.boost.Some? ==> c.boost.value != "" && c.boost.value != "0")
  }

  /** The invariant every operation of the builder keeps. It says nothing about cycles:
    * inject can close one, and then only rendering fails. */
  ghost predicate Valid(f: Forest)
  {
    WellIndexed(f) &&
    (forall n :: 0 <= n < |f.nodes| && f.nodes[n].Crotch? ==> ChildOperators(f, f.nodes[n].children)) &&
    (forall c :: 0 <= c < |f.criteria| ==> CriteriaOk(f, f.criteria[c]))
  }

  /** The root of a criteria's expression. */
  function RootOf(f: Forest, c: CriteriaId): NodeId
    requires c < |f.criteria|
  {
    f.criteria[c].root
  }

  /** new Node(TYPE_CROTCH, OPERATOR_BLANK): a fresh, empty, unnegated group. */
  function NewRoot(f: Forest): Forest
  {
    f.(nodes := f.nodes + [Crotch(Blank, [], None, false)])
  }

  /** A new empty group that no criteria uses yet breaks nothing. */
  lemma NewRootValid(f: Forest)
    requires Valid(f)
    ensures Valid(NewRoot(f))
  {
    var g := NewRoot(f);
    forall n | 0 <= n < |g.nodes| ensures NodeIndexed(g, g.nodes[n]) {
      if n < |f.nodes| { assert NodeIndexed(f, f.nodes[n]); }
    }
    forall n | 0 <= n < |g.nodes| && g.nodes[n].Crotch? ensures ChildOperators(g, g.nodes[n].children) {
      if n < |f.nodes| {
        assert NodeIndexed(f, f.nodes[n]);
        assert ChildOperators(f, f.nodes[n].children);
      }
    }
    forall k | 0 <= k < |g.criteria| ensures CriteriaOk(g, g.criteria[k]) {
      assert CriteriaOk(f, f.criteria[k]);
    }
  }

  /** A criteria as new Criteria(field, root) leaves it: no predicates, no boost, no flags. */
  function Fresh(field: string, r: NodeId): CriteriaState
  {
    CriteriaState(field, r, [], None, false, false)
  }

  /** new Criteria(field, root) added to the table. */
  function NewCriteria(f: Forest, field: string, r: NodeId): Forest
  {
    f.(criteria := f.criteria + [Fresh(field, r)])
  }

  /** Node::append: one new leaf child at the end, which becomes the most recent criteria;
    * no other node changes. */
  function Append(f: Forest, r: NodeId, op: Operator, c: CriteriaId): (g: Forest)
    requires r < |f.nodes| && f.nodes[r].Crotch?
    ensures g.criteria == f.criteria && |g.nodes| == |f.nodes| + 1
    ensures g.nodes[|f.nodes|] == Leaf(op, c)
    ensures g.nodes[r] == f.nodes[r].(children := f.nodes[r].children + [|f.nodes|], mostRecent := Some(c))
    ensures forall n :: 0 <= n < |f.nodes| && n != r ==> g.nodes[n] == f.nodes[n]
  {
    var node := f.nodes[r];
    f.(nodes := f.nodes[r := node.(children := node.children + [|f.nodes|], mostRecent := Some(c))] + [Leaf(op, c)])
  }

  /** Node::inject: one new group child at the end, carrying op and holding the injected
    * root itself (shared, not copied); the most recent criteria and the flag stay. */
  function Inject(f: Forest, r: NodeId, op: Operator, q: NodeId): (g: Forest)
    requires r < |f.nodes| && f.nodes[r].Crotch?
    ensures g.criteria == f.criteria && |g.nodes| == |f.nodes| + 1
    ensures g.nodes[|f.nodes|] == Crotch(op, [q], None, false)
    ensures g.nodes[r] == f.nodes[r].(children := f.nodes[r].children + [|f.nodes|])
    ensures forall n :: 0 <= n < |f.nodes| && n != r ==> g.nodes[n] == f.nodes[n]
  {
    var node := f.nodes[r];
    f.(nodes := f.nodes[r := node.(children := node.children + [|f.nodes|])] + [Crotch(op, [q], None, false)])
  }

  /** Node::connect: the children move, in order, into one new blank-operator group that
    * takes over the negate-all flag; the node keeps only that group and loses the flag. */
  function Connect(f: Forest, r: NodeId): (g: Forest)
    requires r < |f.nodes| && f.nodes[r].Crotch?
    ensures g.criteria == f.criteria && |g.nodes| == |f.nodes| + 1
    ensures g.nodes[|f.nodes|] == Crotch(Blank, f.nodes[r].children, None, f.nodes[r].negatingWholeChildren)
    ensures g.nodes[r] == f.nodes[r].(children := [|f.nodes|], negatingWholeChildren := false)
    ensures forall n :: 0 <= n < |f.nodes| && n != r ==> g.nodes[n] == f.nodes[n]
  {
    var node := f.nodes[r];
    f.(nodes := f.nodes[r := node.(children := [|f.nodes|], negatingWholeChildren := false)] +
                [Crotch(Blank, node.children, None, node.negatingWholeChildren)])
  }

  /** Node::setNegatingWholeChildren: only the flag of r changes. */
  function SetNegatingWholeChildren(f: Forest, r: NodeId, b: bool): (g: Forest)
    requires r < |f.nodes| && f.nodes[r].Crotch?
    ensures g.criteria == f.criteria && |g.nodes| == |f.nodes|
    ensures g.nodes[r] == f.nodes[r].(negatingWholeChildren := b)
    ensures forall n :: 0 <= n < |f.nodes| && n != r ==> g.nodes[n] == f.nodes[n]
  {
    f.(nodes := f.nodes[r := f.nodes[r].(negatingWholeChildren := b)])
  }

  /** Setting the flag twice is setting it once. */
  lemma SetNegatingIdempotent(f: Forest, r: NodeId, b: bool)
    requires r < |f.nodes| && f.nodes[r].Crotch?
    ensures SetNegatingWholeChildren(SetNegatingWholeChildren(f, r, b), r, b) == SetNegatingWholeChildren(f, r, b)
  {
    var g := SetNegatingWholeChildren(f, r, b);
    assert g.nodes[r := g.nodes[r].(negatingWholeChildren := b)] == g.nodes;
  }

  /** Criteria::where: a new root group, a new criteria on it, appended with the blank operator. */
  function Where(f: Forest, field: string): (g: Forest)
    requires Valid(f) && field != ""
    ensures Valid(g)
    ensures g.criteria == f.criteria + [Fresh(field, |f.nodes|)]
    ensures g.nodes == f.nodes + [Crotch(Blank, [|f.nodes| + 1], Some(|f.criteria|), false), Leaf(Blank, |f.criteria|)]
  {
    var r := |f.nodes|;
    var f1 := NewCriteria(NewRoot(f), field, r);
    var g := Append(f1, r, Blank, |f.criteria|);
    assert g.nodes[r + 1] == Leaf(Blank, |f.criteria|);
    assert forall n :: 0 <= n < r ==> g.nodes[n] == f.nodes[n];
    assert forall c :: 0 <= c < |f.criteria| ==> g.criteria[c] == f.criteria[c];
    assert forall c :: 0 <= c < |f.criteria| ==> CriteriaOk(g, g.criteria[c]);
    assert g.nodes[r] == Crotch(Blank, [r + 1], Some(|f.criteria|), false);
    assert g.nodes == f.nodes + [g.nodes[r], g.nodes[r + 1]];
    g
  }

  /** andWhere/orWhere with a field name: a new criteria on the receiver's root, appended
    * with AND or OR; it becomes the root's most recent criteria. */
  function AddField(f: Forest, c: CriteriaId, op: Operator, field: string): (g: Forest)
    requires Valid(f) && c < |f.criteria| && op != Blank && field != ""
    ensures Valid(g)
    ensures g.criteria == f.criteria + [Fresh(field, RootOf(f, c))]
    ensures |g.nodes| == |f.nodes| + 1 && g.nodes[|f.nodes|] == Leaf(op, |f.criteria|)
    ensures g.nodes[RootOf(f, c)] ==
      f.nodes[RootOf(f, c)].(children := f.nodes[RootOf(f, c)].children + [|f.nodes|], mostRecent := Some(|f.criteria|))
    ensures forall n :: 0 <= n < |f.nodes| && n != RootOf(f, c) ==> g.nodes[n] == f.nodes[n]
  {
    var r := RootOf(f, c);
    var g := Append(NewCriteria(f, field, r), r, op, |f.criteria|);
    AddFieldValid(f, g, r, op, field);
    g
  }

  /** AddField is Append of a new criteria on the receiver's root. */
  lemma AddFieldIs(f: Forest, c: CriteriaId, op: Operator, field: string)
    requires Valid(f) && c < |f.criteria| && op != Blank && field != ""
    ensures AddField(f, c, op, field) == Append(NewCriteria(f, field, RootOf(f, c)), RootOf(f, c), op, |f.criteria|)
  {
  }

  /** The invariant survives a new leaf child of root r holding a new criteria of r. */
  lemma AddFieldValid(f: Forest, g: Forest, r: NodeId, op: Operator, field: string)
    requires Valid(f) && RootOk(f, r) && op != Blank && field != ""
    requires g.criteria == f.criteria + [Fresh(field, r)]
    requires |g.nodes| == |f.nodes| + 1 && g.nodes[|f.nodes|] == Leaf(op, |f.criteria|)
    requires g.nodes[r] == f.nodes[r].(children := f.nodes[r].children + [|f.nodes|], mostRecent := Some(|f.criteria|))
    requires forall n :: 0 <= n < |f.nodes| && n != r ==> g.nodes[n] == f.nodes[n]
    ensures Valid(g)
  {
    assert forall n :: 0 <= n < |f.nodes| ==> g.nodes[n].op == f.nodes[n].op;
    assert WellIndexed(g) by {
      forall n | 0 <= n < |g.nodes| ensures NodeIndexed(g, g.nodes[n]) {
        if n < |f.nodes| { assert NodeIndexed(f, f.nodes[n]); }
      }
    }
    forall n | 0 <= n < |g.nodes| && g.nodes[n].Crotch? ensures ChildOperators(g, g.nodes[n].children) {
      assert NodeIndexed(f, f.nodes[n]);
      assert ChildOperators(f, f.nodes[n].children);
    }
    forall k | 0 <= k < |g.criteria| ensures CriteriaOk(g, g.criteria[k]) {
      if k < |f.criteria| {
        assert g.criteria[k] == f.criteria[k];
        assert CriteriaOk(f, f.criteria[k]);
      }
    }
  }

  /** andWhere/orWhere with another expression: its root is injected under the receiver's
    * root with AND or OR; the most recent criteria is left as it was. */
  function AddNested(f: Forest, c: CriteriaId, op: Operator, other: CriteriaId): (g: Forest)
    requires Valid(f) && c < |f.criteria| && other < |f.criteria| && op != Blank
    ensures Valid(g)
    ensures g.criteria == f.criteria && |g.nodes| == |f.nodes| + 1
    ensures g.nodes[|f.nodes|] == Crotch(op, [RootOf(f, other)], None, false)
    ensures g.nodes[RootOf(f, c)] == f.nodes[RootOf(f, c)].(children := f.nodes[RootOf(f, c)].children + [|f.nodes|])
    ensures forall n :: 0 <= n < |f.nodes| && n != RootOf(f, c) ==> g.nodes[n] == f.nodes[n]
  {
    var r := RootOf(f, c);
    var g := Inject(f, r, op, RootOf(f, other));
    AddNestedValid(f, g, r, op, RootOf(f, other));
    g
  }

  /** AddNested is Inject of the other root under the receiver's root. */
  lemma AddNestedIs(f: Forest, c: CriteriaId, op: Operator, other: CriteriaId)
    requires Valid(f) && c < |f.criteria| && other < |f.criteria| && op != Blank
    ensures AddNested(f, c, op, other) == Inject(f, RootOf(f, c), op, RootOf(f, other))
  {
  }

  /** The invariant survives a new group child of root r, carrying op around root q. */
  lemma AddNestedValid(f: Forest, g: Forest, r: NodeId, op: Operator, q: NodeId)
    requires Valid(f) && RootOk(f, r) && RootOk(f, q) && op != Blank
    requires g.criteria == f.criteria && |g.nodes| == |f.nodes| + 1
    requires g.nodes[|f.nodes|] == Crotch(op, [q], None, false)
    requires g.nodes[r] == f.nodes[r].(children := f.nodes[r].children + [|f.nodes|])
    requires forall n :: 0 <= n < |f.nodes| && n != r ==> g.nodes[n] == f.nodes[n]
    ensures Valid(g)
  {
    assert forall n :: 0 <= n < |f.nodes| ==> g.nodes[n].op == f.nodes[n].op;
    assert WellIndexed(g) by {
      forall n | 0 <= n < |g.nodes| ensures NodeIndexed(g, g.nodes[n]) {
        if n < |f.nodes| { assert NodeIndexed(f, f.nodes[n]); }
      }
    }
    forall n | 0 <= n < |g.nodes| && g.nodes[n].Crotch? ensures ChildOperators(g, g.nodes[n].children) {
      if n < |f.nodes| {
        assert NodeIndexed(f, f.nodes[n]);
        assert ChildOperators(f, f.nodes[n].children);
      }
    }
    forall k | 0 <= k < |g.criteria| ensures CriteriaOk(g, g.criteria[k]) {
      assert CriteriaOk(f, f.criteria[k]);
    }
  }

  /** Criteria::connect on the receiver's root. */
  function ConnectRoot(f: Forest, c: CriteriaId): (g: Forest)
    requires Valid(f) && c < |f.criteria|
    ensures Valid(g)
    ensures g.criteria == f.criteria && |g.nodes| == |f.nodes| + 1
    ensures g.nodes[|f.nodes|] == Crotch(Blank, f.nodes[RootOf(f, c)].children, None, f.nodes[RootOf(f, c)].negatingWholeChildren)
    ensures g.nodes[RootOf(f, c)] == f.nodes[RootOf(f, c)].(children := [|f.nodes|], negatingWholeChildren := false)
    ensures forall n :: 0 <= n < |f.nodes| && n != RootOf(f, c) ==> g.nodes[n] == f.nodes[n]
  {
    var r := RootOf(f, c);
    var g := Connect(f, r);
    ConnectRootValid(f, g, r);
    g
  }

  /** The invariant survives moving the children of root r into one new group. */
  lemma ConnectRootValid(f: Forest, g: Forest, r: NodeId)
    requires Valid(f) && RootOk(f, r)
    requires g.criteria == f.criteria && |g.nodes| == |f.nodes| + 1
    requires g.nodes[|f.nodes|] == Crotch(Blank, f.nodes[r].children, None, f.nodes[r].negatingWholeChildren)
    requires g.nodes[r] == f.nodes[r].(children := [|f.nodes|], negatingWholeChildren := false)
    requires forall n :: 0 <= n < |f.nodes| && n != r ==> g.nodes[n] == f.nodes[n]
    ensures Valid(g)
  {
    assert forall n :: 0 <= n < |f.nodes| ==> g.nodes[n].op == f.nodes[n].op;
    assert WellIndexed(g) by {
      forall n | 0 <= n < |g.nodes| ensures NodeIndexed(g, g.nodes[n]) {
        if n < |f.nodes| { assert NodeIndexed(f, f.nodes[n]); } else { assert NodeIndexed(f, f.nodes[r]); }
      }
    }
    forall n | 0 <= n < |g.nodes| && g.nodes[n].Crotch? ensures ChildOperators(g, g.nodes[n].children) {
      if n < |f.nodes| && n != r {
        assert NodeIndexed(f, f.nodes[n]);
        assert ChildOperators(f, f.nodes[n].children);
      } else if n == |f.nodes| {
        assert NodeIndexed(f, f.nodes[r]);
        assert ChildOperators(f, f.nodes[r].children);
      }
    }
    forall k | 0 <= k < |g.criteria| ensures CriteriaOk(g, g.criteria[k]) {
      assert CriteriaOk(f, f.criteria[k]);
    }
  }

  /** Criteria::notOperator: sets the negate-all flag of the receiver's root. */
  function NegateRoot(f: Forest, c: CriteriaId): (g: Forest)
    requires Valid(f) && c < |f.criteria|
    ensures Valid(g)
    ensures g.criteria == f.criteria && |g.nodes| == |f.nodes|
    ensures g.nodes[RootOf(f, c)] == f.nodes[RootOf(f, c)].(negatingWholeChildren := true)
    ensures forall n :: 0 <= n < |f.nodes| && n != RootOf(f, c) ==> g.nodes[n] == f.nodes[n]
  {
    var r := RootOf(f, c);
    var g := SetNegatingWholeChildren(f, r, true);
    assert forall n :: 0 <= n < |f.nodes| ==> g.nodes[n].op == f.nodes[n].op;
    assert forall k :: 0 <= k < |f.criteria| ==> CriteriaOk(g, g.criteria[k]);
    g
  }

  /** A criteria with one more predicate token. */
  function WithToken(c: CriteriaState, token: string): CriteriaState
  {
    c.(predicates := c.predicates + [token])
  }

  /** Changing the predicates, negation or field-prefix flag of a criteria keeps the
    * invariant, and so does a boost that PHP reads as true. */
  lemma UpdateCriteriaValid(f: Forest, c: CriteriaId, s: CriteriaState)
    requires Valid(f) && c < |f.criteria|
    requires s.field == f.criteria[c].field && s.root == f.criteria[c].root
    requires s.boost.Some? ==> s.boost.value != "" && s.boost.value != "0"
    ensures Valid(f.(criteria := f.criteria[c := s]))
  {
    var g := f.(criteria := f.criteria[c := s]);
    forall k | 0 <= k < |g.criteria| ensures CriteriaOk(g, g.criteria[k]) {
      assert CriteriaOk(f, f.criteria[k]);
      var r := g.criteria[k].root;
      var m := g.nodes[r].mostRecent.value;
      assert g.criteria[m].root == f.criteria[m].root;
    }
  }

  /** There is a chain of d child links leading from node a to node b. */
  ghost predicate Path(f: Forest, a: NodeId, b: NodeId, d: nat)
    decreases d
  {
    a < |f.nodes| &&
    if d == 0 then a == b
    else
      f.nodes[a].Crotch? &&
      exists i :: 0 <= i < |f.nodes[a].children| && Path(f, f.nodes[a].children[i], b, d - 1)
  }

  /** g only adds to f: new nodes at the end, every old group keeps its children as a
    * prefix of its new list, every old leaf stays. */
  ghost predicate Extends(f: Forest, g: Forest)
  {
    |f.nodes| <= |g.nodes| &&
    forall n :: 0 <= n < |f.nodes| ==>
      (f.nodes[n].Leaf? ==> g.nodes[n] == f.nodes[n]) &&
      (f.nodes[n].Crotch? ==> g.nodes[n].Crotch? && f.nodes[n].children <= g.nodes[n].children)
  }

  /** A chain of links in f is still one after the tree is extended. */
  lemma {:induction false} PathExtends(f: Forest, g: Forest, a: NodeId, b: NodeId, d: nat)
    requires Extends(f, g) && Path(f, a, b, d)
    ensures Path(g, a, b, d)
    decreases d
  {
    if d > 0 {
      var cs := f.nodes[a].children;
      var i :| 0 <= i < |cs| && Path(f, cs[i], b, d - 1);
      PathExtends(f, g, cs[i], b, d - 1);
      assert g.nodes[a].children[i] == cs[i];
    }
  }

  /** append and inject remove nothing: every node reachable before is reachable after,
    * along the same links. */
  lemma AppendInjectKeepPaths(f: Forest, r: NodeId, op: Operator, x: nat, a: NodeId, b: NodeId, d: nat)
    requires r < |f.nodes| && f.nodes[r].Crotch? && Path(f, a, b, d)
    ensures Path(Append(f, r, op, x), a, b, d)
    ensures Path(Inject(f, r, op, x), a, b, d)
  {
    PathExtends(f, Append(f, r, op, x), a, b, d);
    PathExtends(f, Inject(f, r, op, x), a, b, d);
  }

  /** connect moves the children of r one level down, intact: every node reachable before
    * is still reachable, through the new group where the chain went through r. */
  lemma {:induction false} ConnectKeepsPaths(f: Forest, r: NodeId, a: NodeId, b: NodeId, d: nat)
    requires r < |f.nodes| && f.nodes[r].Crotch? && Path(f, a, b, d)
    ensures exists e: nat :: Path(Connect(f, r), a, b, e)
    decreases d
  {
    var g := Connect(f, r);
    if d == 0 {
      assert Path(g, a, b, 0);
    } else {
      var cs := f.nodes[a].children;
      var i :| 0 <= i < |cs| && Path(f, cs[i], b, d - 1);
      ConnectKeepsPaths(f, r, cs[i], b, d - 1);
      var e: nat :| Path(g, cs[i], b, e);
      if a == r {
        var x := |f.nodes|;
        assert g.nodes[x].children[i] == cs[i];
        assert Path(g, x, b, e + 1);
        assert g.nodes[r].children[0] == x;
        assert Path(g, r, b, e + 2);
      } else {
        assert g.nodes[a].children[i] == cs[i];
        assert Path(g, a, b, e + 1);
      }
    }
  }

  /** The new group of connect has the old children in the old order. */
  lemma ConnectKeepsOrder(f: Forest, r: NodeId)
    requires r < |f.nodes| && f.nodes[r].Crotch?
    ensures var g := Connect(f, r);
      |g.nodes[r].children| == 1 && g.nodes[g.nodes[r].children[0]].children == f.nodes[r].children
  {
  }
}
