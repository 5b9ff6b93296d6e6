/**
 * The query string Criteria::traverse produces, as a function of the tables. Since
 * inject can close a cycle, the function takes a fuel bound and gives None when the
 * bound is too small; a query exists exactly when some bound suffices.
 */
module Render {
  import opened Results
  import opened Formatter
  import opened Tokens
  import opened Tree

  /** The text traverse puts before a node with an AND or OR operator. */
  function OperatorPrefix(op: Operator): string
  {
    if op == Blank then "" else " " + OperatorText(op) + " "
  }

  /** The tokens separated by single spaces. */
  function JoinSpace(ts: seq<string>): string
  {
    if |ts| == 0 then ""
    else if |ts| == 1 then ts[0]
    else JoinSpace(ts[..|ts| - 1]) + " " + ts[|ts| - 1]
  }

  lemma JoinSpaceSnoc(ts: seq<string>, t: string)
    ensures JoinSpace(ts + [t]) == if ts == [] then t else JoinSpace(ts) + " " + t
  {
    assert (ts + [t])[..|ts|] == ts;
  }

  /** The tokens a leaf prints: an empty criteria stands for "[* TO *]". */
  function LeafTokens(cs: CriteriaState): (ts: seq<string>)
    ensures |ts| >= 1
    ensures cs.predicates != [] ==> ts == cs.predicates
  {
    if cs.predicates == [] then [AllValues] else cs.predicates
  }

  /** What traverse leaves behind on a leaf: isNotNull() on an empty criteria. */
  function Materialize(cs: CriteriaState): CriteriaState
  {
    if cs.predicates == [] then cs.(predicates := [AllValues]) else cs
  }

  /** Text of one leaf: '-' when negated, 'field:' unless hidden, the tokens (in parentheses
    * when there are more than one), then '^boost' when a boost is set. */
  function LeafText(cs: CriteriaState): string
  {
    (if cs.isNegating then "-" else "") +
    (if cs.isHideFieldName then "" else cs.field + ":") +
    (if |cs.predicates| > 1 then "(" + JoinSpace(LeafTokens(cs)) + ")" else JoinSpace(LeafTokens(cs))) +
    (if cs.boost.Some? && PhpTruthyString(cs.boost.value) then "^" + cs.boost.value else "")
  }

  /** The "[* TO *]" traverse appends to an empty criteria does not change its text, and
    * doing it again changes nothing. */
  lemma MaterializeKeepsText(cs: CriteriaState)
    ensures LeafText(Materialize(cs)) == LeafText(cs)
    ensures Materialize(Materialize(cs)) == Materialize(cs)
    ensures Materialize(cs).predicates != []
  {
  }

  /** A fresh criteria prints its field over all values. */
  lemma FreshText(field: string, r: NodeId)
    ensures LeafText(Fresh(field, r)) == field + ":" + AllValues
  {
  }

  /** A group prints '-' when it negates all its children, and parentheses when it negates
    * them or when it is not the root of the rendering handle and has more than one child. */
  function Enclose(neg: bool, parens: bool, body: string): string
  {
    (if neg then "-" else "") + (if parens then "(" + body + ")" else body)
  }

  /** traverse($node) with the rendering handle's root top, or None if fuel runs out. */
  function RenderNode(f: Forest, n: NodeId, top: NodeId, fuel: nat): Option<string>
    requires WellIndexed(f) && n < |f.nodes|
    decreases fuel, 0
  {
    if fuel == 0 then None
    else match f.nodes[n]
      case Leaf(op, c) => Some(OperatorPrefix(op) + LeafText(f.criteria[c]))
      case Crotch(op, cs, _, neg) =>
        assert NodeIndexed(f, f.nodes[n]);
        match RenderChildren(f, cs, top, fuel - 1)
          case None => None
          case Some(body) => Some(OperatorPrefix(op) + Enclose(neg, neg || (n != top && |cs| > 1), body))
  }

  /** A leaf always renders; every rendering starts with the node's operator prefix, and a
    * negated group's rendering continues with "-(" and ends with ")". */
  lemma RenderNodeShape(f: Forest, n: NodeId, top: NodeId, fuel: nat)
    requires WellIndexed(f) && n < |f.nodes|
    ensures fuel > 0 && f.nodes[n].Leaf? ==> RenderNode(f, n, top, fuel).Some?
    ensures RenderNode(f, n, top, fuel).Some? ==> fuel > 0 && OperatorPrefix(f.nodes[n].op) <= RenderNode(f, n, top, fuel).value
    ensures RenderNode(f, n, top, fuel).Some? && f.nodes[n].Crotch? && f.nodes[n].negatingWholeChildren ==>
      var t := RenderNode(f, n, top, fuel).value;
      OperatorPrefix(f.nodes[n].op) + "-(" <= t && t[|t| - 1] == ')'
  {
    var r := RenderNode(f, n, top, fuel);
    if r.Some? {
      var p := OperatorPrefix(f.nodes[n].op);
      match f.nodes[n]
      case Leaf(_, c) =>
        assert r.value == p + LeafText(f.criteria[c]);
      case Crotch(_, cs, _, neg) =>
        var body := RenderChildren(f, cs, top, fuel - 1).value;
        var e := Enclose(neg, neg || (n != top && |cs| > 1), body);
        assert r.value == p + e;
        if neg {
          assert e == "-(" + body + ")";
          assert r.value == (p + "-(") + body + ")";
        }
    }
  }

  /** The concatenated texts of the nodes cs, in order. */
  function RenderChildren(f: Forest, cs: seq<NodeId>, top: NodeId, fuel: nat): Option<string>
    requires WellIndexed(f) && forall i :: 0 <= i < |cs| ==> cs[i] < |f.nodes|
    decreases fuel, |cs| + 1
  {
    if cs == [] then Some("")
    else match RenderChildren(f, cs[..|cs| - 1], top, fuel)
      case None => None
      case Some(init) =>
        match RenderNode(f, cs[|cs| - 1], top, fuel)
          case None => None
          case Some(last) => Some(init + last)
  }

  lemma RenderChildrenSnoc(f: Forest, cs: seq<NodeId>, c: NodeId, top: NodeId, fuel: nat)
    requires WellIndexed(f) && (forall i :: 0 <= i < |cs| ==> cs[i] < |f.nodes|) && c < |f.nodes|
    ensures RenderChildren(f, cs + [c], top, fuel) ==
      if RenderChildren(f, cs, top, fuel).Some? && RenderNode(f, c, top, fuel).Some?
      then Some(RenderChildren(f, cs, top, fuel).value + RenderNode(f, c, top, fuel).value)
      else None
  {
    assert (cs + [c])[..|cs|] == cs;
  }

  /** Rendering a list succeeds only when every element renders. */
  lemma {:induction false} RenderChildrenElement(f: Forest, cs: seq<NodeId>, top: NodeId, fuel: nat, i: nat)
    requires WellIndexed(f) && forall j :: 0 <= j < |cs| ==> cs[j] < |f.nodes|
    requires RenderChildren(f, cs, top, fuel).Some? && i < |cs|
    ensures RenderNode(f, cs[i], top, fuel).Some?
    decreases |cs|
  {
    if i < |cs| - 1 {
      RenderChildrenElement(f, cs[..|cs| - 1], top, fuel, i);
    }
  }

  /** More fuel never changes a rendering that already succeeded. */
  lemma {:induction false} RenderNodeMono(f: Forest, n: NodeId, top: NodeId, k: nat, k': nat)
    requires WellIndexed(f) && n < |f.nodes|
    requires RenderNode(f, n, top, k).Some? && k <= k'
    ensures RenderNode(f, n, top, k') == RenderNode(f, n, top, k)
    decreases k, 0
  {
    if f.nodes[n].Crotch? {
      assert NodeIndexed(f, f.nodes[n]);
      RenderChildrenMono(f, f.nodes[n].children, top, k - 1, k' - 1);
    }
  }

  lemma {:induction false} RenderChildrenMono(f: Forest, cs: seq<NodeId>, top: NodeId, k: nat, k': nat)
    requires WellIndexed(f) && forall i :: 0 <= i < |cs| ==> cs[i] < |f.nodes|
    requires RenderChildren(f, cs, top, k).Some? && k <= k'
    ensures RenderChildren(f, cs, top, k') == RenderChildren(f, cs, top, k)
    decreases k, |cs| + 1
  {
    if cs != [] {
      RenderChildrenMono(f, cs[..|cs| - 1], top, k, k');
      RenderNodeMono(f, cs[|cs| - 1], top, k, k');
    }
  }

  /** Rendering from top terminates: some fuel bound suffices. */
  ghost predicate Terminates(f: Forest, top: NodeId)
  {
    WellIndexed(f) && top < |f.nodes| && exists k: nat :: RenderNode(f, top, top, k).Some?
  }

  /** getQuery() on a handle whose expression root is top. */
  ghost function Query(f: Forest, top: NodeId): string
    requires Terminates(f, top)
  {
    var k: nat :| RenderNode(f, top, top, k).Some?;
    RenderNode(f, top, top, k).value
  }

  /** Any fuel bound that suffices gives the query. */
  lemma QueryAt(f: Forest, top: NodeId, k: nat)
    requires WellIndexed(f) && top < |f.nodes| && RenderNode(f, top, top, k).Some?
    ensures Terminates(f, top) && Query(f, top) == RenderNode(f, top, top, k).value
  {
    var j: nat :| RenderNode(f, top, top, j).Some? && Query(f, top) == RenderNode(f, top, top, j).value;
    if j <= k { RenderNodeMono(f, top, top, j, k); } else { RenderNodeMono(f, top, top, k, j); }
  }

  /** A rendering that succeeds with fuel k reaches every node on a chain of d links
    * from its start, with fuel to spare. */
  lemma {:induction false} PathFuel(f: Forest, a: NodeId, b: NodeId, d: nat, top: NodeId, k: nat)
    requires WellIndexed(f) && Path(f, a, b, d) && RenderNode(f, a, top, k).Some?
    ensures d < k && b < |f.nodes| && RenderNode(f, b, top, k - d).Some?
    decreases d
  {
    if d > 0 {
      var cs := f.nodes[a].children;
      var i :| 0 <= i < |cs| && Path(f, cs[i], b, d - 1);
      ChildFuel(f, a, top, k, i);
      PathFuel(f, cs[i], b, d - 1, top, k - 1);
      assert k - 1 - (d - 1) == k - d;
    } else {
      assert a == b && k > 0;
    }
  }

  /** Every child of a group that renders with fuel k renders with fuel k - 1. */
  lemma ChildFuel(f: Forest, a: NodeId, top: NodeId, k: nat, i: nat)
    requires WellIndexed(f) && a < |f.nodes| && f.nodes[a].Crotch? && i < |f.nodes[a].children|
    requires RenderNode(f, a, top, k).Some?
    ensures k >= 1 && f.nodes[a].children[i] < |f.nodes| && RenderNode(f, f.nodes[a].children[i], top, k - 1).Some?
  {
    assert NodeIndexed(f, f.nodes[a]);
    RenderChildrenElement(f, f.nodes[a].children, top, k - 1, i);
  }

  /** A node that lies on a cycle never renders: traverse would recurse forever. */
  lemma {:induction false} CycleNeverRenders(f: Forest, a: NodeId, d: nat, top: NodeId, k: nat)
    requires WellIndexed(f) && Path(f, a, a, d) && d > 0
    ensures RenderNode(f, a, top, k).None?
    decreases k
  {
    if RenderNode(f, a, top, k).Some? {
      PathFuel(f, a, a, d, top, k);
      CycleNeverRenders(f, a, d, top, k - d);
    }
  }

  /** Chains compose. */
  lemma {:induction false} PathStep(f: Forest, a: NodeId, i: nat, b: NodeId, d: nat)
    requires a < |f.nodes| && f.nodes[a].Crotch? && i < |f.nodes[a].children| && Path(f, f.nodes[a].children[i], b, d)
    ensures Path(f, a, b, d + 1)
  {
  }

  /** A child of a node that renders does not lead back to that node. */
  lemma NoPathBack(f: Forest, r: NodeId, top: NodeId, k: nat, i: nat, m: NodeId, d: nat)
    requires WellIndexed(f) && r < |f.nodes| && RenderNode(f, r, top, k).Some?
    requires f.nodes[r].Crotch? && i < |f.nodes[r].children| && Path(f, f.nodes[r].children[i], m, d)
    ensures m != r
  {
    if m == r {
      PathStep(f, r, i, m, d);
      CycleNeverRenders(f, r, d + 1, top, k);
    }
  }

  /** g agrees with f on everything rendering from n can see: the nodes reachable from n,
    * the texts of their criteria, and which of them is the handle's root. */
  ghost predicate AgreeFrom(f: Forest, g: Forest, n: NodeId, top: NodeId, top': NodeId)
  {
    forall m: NodeId, d: nat :: Path(f, n, m, d) ==>
      m < |f.nodes| && m < |g.nodes| && g.nodes[m] == f.nodes[m] && (m == top <==> m == top') &&
      (f.nodes[m].Leaf? ==>
        f.nodes[m].criteria < |f.criteria| && f.nodes[m].criteria < |g.criteria| &&
        LeafText(g.criteria[f.nodes[m].criteria]) == LeafText(f.criteria[f.nodes[m].criteria]))
  }

  lemma AgreeFromChild(f: Forest, g: Forest, n: NodeId, top: NodeId, top': NodeId, i: nat)
    requires AgreeFrom(f, g, n, top, top') && n < |f.nodes| && f.nodes[n].Crotch? && i < |f.nodes[n].children|
    ensures AgreeFrom(f, g, f.nodes[n].children[i], top, top')
  {
    forall m: NodeId, d: nat | Path(f, f.nodes[n].children[i], m, d) ensures Path(f, n, m, d + 1) {
      PathStep(f, n, i, m, d);
    }
  }

  /** The frame of rendering: what it cannot see does not change its result. */
  lemma {:induction false} RenderNodeFrame(f: Forest, g: Forest, n: NodeId, top: NodeId, top': NodeId, k: nat)
    requires WellIndexed(f) && WellIndexed(g) && n < |f.nodes| && AgreeFrom(f, g, n, top, top')
    ensures n < |g.nodes| && RenderNode(g, n, top', k) == RenderNode(f, n, top, k)
    decreases k, 0
  {
    assert Path(f, n, n, 0);
    if k > 0 && f.nodes[n].Crotch? {
      var cs := f.nodes[n].children;
      assert NodeIndexed(f, f.nodes[n]);
      forall i | 0 <= i < |cs| ensures AgreeFrom(f, g, cs[i], top, top') {
        AgreeFromChild(f, g, n, top, top', i);
      }
      RenderChildrenFrame(f, g, cs, top, top', k - 1);
    }
  }

  lemma {:induction false} RenderChildrenFrame(f: Forest, g: Forest, cs: seq<NodeId>, top: NodeId, top': NodeId, k: nat)
    requires WellIndexed(f) && WellIndexed(g)
    requires forall i :: 0 <= i < |cs| ==> cs[i] < |f.nodes| && AgreeFrom(f, g, cs[i], top, top')
    ensures (forall i :: 0 <= i < |cs| ==> cs[i] < |g.nodes|) && RenderChildren(g, cs, top', k) == RenderChildren(f, cs, top, k)
    decreases k, |cs| + 1
  {
    if cs != [] {
      RenderChildrenFrame(f, g, cs[..|cs| - 1], top, top', k);
      RenderNodeFrame(f, g, cs[|cs| - 1], top, top', k);
      forall i | 0 <= i < |cs| ensures cs[i] < |g.nodes| {
        assert Path(f, cs[i], cs[i], 0);
      }
    }
  }

  /** Every criteria of g is the one of f, or f's after traverse filled it with "[* TO *]". */
  ghost predicate MaterializedFrom(f: Forest, g: Forest)
  {
    g.nodes == f.nodes && |g.criteria| == |f.criteria| &&
    forall c :: 0 <= c < |f.criteria| ==> g.criteria[c] == f.criteria[c] || g.criteria[c] == Materialize(f.criteria[c])
  }

  /** What traverse leaves behind keeps the invariant. */
  lemma MaterializedValid(f: Forest, g: Forest)
    requires Valid(f) && MaterializedFrom(f, g)
    ensures Valid(g)
  {
    forall n | 0 <= n < |g.nodes| ensures NodeIndexed(g, g.nodes[n]) {
      assert NodeIndexed(f, f.nodes[n]);
    }
    forall n | 0 <= n < |g.nodes| && g.nodes[n].Crotch? ensures ChildOperators(g, g.nodes[n].children) {
      assert NodeIndexed(f, f.nodes[n]);
      assert ChildOperators(f, f.nodes[n].children);
    }
    forall c | 0 <= c < |g.criteria| ensures CriteriaOk(g, g.criteria[c]) {
      assert CriteriaOk(f, f.criteria[c]);
      var r := f.criteria[c].root;
      var m := f.nodes[r].mostRecent.value;
      assert g.criteria[m].root == f.criteria[m].root;
    }
  }

  /** Filling one more empty criteria keeps the tables materialized from f. */
  lemma MaterializeOne(f: Forest, g: Forest, c: CriteriaId)
    requires MaterializedFrom(f, g) && c < |g.criteria| && g.criteria[c].predicates == []
    ensures MaterializedFrom(f, g.(criteria := g.criteria[c := WithToken(g.criteria[c], AllValues)]))
  {
    assert g.criteria[c] == f.criteria[c];
  }

  /** What traverse prints for a leaf, read off the criteria it finds (cur, either the
    * original s0 or its filled form) and leaves (s): the parentheses are decided on cur
    * before any filling, and agree with LeafText on s0. */
  lemma MaterializedLeaf(s0: CriteriaState, cur: CriteriaState, s: CriteriaState, adds: bool)
    requires cur == s0 || cur == Materialize(s0)
    requires adds == (|cur.predicates| > 1)
    requires s == if cur.predicates == [] then WithToken(cur, AllValues) else cur
    ensures s == Materialize(s0)
    ensures LeafText(s0) ==
      (if s.isNegating then "-" else "") + (if s.isHideFieldName then "" else s.field + ":") +
      (if adds then "(" + JoinSpace(s.predicates) + ")" else JoinSpace(s.predicates)) +
      (if s.boost.Some? && PhpTruthyString(s.boost.value) then "^" + s.boost.value else "")
  {
    assert s.predicates == LeafTokens(s0);
  }

  /** Rendering twice gives the same string: what the first rendering leaves behind
    * renders exactly as before. */
  lemma MaterializedRendersAlike(f: Forest, g: Forest, n: NodeId, top: NodeId, k: nat)
    requires WellIndexed(f) && MaterializedFrom(f, g) && n < |f.nodes|
    ensures WellIndexed(g) && RenderNode(g, n, top, k) == RenderNode(f, n, top, k)
  {
    forall m | 0 <= m < |f.nodes| ensures NodeIndexed(g, g.nodes[m]) {
      assert NodeIndexed(f, f.nodes[m]);
    }
    forall m: NodeId, d: nat | Path(f, n, m, d) ensures m < |f.nodes| {
      if d > 0 { assert WellIndexed(f); PathInRange(f, n, m, d); }
    }
    forall c | 0 <= c < |f.criteria| ensures LeafText(g.criteria[c]) == LeafText(f.criteria[c]) {
      MaterializeKeepsText(f.criteria[c]);
    }
    forall m: NodeId, d: nat | Path(f, n, m, d) && f.nodes[m].Leaf? ensures f.nodes[m].criteria < |f.criteria| {
      PathInRange(f, n, m, d);
      assert NodeIndexed(f, f.nodes[m]);
    }
    RenderNodeFrame(f, g, n, top, top, k);
  }

  lemma {:induction false} PathInRange(f: Forest, a: NodeId, b: NodeId, d: nat)
    requires WellIndexed(f) && Path(f, a, b, d)
    ensures b < |f.nodes|
    decreases d
  {
    if d > 0 {
      var cs := f.nodes[a].children;
      var i :| 0 <= i < |cs| && Path(f, cs[i], b, d - 1);
      PathInRange(f, cs[i], b, d - 1);
    }
  }
}
