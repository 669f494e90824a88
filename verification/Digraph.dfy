/** Directed graphs, paths and strict descendants. */
module Digraph {

  type Node = nat

  datatype Graph = Graph(nodes: set<Node>, edges: set<(Node, Node)>)

  predicate WfGraph(g: Graph) { forall e :: e in g.edges ==> e.0 in g.nodes && e.1 in g.nodes }

  predicate IsPath(g: Graph, p: seq<Node>) {
    p != [] && forall i :: 0 <= i < |p| - 1 ==> (p[i], p[i + 1]) in g.edges
  }

  ghost predicate PathFrom(g: Graph, p: seq<Node>, u: Node, v: Node) {
    IsPath(g, p) && |p| >= 2 && p[0] == u && p[|p| - 1] == v
  }

  /** `v` is a strict descendant of `u`. */
  ghost predicate Reach(g: Graph, u: Node, v: Node) { exists p :: PathFrom(g, p, u, v) }

  ghost predicate Acyclic(g: Graph) { forall v :: !Reach(g, v, v) }

  /** No node has two predecessors. */
  predicate SingleParents(g: Graph) {
    forall a, b :: a in g.edges && b in g.edges && a.1 == b.1 ==> a.0 == b.0
  }

  lemma PathConcat(g: Graph, p: seq<Node>, q: seq<Node>, u: Node, v: Node, w: Node)
    requires PathFrom(g, p, u, v) && PathFrom(g, q, v, w)
    ensures PathFrom(g, p + q[1..], u, w)
  {
    var r := p + q[1..];
    forall i | 0 <= i < |r| - 1 ensures (r[i], r[i + 1]) in g.edges {
      if i < |p| - 1 {
        assert (p[i], p[i + 1]) in g.edges;
      } else {
        assert (q[i - |p| + 1], q[i - |p| + 2]) in g.edges;
      }
    }
  }

  lemma ReachTrans(g: Graph, u: Node, v: Node, w: Node)
    requires Reach(g, u, v) && Reach(g, v, w)
    ensures Reach(g, u, w)
  {
    var p :| PathFrom(g, p, u, v);
    var q :| PathFrom(g, q, v, w);
    PathConcat(g, p, q, u, v, w);
  }

  lemma EdgeReach(g: Graph, u: Node, v: Node)
    requires (u, v) in g.edges
    ensures Reach(g, u, v)
  {
    assert PathFrom(g, [u, v], u, v);
  }

  lemma PathSlice(g: Graph, p: seq<Node>, i: nat, j: nat)
    requires IsPath(g, p) && i < j < |p|
    ensures PathFrom(g, p[i..j + 1], p[i], p[j])
  {
    var q := p[i..j + 1];
    forall k | 0 <= k < |q| - 1 ensures (q[k], q[k + 1]) in g.edges {
      assert (p[i + k], p[i + k + 1]) in g.edges;
    }
  }

  lemma {:induction false} PathNodes(g: Graph, p: seq<Node>, i: nat)
    requires WfGraph(g) && IsPath(g, p) && |p| >= 2 && i < |p|
    ensures p[i] in g.nodes
  {
    if i == 0 { assert (p[0], p[1]) in g.edges; } else { assert (p[i - 1], p[i]) in g.edges; }
  }

  // ------------------------------------------------- computing descendants

  function Successors(g: Graph, s: set<Node>): set<Node> {
    set e | e in g.edges && e.0 in s :: e.1
  }

  function Predecessors(g: Graph, v: Node): set<Node> {
    set e | e in g.edges && e.1 == v :: e.0
  }

  function Close(g: Graph, todo: set<Node>, seen: set<Node>): set<Node>
    requires WfGraph(g) && todo <= g.nodes
    decreases g.nodes - seen
  {
    var next := todo - seen;
    if next == {} then seen
    else
      var n :| n in next;
      assert g.nodes - (seen + next) < g.nodes - seen by { assert n !in g.nodes - (seen + next); }
      Close(g, Successors(g, next), seen + next)
  }

  /** All strict descendants of `n`. */
  function Descendants(g: Graph, n: Node): set<Node>
    requires WfGraph(g)
  {
    Close(g, Successors(g, {n}), {})
  }

  ghost predicate Closed(g: Graph, s: set<Node>) { forall e :: e in g.edges && e.0 in s ==> e.1 in s }

  lemma {:induction false} CloseProps(g: Graph, todo: set<Node>, seen: set<Node>, from: Node)
    requires WfGraph(g) && todo <= g.nodes
    requires forall e :: e in g.edges && e.0 in seen ==> e.1 in seen || e.1 in todo
    requires forall x :: x in todo || x in seen ==> Reach(g, from, x)
    ensures todo <= Close(g, todo, seen) && seen <= Close(g, todo, seen)
    ensures Closed(g, Close(g, todo, seen))
    ensures forall x :: x in Close(g, todo, seen) ==> Reach(g, from, x)
    decreases g.nodes - seen
  {
    var next := todo - seen;
    if next != {} {
      var n :| n in next;
      assert g.nodes - (seen + next) < g.nodes - seen by { assert n !in g.nodes - (seen + next); }
      forall x | x in Successors(g, next) ensures Reach(g, from, x) {
        var e :| e in g.edges && e.0 in next && e.1 == x;
        EdgeReach(g, e.0, x);
        ReachTrans(g, from, e.0, x);
      }
      forall e | e in g.edges && e.0 in seen + next ensures e.1 in seen + next || e.1 in Successors(g, next) {
        if e.0 !in next { assert e.1 in seen || e.1 in todo; }
      }
      CloseProps(g, Successors(g, next), seen + next, from);
    }
    assert forall x :: x in todo ==> x in seen || x in next;
  }

  lemma {:induction false} ClosedContains(g: Graph, s: set<Node>, p: seq<Node>)
    requires Closed(g, s) && IsPath(g, p) && p[0] in s
    ensures p[|p| - 1] in s
  {
    if |p| > 1 {
      assert (p[0], p[1]) in g.edges;
      var q := p[1..];
      assert forall i :: 0 <= i < |q| - 1 ==> (q[i], q[i + 1]) == (p[i + 1], p[i + 2]);
      ClosedContains(g, s, q);
    }
  }

  /** The computed set is exactly the strict descendants. */
  lemma DescendantsExact(g: Graph, n: Node, v: Node)
    requires WfGraph(g)
    ensures v in Descendants(g, n) <==> Reach(g, n, v)
  {
    forall x | x in Successors(g, {n}) ensures Reach(g, n, x) {
      var e :| e in g.edges && e.0 in {n} && e.1 == x;
      EdgeReach(g, n, x);
    }
    CloseProps(g, Successors(g, {n}), {}, n);
    if Reach(g, n, v) {
      var p :| PathFrom(g, p, n, v);
      assert (p[0], p[1]) in g.edges;
      assert p[1] in Successors(g, {n});
      var q := p[1..];
      assert forall i :: 0 <= i < |q| - 1 ==> (q[i], q[i + 1]) == (p[i + 1], p[i + 2]);
      ClosedContains(g, Descendants(g, n), q);
    }
  }
}
