/** `_remove_history`: contracting nodes out of the history graph. */
module Contraction {
  import opened Digraph

  /** Joins every predecessor of `h` to every successor, then drops `h`. */
  function Contract(g: Graph, h: Node): Graph {
    if h !in g.nodes then g
    else
      var bridges := set a, b | a in g.edges && b in g.edges && a.1 == h && b.0 == h :: (a.0, b.1);
      Graph(g.nodes - {h}, set e | e in g.edges + bridges && e.0 != h && e.1 != h)
  }

  function ContractAll(g: Graph, hs: seq<Node>): Graph {
    if hs == [] then g else Contract(ContractAll(g, hs[..|hs| - 1]), hs[|hs| - 1])
  }

  lemma ContractEdge(g: Graph, h: Node, u: Node, v: Node)
    requires h in g.nodes
    ensures (u, v) in Contract(g, h).edges <==>
            u != h && v != h && ((u, v) in g.edges || ((u, h) in g.edges && (h, v) in g.edges))
  {
    if u != h && v != h && (u, h) in g.edges && (h, v) in g.edges {
      var a, b := (u, h), (h, v);
      assert (a.0, b.1) == (u, v);
    }
  }

  // ------------------------------------------------- one contraction

  lemma ContractWf(g: Graph, h: Node)
    requires WfGraph(g)
    ensures WfGraph(Contract(g, h))
  {
    if h in g.nodes {
      forall e | e in Contract(g, h).edges ensures e.0 in g.nodes - {h} && e.1 in g.nodes - {h} {
        ContractEdge(g, h, e.0, e.1);
        assert e == (e.0, e.1);
      }
    }
  }

  lemma {:induction false} ContractedPath(g: Graph, h: Node, p: seq<Node>) returns (q: seq<Node>)
    requires h in g.nodes && |p| >= 2 && PathFrom(g, p, p[0], p[|p| - 1]) && p[0] != h && p[|p| - 1] != h
    ensures PathFrom(Contract(g, h), q, p[0], p[|p| - 1])
    decreases |p|
  {
    assert (p[0], p[1]) in g.edges;
    if p[1] != h {
      ContractEdge(g, h, p[0], p[1]);
      if |p| == 2 {
        q := p;
      } else {
        PathSlice(g, p, 1, |p| - 1);
        assert p[1..|p|] == p[1..];
        var r := ContractedPath(g, h, p[1..]);
        q := [p[0]] + r;
        assert PathFrom(Contract(g, h), q, p[0], p[|p| - 1]);
      }
    } else {
      assert (p[1], p[2]) in g.edges;
      if p[2] == h {
        var s := [p[0]] + p[2..];
        forall i | 0 <= i < |s| - 1 ensures (s[i], s[i + 1]) in g.edges {
          assert (p[i + 1], p[i + 2]) in g.edges;
        }
        q := ContractedPath(g, h, s);
      } else {
        ContractEdge(g, h, p[0], p[2]);
        if |p| == 3 {
          q := [p[0], p[2]];
        } else {
          PathSlice(g, p, 2, |p| - 1);
          assert p[2..|p|] == p[2..];
          var r := ContractedPath(g, h, p[2..]);
          q := [p[0]] + r;
          assert PathFrom(Contract(g, h), q, p[0], p[|p| - 1]);
        }
      }
    }
  }

  lemma {:induction false} ExpandedPath(g: Graph, h: Node, q: seq<Node>)
    requires h in g.nodes && |q| >= 2 && PathFrom(Contract(g, h), q, q[0], q[|q| - 1])
    ensures Reach(g, q[0], q[|q| - 1])
    decreases |q|
  {
    var u, v := q[0], q[1];
    assert (u, v) in Contract(g, h).edges;
    ContractEdge(g, h, u, v);
    if (u, v) in g.edges {
      EdgeReach(g, u, v);
    } else {
      EdgeReach(g, u, h);
      EdgeReach(g, h, v);
      ReachTrans(g, u, h, v);
    }
    if |q| > 2 {
      PathSlice(Contract(g, h), q, 1, |q| - 1);
      assert q[1..|q|] == q[1..];
      ExpandedPath(g, h, q[1..]);
      ReachTrans(g, u, v, q[|q| - 1]);
    }
  }

  /** Contraction keeps exactly the ancestor relation among the survivors. */
  lemma ContractKeepsAncestry(g: Graph, h: Node, u: Node, v: Node)
    requires WfGraph(g) && u != h && v != h
    ensures Reach(Contract(g, h), u, v) <==> Reach(g, u, v)
  {
    if h in g.nodes {
      if Reach(g, u, v) {
        var p :| PathFrom(g, p, u, v);
        var q := ContractedPath(g, h, p);
      }
      if Reach(Contract(g, h), u, v) {
        var q :| PathFrom(Contract(g, h), q, u, v);
        ExpandedPath(g, h, q);
      }
    }
  }

  lemma ContractedNodeUnreachable(g: Graph, h: Node, v: Node)
    requires WfGraph(g) && h in g.nodes && (v == h)
    ensures !Reach(Contract(g, h), v, v)
  {
    ContractWf(g, h);
    if Reach(Contract(g, h), v, v) {
      var p :| PathFrom(Contract(g, h), p, v, v);
      PathNodes(Contract(g, h), p, 0);
    }
  }

  lemma ContractKeepsForest(g: Graph, h: Node)
    requires WfGraph(g) && Acyclic(g)
    ensures WfGraph(Contract(g, h)) && Acyclic(Contract(g, h))
    ensures SingleParents(g) ==> SingleParents(Contract(g, h))
  {
    ContractWf(g, h);
    if h in g.nodes {
      forall v ensures !Reach(Contract(g, h), v, v) {
        if v == h { ContractedNodeUnreachable(g, h, v); } else { ContractKeepsAncestry(g, h, v, v); }
      }
      if SingleParents(g) {
        var k := Contract(g, h);
        forall a, b | a in k.edges && b in k.edges && a.1 == b.1 ensures a.0 == b.0 {
          assert a == (a.0, a.1) && b == (b.0, b.1);
          ContractEdge(g, h, a.0, a.1);
          ContractEdge(g, h, b.0, b.1);
          assert (a.0, a.1) in g.edges || (h, a.1) in g.edges;
          assert (b.0, b.1) in g.edges || (h, b.1) in g.edges;
        }
      }
    }
  }

  // ------------------------------------------------- any set of nodes, in any order

  /** An edge of the contracted graph: a path of the original whose inner nodes are all removed. */
  ghost predicate Via(g: Graph, s: set<Node>, u: Node, v: Node) {
    exists p :: PathFrom(g, p, u, v) && Inner(p, s)
  }

  predicate Inner(p: seq<Node>, s: set<Node>) { forall i :: 0 < i < |p| - 1 ==> p[i] in s }

  lemma ViaStep(g: Graph, s: set<Node>, h: Node, u: Node, v: Node)
    requires u != h && v != h
    ensures Via(g, s + {h}, u, v) <==> Via(g, s, u, v) || (Via(g, s, u, h) && Via(g, s, h, v))
  {
    if Via(g, s + {h}, u, v) {
      var p :| PathFrom(g, p, u, v) && Inner(p, s + {h});
      if h in p {
        var i := FirstAt(p, h);
        var j := LastAt(p, h);
        PathSlice(g, p, 0, i);
        PathSlice(g, p, j, |p| - 1);
        var a, b := p[0..i + 1], p[j..|p|];
        assert forall k :: 0 < k < |a| - 1 ==> a[k] == p[k] && p[k] != h;
        assert forall k :: 0 < k < |b| - 1 ==> b[k] == p[j + k] && p[j + k] != h;
        assert PathFrom(g, a, u, h) && Inner(a, s);
        assert PathFrom(g, b, h, v) && Inner(b, s);
      } else {
        assert Inner(p, s);
      }
    }
    if Via(g, s, u, v) {
      var p :| PathFrom(g, p, u, v) && Inner(p, s);
      assert Inner(p, s + {h});
    }
    if Via(g, s, u, h) && Via(g, s, h, v) {
      var a :| PathFrom(g, a, u, h) && Inner(a, s);
      var b :| PathFrom(g, b, h, v) && Inner(b, s);
      PathConcat(g, a, b, u, h, v);
      var p := a + b[1..];
      forall i | 0 < i < |p| - 1 ensures p[i] in s + {h} {
        if i < |a| - 1 { assert p[i] == a[i]; }
        else if i == |a| - 1 { assert p[i] == h; }
        else { assert p[i] == b[i - |a| + 1]; }
      }
      assert Inner(p, s + {h});
    }
  }

  lemma {:induction false} FirstAt(p: seq<Node>, h: Node) returns (i: nat)
    requires h in p
    ensures i < |p| && p[i] == h && forall k :: 0 <= k < i ==> p[k] != h
  {
    i := 0;
    while p[i] != h
      invariant i < |p| && h in p[i..]
      invariant forall k :: 0 <= k < i ==> p[k] != h
      decreases |p| - i
    {
      i := i + 1;
    }
  }

  lemma {:induction false} LastAt(p: seq<Node>, h: Node) returns (j: nat)
    requires h in p
    ensures j < |p| && p[j] == h && forall k :: j < k < |p| ==> p[k] != h
  {
    j := |p| - 1;
    while p[j] != h
      invariant j < |p| && h in p[..j + 1]
      invariant forall k :: j < k < |p| ==> p[k] != h
      decreases j
    {
      j := j - 1;
    }
  }

  predicate Distinct(hs: seq<Node>) { forall i, j :: 0 <= i < j < |hs| ==> hs[i] != hs[j] }

  function Elements(hs: seq<Node>): set<Node> { set h | h in hs }

  ghost predicate ContractedBy(g: Graph, s: set<Node>, k: Graph) {
    && k.nodes == g.nodes - s
    && forall u, v :: (u, v) in k.edges <==> u in k.nodes && v in k.nodes && Via(g, s, u, v)
  }

  /** Whatever nodes are removed, in whatever order, an edge of the result is a path whose inner
      nodes were all removed. */
  lemma {:induction false} ContractAllEdges(g: Graph, hs: seq<Node>)
    requires WfGraph(g) && Distinct(hs) && Elements(hs) <= g.nodes
    ensures ContractedBy(g, Elements(hs), ContractAll(g, hs))
  {
    if hs == [] {
      forall u, v ensures (u, v) in g.edges <==> u in g.nodes && v in g.nodes && Via(g, {}, u, v) {
        DirectEdge(g, u, v);
      }
      assert Elements(hs) == {};
    } else {
      var n := |hs| - 1;
      var front, h := hs[..n], hs[n];
      assert Elements(hs) == Elements(front) + {h};
      ContractAllEdges(g, front);
      var s, mid, k := Elements(front), ContractAll(g, front), ContractAll(g, hs);
      assert h in mid.nodes;
      forall u, v ensures (u, v) in k.edges <==> u in k.nodes && v in k.nodes && Via(g, s + {h}, u, v) {
        ContractEdge(mid, h, u, v);
        if u != h && v != h { ViaStep(g, s, h, u, v); }
      }
    }
  }

  lemma InnerNode(p: seq<Node>, s: set<Node>)
    requires |p| > 2 && Inner(p, s)
    ensures s != {}
  {
    assert p[1] in s;
  }

  lemma DirectEdge(g: Graph, u: Node, v: Node)
    requires WfGraph(g)
    ensures (u, v) in g.edges <==> u in g.nodes && v in g.nodes && Via(g, {}, u, v)
  {
    if (u, v) in g.edges {
      assert PathFrom(g, [u, v], u, v) && Inner([u, v], {});
    }
    if Via(g, {}, u, v) {
      var p :| PathFrom(g, p, u, v) && Inner(p, {});
      if |p| > 2 {
        InnerNode(p, {});
      }
      assert (p[0], p[1]) in g.edges;
    }
  }

  /** The same nodes removed in two orders leave the same graph. */
  lemma ContractionOrderIrrelevant(g: Graph, hs: seq<Node>, ks: seq<Node>)
    requires WfGraph(g) && Distinct(hs) && Distinct(ks) && Elements(hs) == Elements(ks) <= g.nodes
    ensures ContractAll(g, hs) == ContractAll(g, ks)
  {
    ContractAllEdges(g, hs);
    ContractAllEdges(g, ks);
    var a, b := ContractAll(g, hs), ContractAll(g, ks);
    forall e ensures e in a.edges <==> e in b.edges { assert e == (e.0, e.1); }
  }

  /** Contracting any list of nodes keeps a forest a forest, with the same ancestors among the
      survivors. */
  lemma {:induction false} ContractAllKeeps(g: Graph, hs: seq<Node>)
    requires WfGraph(g) && Acyclic(g)
    ensures WfGraph(ContractAll(g, hs)) && Acyclic(ContractAll(g, hs))
    ensures SingleParents(g) ==> SingleParents(ContractAll(g, hs))
    ensures forall u, v :: u !in hs && v !in hs ==> (Reach(ContractAll(g, hs), u, v) <==> Reach(g, u, v))
  {
    if hs != [] {
      var n := |hs| - 1;
      var mid := ContractAll(g, hs[..n]);
      ContractAllKeeps(g, hs[..n]);
      ContractKeepsForest(mid, hs[n]);
      forall u, v | u !in hs && v !in hs ensures Reach(ContractAll(g, hs), u, v) <==> Reach(g, u, v) {
        ContractKeepsAncestry(mid, hs[n], u, v);
      }
    }
  }
}
