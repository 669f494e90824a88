/** The leaves and twigs of the history graph: when the twigs are exactly the histories with one child, and
    the leaves exactly those without, over runs of additions and removals. */
module Twigs {
  import opened Wrappers
  import opened Digraph
  import opened Contraction

  // ------------------------------------------------- what is kept

  ghost predicate Forest(g: Graph) { WfGraph(g) && Acyclic(g) && SingleParents(g) }

  function WithHistory(g: Graph, h: Node, parent: Option<Node>): Graph {
    if parent.Some? then Graph(g.nodes + {h, parent.value}, g.edges + {(parent.value, h)})
    else g.(nodes := g.nodes + {h})
  }

  /** What the hierarchy keeps up to date: the graph, the histories without children, and those with one. */
  datatype Upkeep = Upkeep(graph: Graph, leaves: set<Node>, twigs: set<Node>)

  /** A history has been added below its parent: the history is a leaf, the parent is not, and the parent
      is a twig exactly when every edge that leaves it goes to the history; nothing else changes. */
  ghost predicate AddedTo(a: Upkeep, b: Upkeep, h: Node, parent: Option<Node>) {
    && b.graph == WithHistory(a.graph, h, parent)
    && (parent.None? ==> b.twigs == a.twigs && b.leaves == a.leaves + {h})
    && (parent.Some? ==>
          && (parent.value in b.twigs <==> forall e :: e in b.graph.edges && e.0 == parent.value ==> e.1 == h)
          && b.twigs - {parent.value} == a.twigs - {parent.value}
          && b.leaves == a.leaves - {parent.value} + {h})
  }

  /** A history has been contracted; it is neither a leaf nor a twig any more. */
  predicate RemovedFrom(a: Upkeep, b: Upkeep, h: Node) {
    b.graph == Contract(a.graph, h) && b.leaves == a.leaves - {h} && b.twigs == a.twigs - {h}
  }

  // ------------------------------------------------- children

  predicate Childless(g: Graph, n: Node) { forall e :: e in g.edges ==> e.0 != n }

  ghost predicate OneChild(g: Graph, n: Node) { exists c :: OnlyChild(g, n, c) }

  ghost predicate OnlyChild(g: Graph, n: Node, c: Node) { forall m: Node :: (n, m) in g.edges <==> m == c }

  /** Besides `h` the node has exactly one child. */
  ghost predicate OneOther(g: Graph, n: Node, h: Node) {
    exists c :: OtherChild(g, n, h, c)
  }

  ghost predicate OtherChild(g: Graph, n: Node, h: Node, c: Node) {
    c != h && forall m: Node :: (n, m) in g.edges && m != h <==> m == c
  }

  ghost predicate TwigsExact(k: Upkeep) { forall n: Node :: n in k.twigs <==> OneChild(k.graph, n) }

  ghost predicate LeavesExact(k: Upkeep) { forall n: Node :: n in k.leaves <==> n in k.graph.nodes && Childless(k.graph, n) }

  // ------------------------------------------------- adding

  lemma ChildrenAfterAdding(g: Graph, h: Node, parent: Option<Node>, n: Node)
    requires parent != Some(n)
    ensures OneChild(WithHistory(g, h, parent), n) <==> OneChild(g, n)
    ensures Childless(WithHistory(g, h, parent), n) <==> Childless(g, n)
  {
    var k := WithHistory(g, h, parent);
    forall m: Node ensures (n, m) in k.edges <==> (n, m) in g.edges {}
    if c: Node :| OnlyChild(g, n, c) { assert OnlyChild(k, n, c); }
    if c: Node :| OnlyChild(k, n, c) { assert OnlyChild(g, n, c); }
    if !Childless(k, n) {
      var e :| e in k.edges && e.0 == n;
      assert e in g.edges;
    }
  }

  lemma ParentAfterAdding(g: Graph, h: Node, p: Node)
    ensures OneChild(WithHistory(g, h, Some(p)), p) <==>
              forall e :: e in WithHistory(g, h, Some(p)).edges && e.0 == p ==> e.1 == h
  {
    var k := WithHistory(g, h, Some(p));
    assert (p, h) in k.edges;
    if forall e :: e in k.edges && e.0 == p ==> e.1 == h {
      forall m: Node ensures (p, m) in k.edges <==> m == h {
        if (p, m) in k.edges { assert (p, m).1 == h; }
      }
      assert OnlyChild(k, p, h);
    }
    if c: Node :| OnlyChild(k, p, c) {
      assert c == h;
      forall e | e in k.edges && e.0 == p ensures e.1 == h { assert e == (p, e.1); }
    }
  }

  /** Adding a history keeps the twigs exact, whatever the history and its parent. */
  lemma AddKeepsTwigs(a: Upkeep, b: Upkeep, h: Node, parent: Option<Node>)
    requires TwigsExact(a) && AddedTo(a, b, h, parent)
    ensures TwigsExact(b)
  {
    forall n: Node ensures n in b.twigs <==> OneChild(b.graph, n) {
      if parent == Some(n) {
        ParentAfterAdding(a.graph, h, n);
      } else {
        ChildrenAfterAdding(a.graph, h, parent, n);
        assert n in b.twigs <==> n in a.twigs by {
          if parent.Some? { assert n in b.twigs - {parent.value} <==> n in a.twigs - {parent.value}; }
        }
      }
    }
  }

  /** The leaves stay exact if and only if the history that is added has no child yet. */
  lemma AddKeepsLeavesIff(a: Upkeep, b: Upkeep, h: Node, parent: Option<Node>)
    requires LeavesExact(a) && AddedTo(a, b, h, parent) && parent != Some(h)
    ensures LeavesExact(b) <==> Childless(a.graph, h)
  {
    forall n: Node | parent != Some(n) ensures Childless(b.graph, n) <==> Childless(a.graph, n) {
      ChildrenAfterAdding(a.graph, h, parent, n);
    }
    if parent.Some? { assert (parent.value, h) in b.graph.edges && !Childless(b.graph, parent.value); }
    if LeavesExact(b) { assert h in b.leaves; }
    if Childless(a.graph, h) {
      forall n: Node ensures n in b.leaves <==> n in b.graph.nodes && Childless(b.graph, n) {}
    }
  }

  // ------------------------------------------------- removing

  /** The children of a survivor: its own without the removed one, and in its place that one's. */
  lemma ChildrenAfterRemoving(g: Graph, h: Node, n: Node, m: Node)
    requires WfGraph(g) && Acyclic(g) && h in g.nodes && n != h
    ensures (n, m) in Contract(g, h).edges <==>
              m != h && ((n, m) in g.edges || ((n, h) in g.edges && (h, m) in g.edges))
  {
    ContractEdge(g, h, n, m);
  }

  lemma NoLoop(g: Graph, h: Node)
    requires Acyclic(g)
    ensures (h, h) !in g.edges
  {
    if (h, h) in g.edges { EdgeReach(g, h, h); }
  }

  lemma SameParent(g: Graph, n: Node, h: Node, m: Node)
    requires SingleParents(g) && (h, m) in g.edges
    ensures (n, m) in g.edges ==> n == h
  {
    assert (n, m) in g.edges ==> (n, m).0 == (h, m).0;
  }

  /** In a forest the children that a parent gets are none of its own. */
  lemma NewChildren(g: Graph, h: Node, n: Node, m: Node)
    requires Forest(g) && (n, h) in g.edges && (h, m) in g.edges
    ensures (n, m) !in g.edges && m != h && n != h
  {
    NoLoop(g, h);
    SameParent(g, n, h, m);
  }

  /** Removing `h` does not change whether its parent has exactly one child: an only child has one child,
      and the other of two children is not all that is left. */
  ghost predicate Harmless(g: Graph, h: Node) {
    forall n :: (n, h) in g.edges ==>
      if OneChild(g, n) then OneChild(g, h) else !(OneOther(g, n, h) && Childless(g, h))
  }

  lemma OnlyChildReplaced(g: Graph, h: Node, n: Node)
    requires Forest(g) && h in g.nodes && (n, h) in g.edges && OneChild(g, n)
    ensures OneChild(Contract(g, h), n) <==> OneChild(g, h)
  {
    var k := Contract(g, h);
    var only: Node :| OnlyChild(g, n, only);
    assert only == h;
    NoLoop(g, h);
    forall m: Node ensures (n, m) in k.edges <==> (h, m) in g.edges {
      if (h, m) in g.edges { NewChildren(g, h, n, m); }
      ChildrenAfterRemoving(g, h, n, m);
    }
    if c: Node :| OnlyChild(g, h, c) { assert OnlyChild(k, n, c); }
    if c: Node :| OnlyChild(k, n, c) { assert OnlyChild(g, h, c); }
  }

  lemma OtherChildKept(g: Graph, h: Node, n: Node)
    requires Forest(g) && h in g.nodes && (n, h) in g.edges && !OneChild(g, n)
    ensures OneChild(Contract(g, h), n) <==> OneOther(g, n, h) && Childless(g, h)
  {
    var k := Contract(g, h);
    NoLoop(g, h);
    assert n != h;
    forall m: Node ensures (n, m) in k.edges <==> m != h && ((n, m) in g.edges || (h, m) in g.edges) {
      ChildrenAfterRemoving(g, h, n, m);
    }
    if OneOther(g, n, h) && Childless(g, h) {
      var c: Node :| OtherChild(g, n, h, c);
      forall m: Node ensures (n, m) in k.edges <==> m == c { assert (h, m) !in g.edges by { assert Childless(g, h); } }
      assert OnlyChild(k, n, c);
    }
    if c: Node :| OnlyChild(k, n, c) {
      var x := AnotherChild(g, n, h);
      assert (n, x) in k.edges && x == c;
      forall e | e in g.edges ensures e.0 != h {
        assert e == (e.0, e.1);
        if e.0 == h { NewChildren(g, h, n, e.1); }
      }
      assert OtherChild(g, n, h, c);
    }
  }

  lemma AnotherChild(g: Graph, n: Node, h: Node) returns (x: Node)
    requires (n, h) in g.edges && !OneChild(g, n)
    ensures x != h && (n, x) in g.edges
  {
    assert !OnlyChild(g, n, h);
    x :| !((n, x) in g.edges <==> x == h);
  }

  lemma OthersKept(g: Graph, h: Node, n: Node)
    requires Forest(g) && n != h && (n, h) !in g.edges
    ensures OneChild(Contract(g, h), n) <==> OneChild(g, n)
  {
    var k := Contract(g, h);
    if h in g.nodes {
      forall m: Node ensures (n, m) in k.edges <==> (n, m) in g.edges { ChildrenAfterRemoving(g, h, n, m); }
      if c: Node :| OnlyChild(g, n, c) { assert OnlyChild(k, n, c); }
      if c: Node :| OnlyChild(k, n, c) { assert OnlyChild(g, n, c); }
    }
  }

  lemma RemovedHasNoChild(g: Graph, h: Node)
    requires WfGraph(g)
    ensures !OneChild(Contract(g, h), h)
  {
    forall c: Node ensures !OnlyChild(Contract(g, h), h, c) {
      if h in g.nodes { ContractEdge(g, h, h, c); }
      assert (h, c) !in Contract(g, h).edges;
    }
  }

  /** Removing a history keeps the twigs exact if and only if it does not change whether its parent has
      exactly one child. */
  lemma RemoveKeepsTwigsIff(a: Upkeep, b: Upkeep, h: Node)
    requires Forest(a.graph) && TwigsExact(a) && RemovedFrom(a, b, h)
    ensures TwigsExact(b) <==> Harmless(a.graph, h)
  {
    RemovedHasNoChild(a.graph, h);
    forall n: Node | n != h && (n, h) !in a.graph.edges ensures n in b.twigs <==> OneChild(b.graph, n) { OthersKept(a.graph, h, n); }
    forall n: Node | (n, h) in a.graph.edges
      ensures (n in b.twigs <==> OneChild(b.graph, n)) <==>
                if OneChild(a.graph, n) then OneChild(a.graph, h) else !(OneOther(a.graph, n, h) && Childless(a.graph, h))
    {
      NoLoop(a.graph, h);
      if OneChild(a.graph, n) { OnlyChildReplaced(a.graph, h, n); } else { OtherChildKept(a.graph, h, n); }
    }
  }

  /** Contracting a history with exactly one child is harmless. */
  lemma TwigHarmless(g: Graph, h: Node)
    requires OneChild(g, h)
    ensures Harmless(g, h)
  {
    var c: Node :| OnlyChild(g, h, c);
    assert (h, c) in g.edges;
  }

  /** Removing a twig from a forest with exact twigs keeps them exact. */
  lemma TwigRemoved(a: Upkeep, b: Upkeep, h: Node)
    requires Forest(a.graph) && TwigsExact(a) && RemovedFrom(a, b.(leaves := a.leaves - {h}), h) && h in a.twigs
    ensures TwigsExact(b)
  {
    TwigHarmless(a.graph, h);
    RemoveKeepsTwigsIff(a, b.(leaves := a.leaves - {h}), h);
  }

  // ------------------------------------------------- runs

  datatype Change = Add(history: Node, parent: Option<Node>) | Remove(history: Node)

  ghost predicate Changed(a: Upkeep, b: Upkeep, c: Change) {
    match c
    case Add(h, parent) => AddedTo(a, b, h, parent)
    case Remove(h) => RemovedFrom(a, b, h)
  }

  /** The moments of a run that begins with nothing and stays a forest. */
  ghost predicate Run(ks: seq<Upkeep>, cs: seq<Change>) {
    && |ks| == |cs| + 1 && ks[0] == Upkeep(Graph({}, {}), {}, {})
    && (forall i :: 0 <= i < |cs| ==> Changed(ks[i], ks[i + 1], cs[i]))
    && (forall i :: 0 <= i < |ks| ==> Forest(ks[i].graph))
  }

  ghost predicate HarmlessAt(ks: seq<Upkeep>, cs: seq<Change>, i: nat)
    requires i < |cs| && |ks| == |cs| + 1
  {
    cs[i].Remove? ==> Harmless(ks[i].graph, cs[i].history)
  }

  lemma {:induction false} TwigsExactSoFar(ks: seq<Upkeep>, cs: seq<Change>, n: nat)
    requires Run(ks, cs) && n < |ks| && forall i :: 0 <= i < n ==> HarmlessAt(ks, cs, i)
    ensures TwigsExact(ks[n])
  {
    if n > 0 {
      TwigsExactSoFar(ks, cs, n - 1);
      assert Changed(ks[n - 1], ks[n - 1 + 1], cs[n - 1]) && Forest(ks[n - 1].graph);
      assert HarmlessAt(ks, cs, n - 1);
      match cs[n - 1]
      case Add(h, parent) => AddKeepsTwigs(ks[n - 1], ks[n], h, parent);
      case Remove(h) => RemoveKeepsTwigsIff(ks[n - 1], ks[n], h);
    } else {
      forall m: Node ensures !OneChild(ks[0].graph, m) {
        if c: Node :| OnlyChild(ks[0].graph, m, c) { assert (m, c) in ks[0].graph.edges; }
      }
    }
  }

  /** At every moment of a run of additions and removals the twigs are exactly the histories with one child
      if and only if every removal is harmless when it happens. */
  lemma TwigsExactIff(ks: seq<Upkeep>, cs: seq<Change>)
    requires Run(ks, cs)
    ensures (forall n :: 0 <= n < |ks| ==> TwigsExact(ks[n])) <==> (forall i :: 0 <= i < |cs| ==> HarmlessAt(ks, cs, i))
  {
    if forall n :: 0 <= n < |ks| ==> TwigsExact(ks[n]) {
      forall i | 0 <= i < |cs| ensures HarmlessAt(ks, cs, i) {
        assert Changed(ks[i], ks[i + 1], cs[i]) && Forest(ks[i].graph) && TwigsExact(ks[i]) && TwigsExact(ks[i + 1]);
        if cs[i].Remove? { RemoveKeepsTwigsIff(ks[i], ks[i + 1], cs[i].history); }
      }
    }
    if forall i :: 0 <= i < |cs| ==> HarmlessAt(ks, cs, i) {
      forall n: Node | 0 <= n < |ks| ensures TwigsExact(ks[n]) { TwigsExactSoFar(ks, cs, n); }
    }
  }

  /** Removing one of two leaves below a history leaves it with one child, and no twig. */
  lemma SiblingRemoved()
    ensures var a := Upkeep(Graph({0, 1, 2}, {(0, 1), (0, 2)}), {1, 2}, {});
            TwigsExact(a) && !Harmless(a.graph, 2)
  {
    var a := Upkeep(Graph({0, 1, 2}, {(0, 1), (0, 2)}), {1, 2}, {});
    forall n: Node ensures !OneChild(a.graph, n) {
      if c: Node :| OnlyChild(a.graph, n, c) {
        assert (n, c) in a.graph.edges;
        assert (n, 1) in a.graph.edges && (n, 2) in a.graph.edges;
      }
    }
    assert (0, 2) in a.graph.edges;
    assert OtherChild(a.graph, 0, 2, 1);
    assert OneOther(a.graph, 0, 2);
  }
}
