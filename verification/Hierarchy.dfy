/** `StateHierarchy`: the history graph behind lazy solving and merging.  Weak references are
    node numbers; whether a history is satisfiable is a parameter. */
module Hierarchy {
  import opened Wrappers
  import opened Digraph
  import opened Contraction
  import opened Twigs

  /** A symbolic state, reduced to its history: one given to the manager, or the merge of others. */
  datatype SimState = Given(id: nat, history: Node) | Merged(parts: seq<SimState>, history: Node)

  /** A history that can be reached has only reachable ancestors. */
  ghost predicate Monotone(g: Graph, reachable: Node -> bool) {
    forall u, v :: Reach(g, u, v) && reachable(v) ==> reachable(u)
  }

  // ------------------------------------------------- lineage

  /** The chain of ancestors of `h`, oldest first. */
  ghost predicate IsLineage(g: Graph, l: seq<Node>, h: Node) {
    IsPath(g, l + [h]) && Predecessors(g, (l + [h])[0]) == {}
  }

  lemma {:induction false} AncestorOnLineage(g: Graph, l: seq<Node>, h: Node, p: seq<Node>)
    requires SingleParents(g) && IsLineage(g, l, h) && |p| >= 2 && PathFrom(g, p, p[0], h)
    ensures p[0] in l
    decreases |p|
  {
    var n := |p| - 2;
    assert (p[n], p[n + 1]) in g.edges;
    assert p[n] in Predecessors(g, h) by { assert (p[n], h) in g.edges; }
    var all := l + [h];
    if l != [] {
      var k := |l| - 1;
      assert (all[k], all[k + 1]) in g.edges;
      assert l[k] == p[n];
      if n > 0 {
        PathSlice(g, p, 0, n);
        assert forall i :: 0 <= i < k ==> (l[..k] + [l[k]])[i] == all[i];
        assert l[..k] + [l[k]] == l;
        assert forall i :: 0 <= i < |l| - 1 ==> (l[i], l[i + 1]) == (all[i], all[i + 1]);
        assert l[0] == all[0];
        AncestorOnLineage(g, l[..k], l[k], p[0..n + 1]);
      }
    }
  }

  /** In a forest the lineage lists exactly the strict ancestors. */
  lemma LineageIsAncestors(g: Graph, l: seq<Node>, h: Node, x: Node)
    requires SingleParents(g) && IsLineage(g, l, h)
    ensures x in l <==> Reach(g, x, h)
  {
    if Reach(g, x, h) {
      var p :| PathFrom(g, p, x, h);
      AncestorOnLineage(g, l, h, p);
    }
    if x in l {
      var i :| 0 <= i < |l| && l[i] == x;
      PathSlice(g, l + [h], i, |l|);
    }
  }

  // ------------------------------------------------- the binary search

  /** `_find_root_unreachable` on a lineage: `Some(b)` is the index of the returned ancestor, `None`
      the history itself.  The result is unreachable and its older neighbour reachable, unless that
      neighbour is the oldest ancestor, which is never looked at when there are several. */
  method SearchRoot(l: seq<Node>, reachable: Node -> bool) returns (r: Option<nat>)
    ensures r.None? <==> l == [] || reachable(l[|l| - 1])
    ensures r.Some? ==> r.value < |l| && !reachable(l[r.value])
    ensures r.Some? && |l| >= 2 ==> r.value >= 1 && (r.value == 1 || reachable(l[r.value - 1]))
  {
    if l == [] || reachable(l[|l| - 1]) {
      return None;
    }
    var good, bad := 0, |l| - 1;
    while true
      invariant 0 <= good <= bad < |l|
      invariant !reachable(l[bad])
      invariant good == 0 || reachable(l[good])
      invariant |l| >= 2 ==> good < bad
      decreases bad - good
    {
      var cur := (bad + good) / 2;
      if cur == good || cur == bad {
        if reachable(l[bad]) {
          bad := bad + 1;
        }
        return Some(bad);
      }
      if reachable(l[cur]) {
        good := cur;
      } else {
        bad := cur;
      }
    }
  }

  /** Nothing older than `b` on the lineage is unreachable. */
  predicate Earliest(l: seq<Node>, reachable: Node -> bool, b: nat)
    requires b < |l|
  {
    !reachable(l[b]) && forall i :: 0 <= i < b ==> reachable(l[i])
  }

  lemma LineageMonotone(g: Graph, l: seq<Node>, h: Node, reachable: Node -> bool, i: nat, j: nat)
    requires IsLineage(g, l, h) && Monotone(g, reachable) && i < j < |l| && reachable(l[j])
    ensures reachable(l[i])
  {
    PathSlice(g, l + [h], i, j);
  }

  /** The search finds the earliest unreachable ancestor exactly when there is only one ancestor or
      the oldest one is reachable; otherwise it stops at the second oldest. */
  lemma SearchRootExact(g: Graph, l: seq<Node>, h: Node, reachable: Node -> bool, b: nat)
    requires IsLineage(g, l, h) && Monotone(g, reachable) && b < |l| && !reachable(l[b])
    requires |l| >= 2 ==> b >= 1 && (b == 1 || reachable(l[b - 1]))
    ensures Earliest(l, reachable, b) <==> |l| == 1 || reachable(l[0])
    ensures |l| >= 2 && !reachable(l[0]) ==> b == 1
  {
    if |l| >= 2 {
      if b > 1 {
        forall i | 0 <= i < b - 1 ensures reachable(l[i]) { LineageMonotone(g, l, h, reachable, i, b - 1); }
      }
    }
  }

  /** Two ancestors, neither reachable: the search stops at the younger one. */
  method SearchMissesOldest() returns (r: Option<nat>)
    ensures r == Some(1) && !Earliest([0, 1], _ => false, 1)
  {
    var none := (_: Node) => false;
    r := SearchRoot([0, 1], none);
    assert !Earliest([0, 1], _ => false, 1) by { assert [0, 1][0] == 0; }
  }

  // ------------------------------------------------- most mergeable

  /** A postorder of the graph: every node once, descendants before ancestors. */
  ghost predicate IsPostorder(g: Graph, order: seq<Node>) {
    && (forall n :: n in order <==> n in g.nodes) && Distinct(order)
    && (forall i, j :: 0 <= i < |order| && 0 <= j < |order| && Reach(g, order[i], order[j]) ==> j < i)
  }

  /** Some node without successors, found by going down from `u`. */
  lemma {:induction false} SinkBelow(g: Graph, u: Node) returns (n: Node)
    requires WfGraph(g) && Acyclic(g) && u in g.nodes
    ensures n in g.nodes && forall v :: (n, v) !in g.edges
    decreases |Descendants(g, u)|
  {
    if v :| (u, v) in g.edges {
      EdgeReach(g, u, v);
      forall x | x in Descendants(g, v) ensures x in Descendants(g, u) {
        DescendantsExact(g, v, x);
        DescendantsExact(g, u, x);
        ReachTrans(g, u, v, x);
      }
      DescendantsExact(g, u, v);
      DescendantsExact(g, v, v);
      SmallerSet(Descendants(g, v), Descendants(g, u), v);
      n := SinkBelow(g, v);
    } else {
      n := u;
    }
  }

  lemma SmallerSet(a: set<Node>, b: set<Node>, x: Node)
    requires a <= b && x in b && x !in a
    ensures |a| < |b|
  {
    assert a <= b - {x};
    SubsetSize(a, b - {x});
  }

  lemma {:induction false} SubsetSize(a: set<Node>, b: set<Node>)
    requires a <= b
    ensures |a| <= |b|
  {
    if a != {} {
      var x :| x in a;
      SubsetSize(a - {x}, b - {x});
    }
  }

  function WithoutNode(g: Graph, n: Node): Graph {
    Graph(g.nodes - {n}, set e | e in g.edges && e.0 != n && e.1 != n)
  }

  /** Leaving out a sink changes no path between other nodes. */
  lemma WithoutSink(g: Graph, n: Node, u: Node, v: Node)
    requires (forall x :: (n, x) !in g.edges) && u != n && v != n
    ensures Reach(WithoutNode(g, n), u, v) <==> Reach(g, u, v)
  {
    var k := WithoutNode(g, n);
    if Reach(k, u, v) { SubgraphReach(k, g, u, v); }
    if Reach(g, u, v) {
      var p :| PathFrom(g, p, u, v);
      forall i | 0 <= i < |p| - 1 ensures (p[i], p[i + 1]) in k.edges {
        assert (p[i], p[i + 1]) in g.edges;
        if i < |p| - 2 { assert (p[i + 1], p[i + 2]) in g.edges; }
      }
      assert PathFrom(k, p, u, v);
    }
  }

  lemma FirstEdge(g: Graph, u: Node, v: Node)
    requires Reach(g, u, v)
    ensures exists x :: (u, x) in g.edges
  {
    var p :| PathFrom(g, p, u, v);
    assert (p[0], p[1]) in g.edges;
  }

  lemma SinkFirst(g: Graph, n: Node, order: seq<Node>)
    requires WfGraph(g) && Acyclic(g) && n in g.nodes && (forall v :: (n, v) !in g.edges)
    requires IsPostorder(WithoutNode(g, n), order)
    ensures IsPostorder(g, [n] + order)
  {
    var all := [n] + order;
    forall x ensures x in all <==> x in g.nodes {
      assert x in all <==> x == n || x in order;
    }
    assert forall x :: x in order ==> x != n;
    forall i, j | 0 <= i < |all| && 0 <= j < |all| && Reach(g, all[i], all[j]) ensures j < i {
      if i == 0 {
        FirstEdge(g, n, all[j]);
      } else if j > 0 {
        assert all[i] in order && all[j] in order;
        WithoutSink(g, n, all[i], all[j]);
      }
    }
  }

  /** Every finite acyclic graph has a postorder. */
  lemma {:induction false} PostorderExists(g: Graph)
    requires WfGraph(g) && Acyclic(g)
    ensures exists order :: IsPostorder(g, order)
    decreases g.nodes
  {
    if g.nodes == {} {
      assert IsPostorder(g, []);
    } else {
      var u :| u in g.nodes;
      var n := SinkBelow(g, u);
      var k := WithoutNode(g, n);
      forall v ensures !Reach(k, v, v) {
        if Reach(k, v, v) { SubgraphReach(k, g, v, v); }
      }
      PostorderExists(k);
      var order :| IsPostorder(k, order);
      SinkFirst(g, n, order);
    }
  }

  /** How many of the histories are strict descendants of `n`. */
  function Covered(g: Graph, histories: set<Node>, n: Node): set<Node>
    requires WfGraph(g)
  {
    histories * Descendants(g, n)
  }

  function Filter(states: seq<SimState>, s: set<Node>, keep: bool): seq<SimState> {
    if states == [] then []
    else
      var n := |states| - 1;
      var front := Filter(states[..n], s, keep);
      if (states[n].history in s) == keep then front + [states[n]] else front
  }

  lemma {:induction false} FilterSplits(states: seq<SimState>, s: set<Node>)
    ensures multiset(Filter(states, s, true)) + multiset(Filter(states, s, false)) == multiset(states)
    ensures |Filter(states, s, true)| + |Filter(states, s, false)| == |states|
    ensures forall x :: x in Filter(states, s, true) <==> x in states && x.history in s
    ensures forall x :: x in Filter(states, s, false) <==> x in states && x.history !in s
  {
    if states != [] {
      var n := |states| - 1;
      FilterSplits(states[..n], s);
      assert states == states[..n] + [states[n]];
    }
  }

  function Histories(states: seq<SimState>): set<Node> {
    set i | 0 <= i < |states| :: states[i].history
  }

  datatype Mergeable = Found(optimal: seq<SimState>, common: Node, others: seq<SimState>) | NothingShared

  /** The deepest common ancestor: two histories below it, and not below anything underneath it. */
  ghost predicate Deepest(g: Graph, histories: set<Node>, n: Node)
    requires WfGraph(g)
  {
    n in g.nodes && |Covered(g, histories, n)| > 1
    && forall d :: d in Descendants(g, n) ==> |Covered(g, histories, d)| <= 1
  }

  ghost predicate Partition(states: seq<SimState>, g: Graph, r: Mergeable)
    requires WfGraph(g) && r.Found?
  {
    && multiset(r.optimal) + multiset(r.others) == multiset(states)
    && |r.optimal| >= 2
    && |r.optimal| + |r.others| == |states|
    && (forall x :: x in r.optimal ==> x.history in Descendants(g, r.common))
    && (forall x :: x in r.others ==> x.history !in Descendants(g, r.common))
  }

  lemma TwoKept(states: seq<SimState>, s: set<Node>)
    requires s <= Histories(states) && |s| > 1
    ensures |Filter(states, s, true)| >= 2
  {
    FilterSplits(states, s);
    var a :| a in s;
    assert |s - {a}| == |s| - 1;
    var b :| b in s - {a};
    var i :| 0 <= i < |states| && states[i].history == a;
    var j :| 0 <= j < |states| && states[j].history == b;
    var kept := Filter(states, s, true);
    assert states[i] in kept && states[j] in kept;
    var x :| 0 <= x < |kept| && kept[x] == states[i];
    var y :| 0 <= y < |kept| && kept[y] == states[j];
    assert x != y;
  }

  /** None of the first `k` nodes has two histories below it. */
  predicate NoneBefore(g: Graph, histories: set<Node>, order: seq<Node>, k: nat)
    requires WfGraph(g) && k <= |order|
  {
    forall i :: 0 <= i < k ==> |Covered(g, histories, order[i])| <= 1
  }

  lemma EarlierCoversNone(g: Graph, histories: set<Node>, order: seq<Node>, k: nat)
    requires WfGraph(g) && IsPostorder(g, order) && k < |order|
    requires NoneBefore(g, histories, order, k)
    ensures forall d :: d in Descendants(g, order[k]) ==> |Covered(g, histories, d)| <= 1
  {
    forall d | d in Descendants(g, order[k]) ensures |Covered(g, histories, d)| <= 1 {
      DescendantsExact(g, order[k], d);
      var p :| PathFrom(g, p, order[k], d);
      PathNodes(g, p, |p| - 1);
      var j :| 0 <= j < |order| && order[j] == d;
      assert Reach(g, order[k], order[j]);
    }
  }

  lemma FoundPartition(states: seq<SimState>, g: Graph, n: Node)
    requires WfGraph(g) && |Covered(g, Histories(states), n)| > 1
    ensures var shared := Covered(g, Histories(states), n);
            Partition(states, g, Found(Filter(states, shared, true), n, Filter(states, shared, false)))
  {
    var shared := Covered(g, Histories(states), n);
    FilterSplits(states, shared);
    TwoKept(states, shared);
    forall x | x in Filter(states, shared, false) ensures x.history !in Descendants(g, n) {
      var i :| 0 <= i < |states| && states[i] == x;
      assert x.history in Histories(states);
    }
  }

  /** `most_mergeable`: the first node of a postorder with two histories below it. */
  method MostMergeable(states: seq<SimState>, g: Graph, order: seq<Node>) returns (r: Mergeable)
    requires WfGraph(g) && IsPostorder(g, order)
    ensures r.Found? ==> Deepest(g, Histories(states), r.common) && Partition(states, g, r)
    ensures r.Found? ==> var shared := Covered(g, Histories(states), r.common);
                         r.optimal == Filter(states, shared, true) && r.others == Filter(states, shared, false)
    ensures r.NothingShared? ==> forall n :: n in g.nodes ==> |Covered(g, Histories(states), n)| <= 1
  {
    var histories := Histories(states);
    for k := 0 to |order|
      invariant NoneBefore(g, histories, order, k)
    {
      var shared := Covered(g, histories, order[k]);
      if |shared| > 1 {
        FirstIsDeepest(g, histories, order, k);
        FoundPartition(states, g, order[k]);
        return Found(Filter(states, shared, true), order[k], Filter(states, shared, false));
      }
    }
    NoneAtAll(g, histories, order);
    r := NothingShared;
  }

  lemma FirstIsDeepest(g: Graph, histories: set<Node>, order: seq<Node>, k: nat)
    requires WfGraph(g) && IsPostorder(g, order) && k < |order|
    requires NoneBefore(g, histories, order, k) && |Covered(g, histories, order[k])| > 1
    ensures Deepest(g, histories, order[k])
  {
    EarlierCoversNone(g, histories, order, k);
    assert order[k] in order;
  }

  lemma NoneAtAll(g: Graph, histories: set<Node>, order: seq<Node>)
    requires WfGraph(g) && IsPostorder(g, order) && NoneBefore(g, histories, order, |order|)
    ensures forall n :: n in g.nodes ==> |Covered(g, histories, n)| <= 1
  {
    forall n | n in g.nodes ensures |Covered(g, histories, n)| <= 1 {
      assert n in order;
      var i :| 0 <= i < |order| && order[i] == n;
    }
  }

  lemma OnlyChildIs(g: Graph, p: Node, h: Node)
    requires (p, h) in g.edges
    ensures |Successors(g, {p})| == 1 <==> forall e :: e in g.edges && e.0 == p ==> e.1 == h
  {
    var s := Successors(g, {p});
    assert h in s by { assert (p, h).0 in {p}; }
    if |s| == 1 {
      assert |s - {h}| == 0;
      assert forall e :: e in g.edges && e.0 == p ==> e.1 in s;
    }
    if forall e :: e in g.edges && e.0 == p ==> e.1 == h { assert s == {h}; }
  }

  // ------------------------------------------------- the mutable hierarchy

  class StateHierarchy {
    var graph: Graph
    var leaves: set<Node>
    var twigs: set<Node>
    var unsatisfiable: set<Node>

    ghost predicate Valid()
      reads this
    {
      WfGraph(graph) && Acyclic(graph)
    }

    ghost function View(): Upkeep
      reads this
    {
      Upkeep(graph, leaves, twigs)
    }

    constructor ()
      ensures Valid() && Forest(graph) && graph == Graph({}, {})
    {
      graph, leaves, twigs, unsatisfiable := Graph({}, {}), {}, {}, {};
      new;
      EmptyAcyclic();
    }

    /** Joins predecessors to successors one pair at a time, then removes the node. */
    method RemoveHistory(h: Node)
      requires Valid()
      modifies this
      ensures Valid() && RemovedFrom(old(View()), View(), h) && unsatisfiable == old(unsatisfiable)
    {
      if h in graph.nodes {
        var pairs := set a, b | a in Predecessors(graph, h) && b in Successors(graph, {h}) :: (a, b);
        var todo := pairs;
        while todo != {}
          invariant todo <= pairs
          invariant graph == Graph(old(graph.nodes), old(graph.edges) + (pairs - todo))
          invariant leaves == old(leaves) && twigs == old(twigs) && unsatisfiable == old(unsatisfiable)
        {
          var e :| e in todo;
          graph := graph.(edges := graph.edges + {e});
          todo := todo - {e};
        }
        graph := Graph(graph.nodes - {h}, set e | e in graph.edges && e.0 != h && e.1 != h);
        forall e ensures e in graph.edges <==> e in Contract(old(graph), h).edges {
          assert e == (e.0, e.1);
          ContractEdge(old(graph), h, e.0, e.1);
          BridgePair(old(graph), h, e.0, e.1);
        }
      }
      leaves := leaves - {h};
      twigs := twigs - {h};
      ContractKeepsForest(old(graph), h);
      assert graph == Contract(old(graph), h);
    }

    /** Adds a history below its parent.  The graph stays acyclic exactly when the parent is not
        below the history, and keeps single parents exactly when the history had no other one; a
        history that is new satisfies both. */
    method AddHistory(h: Node, parent: Option<Node>)
      requires Valid() && parent != Some(h)
      modifies this
      ensures graph == WithHistory(old(graph), h, parent) && WfGraph(graph)
      ensures Acyclic(graph) <==> !(parent.Some? && Reach(old(graph), h, parent.value))
      ensures SingleParents(graph) <==>
                old(SingleParents(graph)) && (parent.Some? ==> Predecessors(old(graph), h) <= {parent.value})
      ensures AddedTo(old(View()), View(), h, parent) && unsatisfiable == old(unsatisfiable)
      ensures h !in old(graph.nodes) ==>
                Valid() && forall u, v :: v != h ==> (Reach(graph, u, v) <==> Reach(old(graph), u, v))
    {
      graph := graph.(nodes := graph.nodes + {h});
      if parent.Some? {
        var p := parent.value;
        graph := Graph(graph.nodes + {p}, graph.edges + {(p, h)});
        OnlyChildIs(graph, p, h);
        leaves := leaves - {p};
        if |Successors(graph, {p})| == 1 {
          twigs := twigs + {p};
        } else {
          twigs := twigs - {p};
        }
      }
      leaves := leaves + {h};
      HistoryAdded(old(graph), h, parent);
    }

    /** Contracts every twig; survivors keep their ancestors. */
    method Simplify()
      requires Valid()
      modifies this
      ensures Valid() && twigs == {} && unsatisfiable == old(unsatisfiable)
      ensures graph.nodes == old(graph.nodes) - old(twigs) && leaves == old(leaves) - old(twigs)
      ensures old(SingleParents(graph)) ==> SingleParents(graph)
      ensures old(SingleParents(graph) && TwigsExact(View())) ==> TwigsExact(View())
      ensures forall u, v :: u !in old(twigs) && v !in old(twigs) ==> (Reach(graph, u, v) <==> Reach(old(graph), u, v))
    {
      var todo := twigs;
      twigs := {};
      while todo != {}
        invariant todo <= old(twigs) && twigs == {} && unsatisfiable == old(unsatisfiable)
        invariant Valid() && graph.nodes == old(graph.nodes) - (old(twigs) - todo) && leaves == old(leaves) - (old(twigs) - todo)
        invariant old(SingleParents(graph)) ==> SingleParents(graph)
        invariant old(SingleParents(graph) && TwigsExact(View())) ==> TwigsExact(Upkeep(graph, leaves, todo))
        invariant forall u, v :: u !in old(twigs) && v !in old(twigs) ==>
          (Reach(graph, u, v) <==> Reach(old(graph), u, v))
      {
        var h :| h in todo;
        ghost var before := graph;
        ContractKeepsForest(before, h);
        ghost var was := Upkeep(graph, leaves, todo);
        RemoveHistory(h);
        if old(SingleParents(graph) && TwigsExact(View())) {
          TwigRemoved(was, Upkeep(graph, leaves, todo - {h}), h);
        }
        forall u, v | u !in old(twigs) && v !in old(twigs) ensures Reach(graph, u, v) <==> Reach(before, u, v) {
          ContractKeepsAncestry(before, h, u, v);
        }
        todo := todo - {h};
      }
    }

    /** Follows the predecessor of each node up to the root. */
    method Lineage(h: Node) returns (l: seq<Node>)
      requires Valid() && h in graph.nodes
      ensures IsLineage(graph, l, h)
      ensures forall i :: 0 <= i < |l| ==> l[i] in graph.nodes
    {
      l := [];
      var preds := Predecessors(graph, h);
      while preds != {}
        invariant IsPath(graph, l + [h]) && preds == Predecessors(graph, (l + [h])[0])
        invariant forall i :: 0 <= i < |l| ==> l[i] in graph.nodes
        decreases graph.nodes - Elements(l)
      {
        var p :| p in preds;
        assert (p, (l + [h])[0]) in graph.edges;
        NewAncestor(graph, l + [h], p);
        assert p !in Elements(l) by { assert forall x :: x in l ==> x in l + [h]; }
        ghost var was := l;
        l := [p] + l;
        assert Elements(l) == Elements(was) + {p};
        assert l + [h] == [p] + (was + [h]);
        preds := Predecessors(graph, p);
      }
    }

    /** Marks and removes a history with everything below it; its parent becomes a twig if it has no
        other child. */
    method PruneSubtree(root: Node)
      requires Valid() && root in graph.nodes
      modifies this
      ensures Valid() && graph == Pruned(old(graph), root)
      ensures unsatisfiable == old(unsatisfiable) + {root} + Descendants(old(graph), root)
      ensures leaves == old(leaves) && forall n: Node :: n in twigs <==> n in old(twigs) || OnlyEdge(old(graph), n, root)
      ensures old(SingleParents(graph)) ==> SingleParents(graph)
      ensures forall u, v :: u in graph.nodes && v in graph.nodes ==> (Reach(graph, u, v) <==> Reach(old(graph), u, v))
    {
      ghost var was := graph;
      PrunedKeeps(was, root);
      var preds := Predecessors(graph, root);
      OnlyEdgeIs(was, root);
      if |preds| == 1 {
        var p :| p in preds;
        if |Successors(graph, {p})| == 1 {
          twigs := twigs + {p};
        }
      }
      var below := {root} + Descendants(graph, root);
      unsatisfiable := unsatisfiable + below;
      var nodes := graph.nodes - below;
      graph := Graph(nodes, set e | e in graph.edges && e.0 in nodes && e.1 in nodes);
    }

    /** Prunes from the earliest unreachable ancestor of an unreachable history.  Only unreachable
        histories go, and the removed part is exactly a subtree containing `h`; the survivors keep
        their ancestors.  No unreachable ancestor is left exactly when `h` has at most one ancestor or
        its oldest one is reachable. */
    method UnreachableHistory(h: Node, reachable: Node -> bool) returns (ghost root: Node)
      requires Valid() && SingleParents(graph)
      requires Monotone(graph, reachable) && !reachable(h)
      modifies this
      ensures Valid() && SingleParents(graph) && Monotone(graph, reachable) && h !in graph.nodes
      ensures h !in old(graph.nodes) ==> View() == old(View()) && unsatisfiable == old(unsatisfiable)
      ensures leaves == old(leaves)
      ensures h in old(graph.nodes) ==> forall n: Node :: n in twigs <==> n in old(twigs) || OnlyEdge(old(graph), n, root)
      ensures h in old(graph.nodes) ==>
                && graph == Pruned(old(graph), root) && !reachable(root) && (root == h || Reach(old(graph), root, h))
                && unsatisfiable == old(unsatisfiable) + {root} + Descendants(old(graph), root)
      ensures forall x :: x in old(graph.nodes) && x !in graph.nodes ==> !reachable(x)
      ensures forall u, v :: u in graph.nodes && v in graph.nodes ==> (Reach(graph, u, v) <==> Reach(old(graph), u, v))
      ensures h in old(graph.nodes) ==>
                (CleanLineage(old(graph), graph, h, reachable) <==> OldestReachable(old(graph), h, reachable))
    {
      root := h;
      if h !in graph.nodes {
        return;
      }
      var l := Lineage(h);
      var b := SearchRoot(l, reachable);
      var top := if b.Some? then l[b.value] else h;
      root := top;
      ghost var g := graph;
      PruneSubtree(top);
      PrunedLineage(g, l, h, root, b, reachable);
      PrunedMonotone(g, root, reachable);
    }
  }

  /** The graph without a history and everything below it. */
  function Pruned(g: Graph, root: Node): Graph
    requires WfGraph(g)
  {
    var nodes := g.nodes - ({root} + Descendants(g, root));
    Graph(nodes, set e | e in g.edges && e.0 in nodes && e.1 in nodes)
  }

  /** The node is the only parent of the history, and the history its only child. */
  predicate OnlyEdge(g: Graph, n: Node, h: Node) {
    (n, h) in g.edges && forall e :: e in g.edges ==> (e.1 == h ==> e.0 == n) && (e.0 == n ==> e.1 == h)
  }

  lemma OnlyEdgeIs(g: Graph, h: Node)
    ensures forall n: Node :: OnlyEdge(g, n, h) <==>
              Predecessors(g, h) == {n} && |Successors(g, {n})| == 1
    ensures |Predecessors(g, h)| == 1 <==> exists n :: Predecessors(g, h) == {n}
  {
    var preds := Predecessors(g, h);
    forall n: Node ensures OnlyEdge(g, n, h) <==> preds == {n} && |Successors(g, {n})| == 1 {
      if preds == {n} {
        assert n in preds;
        assert (n, h) in g.edges by { BridgePair(g, h, n, n); }
        OnlyChildIs(g, n, h);
        assert forall e :: e in g.edges && e.1 == h ==> e.0 in preds;
      }
      if OnlyEdge(g, n, h) {
        BridgePair(g, h, n, n);
        OnlyChildIs(g, n, h);
        assert n in preds by { assert (n, h) in g.edges; }
        assert preds == {n};
      }
    }
    if |preds| == 1 {
      var n :| n in preds;
      assert |preds - {n}| == 0;
      assert preds == {n};
    }
  }

  lemma SubgraphReach(k: Graph, g: Graph, u: Node, v: Node)
    requires k.edges <= g.edges && Reach(k, u, v)
    ensures Reach(g, u, v)
  {
    var p :| PathFrom(k, p, u, v);
    assert PathFrom(g, p, u, v);
  }

  /** A path to a survivor passes through survivors only. */
  lemma PathSurvives(g: Graph, root: Node, p: seq<Node>, u: Node, v: Node)
    requires WfGraph(g) && PathFrom(g, p, u, v) && v in Pruned(g, root).nodes
    ensures PathFrom(Pruned(g, root), p, u, v)
  {
    var k := Pruned(g, root);
    forall i | 0 <= i < |p| ensures p[i] in k.nodes {
      PathNodes(g, p, i);
      if i < |p| - 1 {
        PathSlice(g, p, i, |p| - 1);
        DescendantsExact(g, root, p[i]);
        DescendantsExact(g, root, v);
        if Reach(g, root, p[i]) { ReachTrans(g, root, p[i], v); }
      }
    }
  }

  /** Pruning keeps the graph a forest and the ancestors of the survivors. */
  lemma PrunedKeeps(g: Graph, root: Node)
    requires WfGraph(g) && Acyclic(g)
    ensures var k := Pruned(g, root);
            && WfGraph(k) && Acyclic(k) && (SingleParents(g) ==> SingleParents(k))
            && (forall x :: x in k.nodes <==> x in g.nodes && x != root && !Reach(g, root, x))
            && forall u, v :: u in k.nodes && v in k.nodes ==> (Reach(k, u, v) <==> Reach(g, u, v))
  {
    var k := Pruned(g, root);
    forall x ensures x in Descendants(g, root) <==> Reach(g, root, x) { DescendantsExact(g, root, x); }
    forall u, v ensures Reach(k, u, v) ==> Reach(g, u, v) {
      if Reach(k, u, v) { SubgraphReach(k, g, u, v); }
    }
    forall u, v | u in k.nodes && v in k.nodes && Reach(g, u, v) ensures Reach(k, u, v) {
      var p :| PathFrom(g, p, u, v);
      PathSurvives(g, root, p, u, v);
    }
  }

  lemma PrunedMonotone(g: Graph, root: Node, reachable: Node -> bool)
    requires WfGraph(g) && Monotone(g, reachable)
    ensures Monotone(Pruned(g, root), reachable)
  {
    var k := Pruned(g, root);
    forall u, v | Reach(k, u, v) && reachable(v) ensures reachable(u) {
      SubgraphReach(k, g, u, v);
    }
  }

  /** What pruning at the root that the search found means for the lineage. */
  lemma PrunedLineage(g: Graph, l: seq<Node>, h: Node, root: Node, b: Option<nat>, reachable: Node -> bool)
    requires WfGraph(g) && Acyclic(g) && SingleParents(g) && IsLineage(g, l, h) && h in g.nodes
    requires Monotone(g, reachable) && !reachable(h)
    requires forall i :: 0 <= i < |l| ==> l[i] in g.nodes
    requires b.None? ==> root == h && (l == [] || reachable(l[|l| - 1]))
    requires b.Some? ==> b.value < |l| && root == l[b.value] && !reachable(l[b.value])
    requires b.Some? && |l| >= 2 ==> b.value >= 1 && (b.value == 1 || reachable(l[b.value - 1]))
    ensures var k := Pruned(g, root);
            && h !in k.nodes && !reachable(root) && (root == h || Reach(g, root, h))
            && (forall x :: x in g.nodes && x !in k.nodes ==> !reachable(x))
            && (CleanLineage(g, k, h, reachable) <==> OldestReachable(g, h, reachable))
  {
    PrunedUnreachable(g, root, reachable);
    PrunedHistory(g, l, h, root, b);
    DescendantsExact(g, root, h);
    CleanIffOldest(g, Pruned(g, root), l, h, root, b, reachable);
  }

  /** No unreachable ancestor of `h`, and not `h` itself, is left. */
  ghost predicate CleanLineage(g: Graph, k: Graph, h: Node, reachable: Node -> bool) {
    forall x :: (x == h || Reach(g, x, h)) && !reachable(x) ==> x !in k.nodes
  }

  /** The oldest ancestor of `h` is reachable, or it is the only one. */
  ghost predicate OldestReachable(g: Graph, h: Node, reachable: Node -> bool) {
    forall r :: Reach(g, r, h) && Predecessors(g, r) == {} ==>
      reachable(r) || forall y :: Reach(g, y, h) ==> y == r
  }

  lemma EmptyAcyclic()
    ensures Acyclic(Graph({}, {}))
  {
    forall p, v ensures !PathFrom(Graph({}, {}), p, v, v) {
      assert |p| >= 2 ==> (p[0], p[1]) !in Graph({}, {}).edges;
    }
  }

  lemma BridgePair(g: Graph, h: Node, u: Node, v: Node)
    ensures (u in Predecessors(g, h) && v in Successors(g, {h})) <==> ((u, h) in g.edges && (h, v) in g.edges)
  {
    if u in Predecessors(g, h) {
      var e :| e in g.edges && e.1 == h && e.0 == u;
      assert e == (u, h);
    }
    if v in Successors(g, {h}) {
      var e :| e in g.edges && e.0 in {h} && e.1 == v;
      assert e == (h, v);
    }
  }

  // ------------------------------------------------- adding a history

  /** A walk that is not in `g` uses the new edge: `p` is met on the way, then `h`. */
  lemma {:induction false} NewEdgeUsed(g: Graph, k: Graph, p: Node, h: Node, q: seq<Node>)
    requires k.edges == g.edges + {(p, h)} && |q| >= 2 && IsPath(k, q)
    ensures PathFrom(g, q, q[0], q[|q| - 1]) ||
            ((q[0] == p || Reach(g, q[0], p)) && (q[|q| - 1] == h || Reach(g, h, q[|q| - 1])))
    decreases |q|
  {
    var n := |q| - 1;
    assert (q[0], q[1]) in k.edges;
    if |q| > 2 {
      PathSlice(k, q, 1, n);
      assert q[1..n + 1] == q[1..];
      NewEdgeUsed(g, k, p, h, q[1..]);
    }
    if (q[0], q[1]) in g.edges {
      EdgeReach(g, q[0], q[1]);
      if |q| > 2 {
        if PathFrom(g, q[1..], q[1], q[n]) {
          assert forall i :: 1 <= i < n ==> (q[i], q[i + 1]) == (q[1..][i - 1], q[1..][i]);
          assert PathFrom(g, q, q[0], q[n]);
        } else if q[1] != p {
          ReachTrans(g, q[0], q[1], p);
        }
      }
    } else if |q| > 2 && PathFrom(g, q[1..], q[1], q[n]) {
      assert Reach(g, h, q[n]);
    }
  }

  lemma HistoryAdded(g: Graph, h: Node, parent: Option<Node>)
    requires WfGraph(g) && Acyclic(g) && parent != Some(h)
    ensures var k := WithHistory(g, h, parent);
            && WfGraph(k)
            && (Acyclic(k) <==> !(parent.Some? && Reach(g, h, parent.value)))
            && (SingleParents(k) <==> SingleParents(g) && (parent.Some? ==> Predecessors(g, h) <= {parent.value}))
            && (h !in g.nodes ==> Acyclic(k) && forall u, v :: v != h ==> (Reach(k, u, v) <==> Reach(g, u, v)))
  {
    var k := WithHistory(g, h, parent);
    forall q | IsPath(g, q) ensures IsPath(k, q) {}
    forall q, u, v | PathFrom(g, q, u, v) ensures Reach(k, u, v) { assert PathFrom(k, q, u, v); }
    if parent.None? {
      forall q, u, v | PathFrom(k, q, u, v) ensures Reach(g, u, v) { assert PathFrom(g, q, u, v); }
    } else {
      var p := parent.value;
      AcyclicIff(g, k, p, h);
      ParentsIff(g, k, p, h);
      if h !in g.nodes {
        forall v ensures !Reach(g, h, v) { NoPathOutside(g, h, v); }
        forall u, v | v != h && Reach(k, u, v) ensures Reach(g, u, v) {
          var q :| PathFrom(k, q, u, v);
          NewEdgeUsed(g, k, p, h, q);
        }
      }
    }
  }

  lemma NoPathOutside(g: Graph, h: Node, v: Node)
    requires WfGraph(g) && h !in g.nodes
    ensures !Reach(g, h, v)
  {
    forall q ensures !PathFrom(g, q, h, v) {
      assert |q| >= 2 && q[0] == h ==> (q[0], q[1]) !in g.edges;
    }
  }

  lemma AcyclicIff(g: Graph, k: Graph, p: Node, h: Node)
    requires Acyclic(g) && p != h && k.edges == g.edges + {(p, h)}
    ensures Acyclic(k) <==> !Reach(g, h, p)
  {
    if Reach(g, h, p) {
      var q :| PathFrom(g, q, h, p);
      assert PathFrom(k, q, h, p);
      EdgeReach(k, p, h);
      ReachTrans(k, h, p, h);
    }
    if v :| Reach(k, v, v) {
      var q :| PathFrom(k, q, v, v);
      NewEdgeUsed(g, k, p, h, q);
      assert !Reach(g, v, v);
      if v != p && v != h { ReachTrans(g, h, v, p); }
    }
  }

  lemma ParentsIff(g: Graph, k: Graph, p: Node, h: Node)
    requires k.edges == g.edges + {(p, h)}
    ensures SingleParents(k) <==> SingleParents(g) && Predecessors(g, h) <= {p}
  {
    if SingleParents(k) {
      forall x | x in Predecessors(g, h) ensures x == p {
        var e :| e in g.edges && e.1 == h && e.0 == x;
        assert e in k.edges && (p, h) in k.edges;
      }
    }
    if SingleParents(g) && Predecessors(g, h) <= {p} {
      forall a, b | a in k.edges && b in k.edges && a.1 == b.1 ensures a.0 == b.0 {
        assert a in g.edges && a.1 == h ==> a.0 in Predecessors(g, h);
        assert b in g.edges && b.1 == h ==> b.0 in Predecessors(g, h);
      }
    }
  }

  /** A kept state whose parent was contracted gets a second parent when it is added again. */
  lemma ReaddedHistoryHasTwoParents()
    ensures var chain := Graph({0, 1, 2}, {(0, 1), (1, 2)});
            SingleParents(chain) && !SingleParents(WithHistory(Contract(chain, 1), 2, Some(1)))
  {
    var chain := Graph({0, 1, 2}, {(0, 1), (1, 2)});
    ContractEdge(chain, 1, 0, 2);
    var k := WithHistory(Contract(chain, 1), 2, Some(1));
    assert (0, 2) in k.edges && (1, 2) in k.edges;
  }

  lemma NewAncestor(g: Graph, p: seq<Node>, u: Node)
    requires Acyclic(g) && IsPath(g, p) && (u, p[0]) in g.edges
    ensures u !in p && IsPath(g, [u] + p)
  {
    var q := [u] + p;
    assert forall i :: 0 < i < |q| - 1 ==> (q[i], q[i + 1]) == (p[i - 1], p[i]);
    if u in p {
      var i :| 0 <= i < |p| && p[i] == u;
      PathSlice(g, q, 0, i + 1);
      assert Reach(g, u, u);
    }
  }

  lemma PrunedUnreachable(g: Graph, root: Node, reachable: Node -> bool)
    requires WfGraph(g) && Monotone(g, reachable) && !reachable(root)
    ensures forall x :: x == root || x in Descendants(g, root) ==> !reachable(x)
  {
    forall x | x in Descendants(g, root) ensures !reachable(x) { DescendantsExact(g, root, x); }
  }

  lemma PrunedHistory(g: Graph, l: seq<Node>, h: Node, root: Node, b: Option<nat>)
    requires WfGraph(g) && IsLineage(g, l, h)
    requires b.Some? ==> b.value < |l| && root == l[b.value]
    requires b.None? ==> root == h
    ensures h == root || h in Descendants(g, root)
  {
    if b.Some? {
      PathSlice(g, l + [h], b.value, |l|);
      DescendantsExact(g, root, h);
    }
  }

  lemma CleanIffOldest(g: Graph, k: Graph, l: seq<Node>, h: Node, root: Node, b: Option<nat>, reachable: Node -> bool)
    requires WfGraph(g) && Acyclic(g) && SingleParents(g) && IsLineage(g, l, h) && h in g.nodes
    requires Monotone(g, reachable) && !reachable(h)
    requires forall i :: 0 <= i < |l| ==> l[i] in g.nodes
    requires b.None? ==> root == h && (l == [] || reachable(l[|l| - 1]))
    requires b.Some? ==> b.value < |l| && root == l[b.value] && !reachable(l[b.value])
    requires b.Some? && |l| >= 2 ==> b.value >= 1 && (b.value == 1 || reachable(l[b.value - 1]))
    requires k.nodes == g.nodes - {root} - Descendants(g, root)
    ensures CleanLineage(g, k, h, reachable) <==> OldestReachable(g, h, reachable)
  {
    forall x ensures x in l <==> Reach(g, x, h) { LineageIsAncestors(g, l, h, x); }
    PrunedHistory(g, l, h, root, b);
    OldestIsFirst(g, l, h, reachable);
    if b.None? {
      forall x | Reach(g, x, h) ensures reachable(x) {
        var i :| 0 <= i < |l| && l[i] == x;
        if i < |l| - 1 { LineageMonotone(g, l, h, reachable, i, |l| - 1); }
      }
      assert CleanLineage(g, k, h, reachable);
      assert l != [] ==> Reach(g, l[0], h);
    } else {
      var at := b.value;
      SearchRootExact(g, l, h, reachable, at);
      forall i | 0 <= i < |l| ensures l[i] in k.nodes <==> i < at {
        DescendantsExact(g, root, l[i]);
        if i > at {
          PathSlice(g, l + [h], at, i);
        } else if i < at {
          PathSlice(g, l + [h], i, at);
          if Reach(g, root, l[i]) { ReachTrans(g, l[i], root, l[i]); }
          assert l[i] != root;
        }
      }
      if Earliest(l, reachable, at) {
        forall x | (x == h || Reach(g, x, h)) && !reachable(x) ensures x !in k.nodes {
          if x != h {
            var i :| 0 <= i < |l| && l[i] == x;
          }
        }
      } else {
        assert l[0] in k.nodes && !reachable(l[0]) && Reach(g, l[0], h);
      }
    }
  }

  lemma OldestIsFirst(g: Graph, l: seq<Node>, h: Node, reachable: Node -> bool)
    requires WfGraph(g) && Acyclic(g) && SingleParents(g) && IsLineage(g, l, h)
    requires forall x :: x in l <==> Reach(g, x, h)
    ensures OldestReachable(g, h, reachable) <==> |l| <= 1 || reachable(l[0])
  {
    if l != [] {
      assert Predecessors(g, l[0]) == {} by { assert (l + [h])[0] == l[0]; }
      assert l[0] in l;
      forall i | 0 < i < |l| ensures Predecessors(g, l[i]) != {} {
        var all := l + [h];
        assert (all[i - 1], all[i]) in g.edges;
        assert all[i - 1] in Predecessors(g, l[i]);
      }
      if |l| >= 2 {
        assert l[1] in l;
        PathSlice(g, l + [h], 0, 1);
        assert Reach(g, l[0], l[1]);
        assert l[0] != l[1];
      }
    }
  }
}
