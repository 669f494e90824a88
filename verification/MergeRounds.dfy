/** How a list of states becomes one: which states every round merges, on the history graph as it then is,
    and how the merged states nest. */
module MergeRounds {
  import opened Wrappers
  import opened Digraph
  import opened Twigs
  import opened Hierarchy

  // ------------------------------------------------- picking states

  /** `picked` lists the states at the positions that satisfy the condition, in order. */
  ghost predicate PickedAt(states: seq<SimState>, p: SimState -> bool, picked: seq<SimState>, at: seq<nat>) {
    && |at| == |picked| && Increasing(at)
    && (forall i :: 0 <= i < |at| ==> Taken(states, picked, at, i))
    && (forall j :: 0 <= j < |states| ==> Sorted(states, p, at, j))
  }

  predicate Increasing(at: seq<nat>) { forall i, j :: 0 <= i < j < |at| ==> at[i] < at[j] }

  predicate Taken(states: seq<SimState>, picked: seq<SimState>, at: seq<nat>, i: nat)
    requires i < |at| == |picked|
  {
    at[i] < |states| && picked[i] == states[at[i]]
  }

  predicate Sorted(states: seq<SimState>, p: SimState -> bool, at: seq<nat>, j: nat)
    requires j < |states|
  {
    j in at <==> p(states[j])
  }

  ghost predicate Picked(states: seq<SimState>, p: SimState -> bool, picked: seq<SimState>) {
    exists at :: PickedAt(states, p, picked, at)
  }

  lemma PickedNone(p: SimState -> bool)
    ensures Picked([], p, [])
  {
    assert PickedAt([], p, [], []);
  }

  lemma PickedLast(states: seq<SimState>, p: SimState -> bool, front: seq<SimState>)
    requires states != [] && Picked(states[..|states| - 1], p, front)
    ensures Picked(states, p, if p(states[|states| - 1]) then front + [states[|states| - 1]] else front)
  {
    var n := |states| - 1;
    var at :| PickedAt(states[..n], p, front, at);
    if p(states[n]) { PickedMore(states, p, front, at); } else { PickedSame(states, p, front, at); }
  }

  lemma PositionsBelow(states: seq<SimState>, p: SimState -> bool, front: seq<SimState>, at: seq<nat>, k: nat)
    requires PickedAt(states, p, front, at) && k in at
    ensures k < |states|
  {
    var i :| 0 <= i < |at| && at[i] == k;
    assert Taken(states, front, at, i);
  }

  lemma PickedSame(states: seq<SimState>, p: SimState -> bool, front: seq<SimState>, at: seq<nat>)
    requires states != [] && PickedAt(states[..|states| - 1], p, front, at) && !p(states[|states| - 1])
    ensures PickedAt(states, p, front, at)
  {
    var n := |states| - 1;
    forall i | 0 <= i < |at| ensures Taken(states, front, at, i) { assert Taken(states[..n], front, at, i); }
    forall j | 0 <= j < |states| ensures Sorted(states, p, at, j) {
      if j < n { assert Sorted(states[..n], p, at, j); }
      if j in at { PositionsBelow(states[..n], p, front, at, j); }
    }
  }

  lemma PickedMore(states: seq<SimState>, p: SimState -> bool, front: seq<SimState>, at: seq<nat>)
    requires states != [] && PickedAt(states[..|states| - 1], p, front, at) && p(states[|states| - 1])
    ensures PickedAt(states, p, front + [states[|states| - 1]], at + [|states| - 1])
  {
    var n := |states| - 1;
    var more, picked := at + [n], front + [states[n]];
    forall i | 0 <= i < |at| ensures at[i] < n { assert Taken(states[..n], front, at, i); }
    forall i | 0 <= i < |more| ensures Taken(states, picked, more, i) {
      if i < |at| { assert Taken(states[..n], front, at, i); }
    }
    forall j | 0 <= j < |states| ensures Sorted(states, p, more, j) {
      assert j in more <==> j in at || j == n;
      if j < n { assert Sorted(states[..n], p, at, j); }
    }
  }

  lemma {:induction false} FilterPicked(states: seq<SimState>, s: set<Node>, keep: bool, p: SimState -> bool)
    requires forall i :: 0 <= i < |states| ==> (p(states[i]) <==> (states[i].history in s) == keep)
    ensures Picked(states, p, Filter(states, s, keep))
  {
    if states == [] {
      PickedNone(p);
    } else {
      var n := |states| - 1;
      FilterPicked(states[..n], s, keep, p);
      PickedLast(states, p, Filter(states[..n], s, keep));
    }
  }

  lemma HeadIn(a: seq<nat>)
    requires a != []
    ensures a[0] in a
  {
  }

  lemma {:induction false} SamePositions(a: seq<nat>, b: seq<nat>)
    requires Increasing(a) && Increasing(b) && forall k :: k in a <==> k in b
    ensures a == b
  {
    if a == [] {
      if b != [] { HeadIn(b); }
    } else {
      HeadIn(a);
      assert b != [];
      HeadIn(b);
      assert a[0] == b[0];
      forall k ensures k in a[1..] <==> k in b[1..] {
        assert k in a[1..] <==> k in a && k != a[0];
        assert k in b[1..] <==> k in b && k != b[0];
      }
      SamePositions(a[1..], b[1..]);
    }
  }

  /** The picked states are determined. */
  lemma PickedUnique(states: seq<SimState>, p: SimState -> bool, x: seq<SimState>, y: seq<SimState>)
    requires Picked(states, p, x) && Picked(states, p, y)
    ensures x == y
  {
    var a :| PickedAt(states, p, x, a);
    var b :| PickedAt(states, p, y, b);
    SameItems(states, p, x, y, a, b);
    SamePositions(a, b);
    forall i | 0 <= i < |x| ensures x[i] == y[i] { assert Taken(states, x, a, i) && Taken(states, y, b, i); }
  }

  lemma SameItems(states: seq<SimState>, p: SimState -> bool, x: seq<SimState>, y: seq<SimState>, a: seq<nat>, b: seq<nat>)
    requires PickedAt(states, p, x, a) && PickedAt(states, p, y, b)
    ensures forall k :: k in a <==> k in b
  {
    forall k ensures k in a <==> k in b {
      if k in a {
        PositionsBelow(states, p, x, a, k);
        assert Sorted(states, p, a, k) && Sorted(states, p, b, k);
      }
      if k in b {
        PositionsBelow(states, p, y, b, k);
        assert Sorted(states, p, a, k) && Sorted(states, p, b, k);
      }
    }
  }

  lemma PickedAs(states: seq<SimState>, p: SimState -> bool, q: SimState -> bool, picked: seq<SimState>)
    requires Picked(states, p, picked) && forall i :: 0 <= i < |states| ==> p(states[i]) == q(states[i])
    ensures Picked(states, q, picked)
  {
    var at :| PickedAt(states, p, picked, at);
    forall j | 0 <= j < |states| ensures Sorted(states, q, at, j) { assert Sorted(states, p, at, j); }
    assert PickedAt(states, q, picked, at);
  }

  lemma PickedAll(states: seq<SimState>, p: SimState -> bool)
    requires forall i :: 0 <= i < |states| ==> p(states[i])
    ensures Picked(states, p, states)
  {
    var at := seq(|states|, i requires 0 <= i < |states| => i as nat);
    forall j | 0 <= j < |states| ensures Sorted(states, p, at, j) { assert at[j] == j; }
    assert PickedAt(states, p, states, at);
  }

  lemma PickedNothing(states: seq<SimState>, p: SimState -> bool, j: nat)
    requires Picked(states, p, []) && j < |states|
    ensures !p(states[j])
  {
    var at :| PickedAt(states, p, [], at);
    assert Sorted(states, p, at, j);
  }

  /** A picked state satisfies the condition. */
  lemma PickedMember(states: seq<SimState>, p: SimState -> bool, picked: seq<SimState>, i: nat)
    requires Picked(states, p, picked) && i < |picked|
    ensures p(picked[i])
  {
    var at :| PickedAt(states, p, picked, at);
    assert Taken(states, picked, at, i);
    assert Sorted(states, p, at, at[i]);
  }

  /** Nothing before the first picked state satisfies the condition. */
  lemma PickedHead(states: seq<SimState>, p: SimState -> bool, picked: seq<SimState>) returns (j: nat)
    requires Picked(states, p, picked) && picked != []
    ensures j < |states| && states[j] == picked[0] && forall k :: 0 <= k < j ==> !p(states[k])
  {
    var at :| PickedAt(states, p, picked, at);
    j := at[0];
    assert Taken(states, picked, at, 0);
    forall k | 0 <= k < j ensures !p(states[k]) {
      assert Sorted(states, p, at, k);
      if k in at { HeadSmallest(at, k); }
    }
  }

  lemma HeadSmallest(at: seq<nat>, k: nat)
    requires Increasing(at) && k in at
    ensures at[0] <= k
  {
    var i :| 0 <= i < |at| && at[i] == k;
    if i > 0 { assert at[0] < at[i]; }
  }

  function Both(p: SimState -> bool, q: SimState -> bool): SimState -> bool { s => p(s) && q(s) }

  /** Picking from what was picked. */
  lemma PickedTwice(states: seq<SimState>, p: SimState -> bool, mid: seq<SimState>, q: SimState -> bool, picked: seq<SimState>)
    requires Picked(states, p, mid) && Picked(mid, q, picked)
    ensures Picked(states, Both(p, q), picked)
  {
    var both := Both(p, q);
    var a :| PickedAt(states, p, mid, a);
    var b :| PickedAt(mid, q, picked, b);
    forall i | 0 <= i < |b| ensures b[i] < |a| { assert Taken(mid, picked, b, i); }
    var at := seq(|b|, i requires 0 <= i < |b| => a[b[i]]);
    forall i | 0 <= i < |at| ensures Taken(states, picked, at, i) {
      assert Taken(mid, picked, b, i) && Taken(states, mid, a, b[i]);
    }
    forall j | 0 <= j < |states| ensures Sorted(states, both, at, j) { SortedTwice(states, p, mid, q, picked, a, b, at, j); }
    assert PickedAt(states, both, picked, at);
  }

  lemma SortedTwice(states: seq<SimState>, p: SimState -> bool, mid: seq<SimState>, q: SimState -> bool, picked: seq<SimState>,
                    a: seq<nat>, b: seq<nat>, at: seq<nat>, j: nat)
    requires PickedAt(states, p, mid, a) && PickedAt(mid, q, picked, b) && j < |states|
    requires |at| == |b| && forall i :: 0 <= i < |b| ==> b[i] < |a| && at[i] == a[b[i]]
    ensures j in at <==> p(states[j]) && q(states[j])
  {
    assert Sorted(states, p, a, j);
    if p(states[j]) {
      var k :| 0 <= k < |a| && a[k] == j;
      assert Taken(states, mid, a, k) && Sorted(mid, q, b, k);
      if k in b {
        var i :| 0 <= i < |b| && b[i] == k;
        assert at[i] == j;
      }
    }
    if j in at {
      var i :| 0 <= i < |at| && at[i] == j;
      assert Taken(states, mid, a, b[i]) && Sorted(mid, q, b, b[i]);
    }
  }

  // ------------------------------------------------- the choice of one round

  /** Two histories of the states lie below the node. */
  ghost predicate TwoBelow(g: Graph, states: seq<SimState>, n: Node) {
    exists i, j :: 0 <= i < |states| && 0 <= j < |states| && states[i].history != states[j].history
                   && Reach(g, n, states[i].history) && Reach(g, n, states[j].history)
  }

  /** The deepest: not so for any node below. */
  ghost predicate DeepestCommon(g: Graph, states: seq<SimState>, n: Node) {
    n in g.nodes && TwoBelow(g, states, n) && forall d :: Reach(g, n, d) ==> !TwoBelow(g, states, d)
  }

  ghost predicate Below(g: Graph, n: Node, s: SimState) { Reach(g, n, s.history) }

  /** The group is the states below a deepest common ancestor, in order, and the rest the others in order;
      or it is all states, when no node has two of their histories below it. */
  ghost predicate Chosen(g: Graph, states: seq<SimState>, group: seq<SimState>, rest: seq<SimState>) {
    || (exists n :: ChosenBelow(g, states, group, rest, n))
    || ((forall n :: n in g.nodes ==> !TwoBelow(g, states, n)) && group == states && rest == [])
  }

  ghost predicate ChosenBelow(g: Graph, states: seq<SimState>, group: seq<SimState>, rest: seq<SimState>, n: Node) {
    && DeepestCommon(g, states, n)
    && Picked(states, s => Below(g, n, s), group) && Picked(states, s => !Below(g, n, s), rest)
  }

  lemma TwoBelowIff(g: Graph, states: seq<SimState>, n: Node)
    requires WfGraph(g)
    ensures TwoBelow(g, states, n) <==> |Covered(g, Histories(states), n)| > 1
  {
    var shared := Covered(g, Histories(states), n);
    forall h ensures h in Descendants(g, n) <==> Reach(g, n, h) { DescendantsExact(g, n, h); }
    if TwoBelow(g, states, n) {
      var i, j :| 0 <= i < |states| && 0 <= j < |states| && states[i].history != states[j].history
                  && Reach(g, n, states[i].history) && Reach(g, n, states[j].history);
      TwoMembers(shared, states[i].history, states[j].history);
    }
    if |shared| > 1 {
      var a, b := TwoOf(shared);
      var i :| 0 <= i < |states| && states[i].history == a;
      var j :| 0 <= j < |states| && states[j].history == b;
    }
  }

  lemma TwoMembers(s: set<Node>, a: Node, b: Node)
    requires a in s && b in s && a != b
    ensures |s| > 1
  {
    assert |s - {a}| == |s| - 1;
    assert b in s - {a};
  }

  lemma TwoOf(s: set<Node>) returns (a: Node, b: Node)
    requires |s| > 1
    ensures a in s && b in s && a != b
  {
    a :| a in s;
    assert |s - {a}| == |s| - 1;
    b :| b in s - {a};
  }

  lemma DeepestIs(g: Graph, states: seq<SimState>, n: Node)
    requires WfGraph(g) && Deepest(g, Histories(states), n)
    ensures DeepestCommon(g, states, n)
  {
    TwoBelowIff(g, states, n);
    forall d | Reach(g, n, d) ensures !TwoBelow(g, states, d) {
      DescendantsExact(g, n, d);
      TwoBelowIff(g, states, d);
    }
  }

  /** What `MostMergeable` finds is such a choice. */
  lemma FoundChosen(g: Graph, states: seq<SimState>, n: Node)
    requires WfGraph(g) && Deepest(g, Histories(states), n)
    ensures var shared := Covered(g, Histories(states), n);
            Chosen(g, states, Filter(states, shared, true), Filter(states, shared, false))
  {
    var shared := Covered(g, Histories(states), n);
    DeepestIs(g, states, n);
    forall i | 0 <= i < |states| ensures states[i].history in shared <==> Below(g, n, states[i]) {
      DescendantsExact(g, n, states[i].history);
      assert states[i].history in Histories(states);
    }
    FilterPicked(states, shared, true, s => Below(g, n, s));
    FilterPicked(states, shared, false, s => !Below(g, n, s));
    assert ChosenBelow(g, states, Filter(states, shared, true), Filter(states, shared, false), n);
  }

  lemma NothingChosen(g: Graph, states: seq<SimState>)
    requires WfGraph(g) && forall n :: n in g.nodes ==> |Covered(g, Histories(states), n)| <= 1
    ensures Chosen(g, states, states, [])
  {
    forall n | n in g.nodes ensures !TwoBelow(g, states, n) { TwoBelowIff(g, states, n); }
  }

  // ------------------------------------------------- rounds

  datatype MergeResult = Done(state: SimState) | MergeError | NoHierarchy

  /** How states are merged: the traversal `networkx` makes of the graph, which lists of states the
      plugins can merge, and the parent of the merged state's history. */
  datatype Merger = Merger(
    traversal: Graph -> seq<Node>,
    compatible: seq<SimState> -> bool,
    parentOf: seq<SimState> -> Option<Node>)

  /** One round: the graph and the states it finds, what it merges and leaves, and the merged state with
      the graph that holds its history. */
  datatype Round = Round(before: Graph, states: seq<SimState>, group: seq<SimState>, rest: seq<SimState>,
                         merged: SimState, after: Graph)

  /** The group is chosen on the graph; its merge has a new history below the parent that it is given. */
  ghost predicate GoodRound(how: Merger, r: Round) {
    && Chosen(r.before, r.states, r.group, r.rest)
    && if how.compatible(r.group) then
         && r.merged == Merged(r.group, r.merged.history) && r.merged.history !in r.before.nodes
         && how.parentOf(r.group) != Some(r.merged.history)
         && r.after == WithHistory(r.before, r.merged.history, how.parentOf(r.group))
       else r.after == r.before
  }

  ghost predicate GoodAt(how: Merger, rounds: seq<Round>, k: nat)
    requires k < |rounds|
  {
    GoodRound(how, rounds[k])
  }

  /** Round `k` could merge its group and left something over: the next one goes on with that and the merged
      state, on the graph that it left. */
  predicate HandsOver(how: Merger, rounds: seq<Round>, k: nat)
    requires k + 1 < |rounds|
  {
    && how.compatible(rounds[k].group) && rounds[k].rest != []
    && rounds[k + 1].before == rounds[k].after && rounds[k + 1].states == rounds[k].rest + [rounds[k].merged]
  }

  /** The round is the last: nothing is left over, or its group cannot be merged. */
  predicate Ends(how: Merger, round: Round, r: MergeResult, last: Graph) {
    && last == round.after
    && if how.compatible(round.group) then round.rest == [] && r == Done(round.merged) else r == MergeError
  }

  /** The rounds of merging these states from this graph on. */
  ghost predicate MergedBy(how: Merger, g: Graph, states: seq<SimState>, rounds: seq<Round>, r: MergeResult, last: Graph) {
    && rounds != [] && rounds[0].before == g && rounds[0].states == states
    && (forall k :: 0 <= k < |rounds| ==> GoodAt(how, rounds, k))
    && (forall k :: 0 <= k < |rounds| - 1 ==> HandsOver(how, rounds, k))
    && Ends(how, rounds[|rounds| - 1], r, last)
  }

  lemma LastRound(how: Merger, round: Round, r: MergeResult)
    requires GoodRound(how, round) && Ends(how, round, r, round.after)
    ensures MergedBy(how, round.before, round.states, [round], r, round.after)
  {
  }

  lemma FirstRound(how: Merger, round: Round, rounds: seq<Round>, r: MergeResult, last: Graph)
    requires GoodRound(how, round) && how.compatible(round.group) && round.rest != []
    requires MergedBy(how, round.after, round.rest + [round.merged], rounds, r, last)
    ensures MergedBy(how, round.before, round.states, [round] + rounds, r, last)
  {
    var all := [round] + rounds;
    forall k | 0 <= k < |all| ensures GoodAt(how, all, k) {
      if k > 0 { assert GoodAt(how, rounds, k - 1); }
    }
    forall k | 0 <= k < |all| - 1 ensures HandsOver(how, all, k) {
      if k > 0 { assert HandsOver(how, rounds, k - 1); }
    }
  }

  /** One group on its way: the graph it finds, its rounds, how they end, and the graph they leave. */
  datatype Merging = Merging(before: Graph, rounds: seq<Round>, result: MergeResult, after: Graph)

  /** What is put back for a group: the merged state, or the group if it cannot be merged. */
  ghost predicate MergedGroup(how: Merger, m: Merging, group: seq<SimState>, part: seq<SimState>) {
    && MergedBy(how, m.before, group, m.rounds, m.result, m.after)
    && part == if m.result.Done? then [m.result.state] else group
  }

  ghost predicate MergedAt(how: Merger, groups: seq<seq<SimState>>, parts: seq<seq<SimState>>, merges: seq<Merging>, i: nat)
    requires i < |groups| == |parts| == |merges|
  {
    MergedGroup(how, merges[i], groups[i], parts[i])
  }

  /** The graph that the first `i` groups leave. */
  function GraphAfter(g: Graph, merges: seq<Merging>, i: nat): Graph
    requires i <= |merges|
  {
    if i == 0 then g else merges[i - 1].after
  }

  predicate BeginsAt(g: Graph, merges: seq<Merging>, i: nat)
    requires i < |merges|
  {
    merges[i].before == GraphAfter(g, merges, i)
  }

  /** Group after group, each on the graph that the one before leaves. */
  ghost predicate Threaded(how: Merger, g: Graph, groups: seq<seq<SimState>>, parts: seq<seq<SimState>>, merges: seq<Merging>, last: Graph) {
    && |groups| == |parts| == |merges|
    && (forall i :: 0 <= i < |merges| ==> MergedAt(how, groups, parts, merges, i))
    && (forall i :: 0 <= i < |merges| ==> BeginsAt(g, merges, i))
    && last == GraphAfter(g, merges, |merges|)
  }

  lemma ThreadedMore(how: Merger, g: Graph, groups: seq<seq<SimState>>, i: nat, parts: seq<seq<SimState>>, merges: seq<Merging>,
                     m: Merging, part: seq<SimState>)
    requires i < |groups| && Threaded(how, g, groups[..i], parts, merges, m.before) && MergedGroup(how, m, groups[i], part)
    ensures Threaded(how, g, groups[..i + 1], parts + [part], merges + [m], m.after)
  {
    var gs, ps, all := groups[..i + 1], parts + [part], merges + [m];
    forall k | 0 <= k < |all| ensures MergedAt(how, gs, ps, all, k) {
      if k < i { assert MergedAt(how, groups[..i], parts, merges, k); }
    }
    forall k | 0 <= k < |all| ensures BeginsAt(g, all, k) {
      assert GraphAfter(g, all, k) == GraphAfter(g, merges, k);
      if k < i { assert BeginsAt(g, merges, k); }
    }
  }

  /** Four histories 0 to 4, with 0 above 1 and 4, and 1 above 2 and 3; the states at 2, 3 and 4. */
  function Tree(): Graph { Graph({0, 1, 2, 3, 4}, {(0, 1), (0, 4), (1, 2), (1, 3)}) }

  function At(n: Node): SimState { Given(n, n) }

  lemma EdgeBelow(g: Graph, u: Node, v: Node, w: Node)
    requires (u, v) in g.edges && (v, w) in g.edges
    ensures Reach(g, u, v) && Reach(g, v, w) && Reach(g, u, w)
  {
    EdgeReach(g, u, v);
    EdgeReach(g, v, w);
    ReachTrans(g, u, v, w);
  }

  lemma TreeBelow()
    ensures Reach(Tree(), 0, 1) && Reach(Tree(), 1, 2) && Reach(Tree(), 1, 3)
    ensures forall n: Node, v: Node :: Reach(Tree(), n, v) ==> n == 0 || (n == 1 && v in {2, 3})
  {
    var g := Tree();
    EdgeBelow(g, 0, 1, 2);
    EdgeBelow(g, 0, 1, 3);
    forall n: Node, v: Node | Reach(g, n, v) ensures n == 0 || (n == 1 && v in {2, 3}) {
      var p :| PathFrom(g, p, n, v);
      assert (p[0], p[1]) in g.edges;
      if n == 1 {
        assert Closed(g, {2, 3});
        var q := p[1..];
        assert forall i :: 0 <= i < |q| - 1 ==> (q[i], q[i + 1]) == (p[i + 1], p[i + 2]);
        ClosedContains(g, {2, 3}, q);
      }
    }
  }

  lemma PickedSnoc(states: seq<SimState>, x: SimState, p: SimState -> bool, picked: seq<SimState>)
    requires Picked(states, p, picked)
    ensures p(x) ==> Picked(states + [x], p, picked + [x])
    ensures !p(x) ==> Picked(states + [x], p, picked)
  {
    assert (states + [x])[..|states|] == states;
    PickedLast(states + [x], p, picked);
  }

  /** Picking the first two of three states, and the last. */
  lemma PickFirstTwo(a: SimState, b: SimState, c: SimState, p: SimState -> bool)
    requires p(a) && p(b) && !p(c)
    ensures Picked([a, b, c], p, [a, b])
  {
    PickedNone(p);
    PickedSnoc([], a, p, []);
    assert [] + [a] == [a];
    PickedSnoc([a], b, p, [a]);
    assert [a] + [b] == [a, b];
    PickedSnoc([a, b], c, p, [a, b]);
    assert [a, b] + [c] == [a, b, c];
  }

  lemma PickLast(a: SimState, b: SimState, c: SimState, p: SimState -> bool)
    requires !p(a) && !p(b) && p(c)
    ensures Picked([a, b, c], p, [c])
  {
    PickedNone(p);
    PickedSnoc([], a, p, []);
    assert [] + [a] == [a];
    PickedSnoc([a], b, p, []);
    assert [a] + [b] == [a, b];
    PickedSnoc([a, b], c, p, []);
    assert [a, b] + [c] == [a, b, c] && [] + [c] == [c];
  }

  lemma DeepestIsOne(n: Node)
    requires DeepestCommon(Tree(), [At(2), At(3), At(4)], n)
    ensures n == 1
  {
    var g, states := Tree(), [At(2), At(3), At(4)];
    TreeBelow();
    assert states[0].history == 2 && states[1].history == 3;
    assert TwoBelow(g, states, 1);
    var i, j :| 0 <= i < |states| && 0 <= j < |states| && states[i].history != states[j].history
                && Reach(g, n, states[i].history) && Reach(g, n, states[j].history);
  }

  lemma BelowOne(group: seq<SimState>, rest: seq<SimState>, g: Graph)
    requires Below(g, 1, At(2)) && Below(g, 1, At(3)) && !Below(g, 1, At(4))
    requires Picked([At(2), At(3), At(4)], s => Below(g, 1, s), group) && Picked([At(2), At(3), At(4)], s => !Below(g, 1, s), rest)
    ensures group == [At(2), At(3)] && rest == [At(4)]
  {
    PickFirstTwo(At(2), At(3), At(4), s => Below(g, 1, s));
    PickLast(At(2), At(3), At(4), s => !Below(g, 1, s));
    PickedUnique([At(2), At(3), At(4)], s => Below(g, 1, s), group, [At(2), At(3)]);
    PickedUnique([At(2), At(3), At(4)], s => !Below(g, 1, s), rest, [At(4)]);
  }

  lemma TwoBelowOne()
    ensures TwoBelow(Tree(), [At(2), At(3), At(4)], 1) && 1 in Tree().nodes
  {
    var states := [At(2), At(3), At(4)];
    TreeBelow();
    assert states[0].history == 2 && states[1].history == 3;
  }

  /** There the first round merges the states at 2 and 3, which share the deeper ancestor 1, and leaves
      the one at 4. */
  lemma DeepestFirst(group: seq<SimState>, rest: seq<SimState>)
    requires Chosen(Tree(), [At(2), At(3), At(4)], group, rest)
    ensures group == [At(2), At(3)] && rest == [At(4)]
  {
    TwoBelowOne();
    var n: Node :| ChosenBelow(Tree(), [At(2), At(3), At(4)], group, rest, n);
    DeepestIsOne(n);
    TreeBelow();
    BelowOne(group, rest, Tree());
  }
}
