/** Small control flow graphs: four on which a dependency found by a second visit is not followed, one on
which an ignored register is, and one on which a later write is sliced instead of the target. */
module BladeExamples {
  import opened Wrappers
  import opened Vex
  import opened Slicer
  import opened Blade
  import opened BladeTheorems
  import opened BladeLimits
  import opened BladeRevisits
  import opened BladeFree
  import SliceLimits

  /** A block of full register writes. */
  function Copies(r: Reg, q: Reg): Stmt { Put(r, 8, Get(q, 8)) }

  function Block(stmts: seq<Stmt>): Irsb { Irsb(stmts, Const(0)) }

  function Edge(from: CfgNode): InEdge { InEdge(from, None, None) }

  const NODES: map<Addr, CfgNode> := map a: nat | a < 50 :: a

  /** A graph whose nodes are numbered by their addresses, with all options off. */
  function Graph(irsbs: map<Addr, Irsb>, inEdges: map<CfgNode, seq<InEdge>>, ignored: set<Reg>, level: int): Setting {
    Setting(SliceLimits.PLAIN, irsbs, NODES, NODES, inEdges, {}, ignored, false, false, level, false, 10, false, false)
  }

  // ------------------------------------------------- slices of small blocks

  function Reads(e: Expr): set<Reg> { if e.Get? then {e.offset} else {} }

  predicate Operand(e: Expr) { e.Get? || e.Const? }

  lemma PutVerdict(r: Reg, e: Expr, target: Reg)
    requires Operand(e)
    ensures BackStmt(SliceLimits.PLAIN, map[], false, Put(r, 8, e), Live({}, {target}, {}))
         == if r == target then Verdict(true, Live({}, Reads(e), {})) else Verdict(false, Live({}, {target}, {}))
  {
    assert {target} - {target} == {};
  }

  lemma OnePut(r: Reg, e: Expr)
    requires Operand(e)
    ensures AliasBlock(SliceLimits.PLAIN, [Put(r, 8, e)]) == map[]
    ensures SliceFrom(SliceLimits.PLAIN, map[], false, [Put(r, 8, e)], Live({}, {r}, {})) == Slice([0], Live({}, Reads(e), {}))
  {
    PutVerdict(r, e, r);
    assert [Put(r, 8, e)][..0] == [];
  }

  lemma NoAliases(r: Reg, e: Expr, q: Reg, f: Expr)
    ensures AliasBlock(SliceLimits.PLAIN, [Put(r, 8, e), Put(q, 8, f)]) == map[]
  {
    assert [Put(r, 8, e), Put(q, 8, f)][..1] == [Put(r, 8, e)] && [Put(r, 8, e)][..0] == [];
    assert AliasBlock(SliceLimits.PLAIN, [Put(r, 8, e)]) == map[];
  }

  lemma FirstOfTwo(r: Reg, e: Expr, q: Reg, f: Expr)
    requires Operand(e) && Operand(f) && r != q
    ensures SliceFrom(SliceLimits.PLAIN, map[], false, [Put(r, 8, e), Put(q, 8, f)], Live({}, {r}, {}))
         == Slice([0], Live({}, Reads(e), {}))
  {
    assert [Put(r, 8, e), Put(q, 8, f)][..1] == [Put(r, 8, e)];
    OnePut(r, e);
    PutVerdict(q, f, r);
  }

  lemma SecondOfTwo(r: Reg, e: Expr, q: Reg, x: Reg)
    requires Operand(e) && r != q && r != x
    ensures SliceFrom(SliceLimits.PLAIN, map[], false, [Put(r, 8, e), Copies(q, x)], Live({}, {q}, {}))
         == Slice([1], Live({}, {x}, {}))
  {
    var a, b := Put(r, 8, e), Copies(q, x);
    assert [a, b][..1] == [a] && [a][..0] == [];
    PutVerdict(q, Get(x, 8), q);
    PutVerdict(r, e, x);
    assert SliceFrom(SliceLimits.PLAIN, map[], false, [], Live({}, {x}, {})) == Slice([], Live({}, {x}, {}));
    assert SliceFrom(SliceLimits.PLAIN, map[], false, [a], Live({}, {x}, {})) == Slice([], Live({}, {x}, {}));
  }

  lemma NoneOfOne(r: Reg, e: Expr, x: Reg)
    requires Operand(e) && r != x
    ensures SliceFrom(SliceLimits.PLAIN, map[], false, [Put(r, 8, e)], Live({}, {x}, {})) == Slice([], Live({}, {x}, {}))
  {
    PutVerdict(r, e, x);
    assert [Put(r, 8, e)][..0] == [];
    assert SliceFrom(SliceLimits.PLAIN, map[], false, [], Live({}, {x}, {})) == Slice([], Live({}, {x}, {}));
  }

  lemma SecondConstant(r: Reg, e: Expr, q: Reg, v: Word)
    requires r != q && Operand(e)
    ensures SliceFrom(SliceLimits.PLAIN, map[], false, [Put(r, 8, e), Put(q, 8, Const(v))], Live({}, {q}, {}))
         == Slice([1], Live({}, {}, {}))
  {
    assert [Put(r, 8, e), Put(q, 8, Const(v))][..1] == [Put(r, 8, e)];
    PutVerdict(q, Const(v), q);
  }

  // ------------------------------------------------- what blocks ask for

  /** All options off. */
  predicate Quiet(b: Setting) { !b.imarks && !b.controlDependence && !b.ignoreSp && !b.ignoreBp }

  /** The block numbered `a`, asked for register `r`, is sliced to `indices` and asks for `live`. */
  predicate Asks(b: Setting, a: CfgNode, r: Reg, indices: seq<nat>, live: set<Reg>) {
    b.NodeAddr(a) == a && a in b.irsbs && BlockSlice(b, b.irsbs[a], {}, {r}, {}) == Slice(indices, Live({}, live, {}))
  }

  /** The only edge into `a` is one from `from`. */
  predicate Comes(b: Setting, from: CfgNode, a: Addr) { b.EdgesInto(a) == [Edge(from)] && b.Follows(Edge(from)) }

  /** The block numbered `a` in a graph of this file. */
  ghost predicate Holds(b: Setting, a: CfgNode, stmts: seq<Stmt>) {
    && b.machine == SliceLimits.PLAIN && Quiet(b) && b.NodeAddr(a) == a && a in b.irsbs && b.irsbs[a] == Block(stmts)
  }

  lemma AskedFor(b: Setting, a: CfgNode, stmts: seq<Stmt>, r: Reg, indices: seq<nat>, live: set<Reg>)
    requires Holds(b, a, stmts) && AliasBlock(SliceLimits.PLAIN, stmts) == map[]
    requires SliceFrom(SliceLimits.PLAIN, map[], false, stmts, Live({}, {r}, {})) == Slice(indices, Live({}, live, {}))
    ensures Asks(b, a, r, indices, live)
  {
    assert Targets(b.machine, {}, {r}, {}) == Live({}, {r}, {});
  }

  lemma OneAsks(b: Setting, a: CfgNode, r: Reg, e: Expr)
    requires Holds(b, a, [Put(r, 8, e)]) && Operand(e)
    ensures Asks(b, a, r, [0], Reads(e))
  {
    OnePut(r, e);
    AskedFor(b, a, [Put(r, 8, e)], r, [0], Reads(e));
  }

  lemma OnePasses(b: Setting, a: CfgNode, r: Reg, e: Expr, x: Reg)
    requires Holds(b, a, [Put(r, 8, e)]) && Operand(e) && r != x
    ensures Asks(b, a, x, [], {x})
  {
    OnePut(r, e);
    NoneOfOne(r, e, x);
    AskedFor(b, a, [Put(r, 8, e)], x, [], {x});
  }

  lemma TwoConstants(b: Setting, a: CfgNode, r: Reg, v: Word, q: Reg, w: Word)
    requires Holds(b, a, [Put(r, 8, Const(v)), Put(q, 8, Const(w))]) && r != q
    ensures Asks(b, a, r, [0], {}) && Asks(b, a, q, [1], {})
  {
    NoAliases(r, Const(v), q, Const(w));
    FirstOfTwo(r, Const(v), q, Const(w));
    SecondConstant(r, Const(v), q, w);
    AskedFor(b, a, [Put(r, 8, Const(v)), Put(q, 8, Const(w))], r, [0], {});
    AskedFor(b, a, [Put(r, 8, Const(v)), Put(q, 8, Const(w))], q, [1], {});
  }

  lemma TwoCopies(b: Setting, a: CfgNode, r: Reg, y: Reg, q: Reg, x: Reg)
    requires Holds(b, a, [Copies(r, y), Copies(q, x)]) && r != q && r != x
    ensures Asks(b, a, r, [0], {y}) && Asks(b, a, q, [1], {x})
  {
    NoAliases(r, Get(y, 8), q, Get(x, 8));
    FirstOfTwo(r, Get(y, 8), q, Get(x, 8));
    SecondOfTwo(r, Get(y, 8), q, x);
    AskedFor(b, a, [Copies(r, y), Copies(q, x)], r, [0], {y});
    AskedFor(b, a, [Copies(r, y), Copies(q, x)], q, [1], {x});
  }

  // ------------------------------------------------- one visit

  /** A visit of a block asked for one register. */
  lemma VisitOnce(b: Setting, st: Traced, level: int, a: CfgNode, r: Reg, prev: Point, indices: seq<nat>, live: set<Reg>)
    requires level > 0 && Quiet(b) && Asks(b, a, r, indices, live)
    ensures var t := BlockMarked(b, Trail(st.graph, prev), a, b.irsbs[a], indices);
            Trace(b, st, level, a, {r}, {}, prev, None)
            == if a in st.runs then st.(graph := t.graph)
               else
                 var st1 := Traced(t.graph, st.runs + {a}, st.expanded + [a]);
                 if live == {} then st1 else TraceAll(b, st1, level - 1, b.EdgesInto(a), live, {}, t.prev)
  {
    assert b.Trim(live) == live;
  }

  lemma FollowOne(b: Setting, st: Traced, level: int, from: CfgNode, regs: set<Reg>, prev: Point)
    requires b.Follows(Edge(from))
    ensures TraceAll(b, st, level, [Edge(from)], regs, {}, prev) == Trace(b, st, level, from, regs, {}, prev, None)
  {
    assert [Edge(from)][1..] == [];
  }

  lemma FollowTwo(b: Setting, st: Traced, level: int, from: CfgNode, to: CfgNode, regs: set<Reg>, prev: Point)
    requires b.Follows(Edge(from)) && b.Follows(Edge(to))
    ensures TraceAll(b, st, level, [Edge(from), Edge(to)], regs, {}, prev)
         == Trace(b, Trace(b, st, level, from, regs, {}, prev, None), level, to, regs, {}, prev, None)
  {
    assert [Edge(from), Edge(to)][1..] == [Edge(to)];
    FollowOne(b, TraceEdge(b, st, level, Edge(from), regs, {}, prev), level, to, regs, prev);
  }

  /** The point is neither of the graph nor of the block, and no default exit. */
  predicate Outside(g: SliceGraph, prev: Point, a: Addr, indices: seq<nat>, p: Point) {
    && p !in g.nodes && prev != p && p.stmt != DEFAULT_STATEMENT
    && !(p.addr == a && (p.stmt in indices || (indices == [] && p.stmt == 0)))
  }

  /** A visit leaves such a point out, and ends at its first sliced statement. */
  lemma MarkedWithout(b: Setting, t: Trail, a: Addr, indices: seq<nat>, p: Point)
    requires a in b.irsbs && !b.controlDependence && Outside(t.graph, t.prev, a, indices, p)
    ensures var u := BlockMarked(b, t, a, b.irsbs[a], indices);
            && p !in u.graph.nodes
            && (indices != [] ==> u.prev == Point(a, indices[0]) && u.prev in u.graph.nodes)
  {
    BlockMarkedPoints(b, t, a, b.irsbs[a], indices, p);
    MarkAllChained(ExitsMarked(b, t, a, b.irsbs[a]), a, indices);
    if indices != [] { assert indices[0] in indices; }
  }

  /** A first visit of a block that asks its only predecessor for one register. */
  lemma StepWithout(b: Setting, st: Traced, level: int, a: CfgNode, r: Reg, prev: Point, i: nat, q: Reg, from: CfgNode, p: Point)
    returns (st1: Traced)
    requires level > 0 && Quiet(b) && Asks(b, a, r, [i], {q}) && Comes(b, from, a)
    requires a !in st.runs && Outside(st.graph, prev, a, [i], p)
    ensures st1.runs == st.runs + {a} && p !in st1.graph.nodes && Point(a, i) in st1.graph.nodes
    ensures Trace(b, st, level, a, {r}, {}, prev, None) == Trace(b, st1, level - 1, from, {q}, {}, Point(a, i), None)
  {
    var t := BlockMarked(b, Trail(st.graph, prev), a, b.irsbs[a], [i]);
    st1 := Traced(t.graph, st.runs + {a}, st.expanded + [a]);
    VisitOnce(b, st, level, a, r, prev, [i], {q});
    MarkedWithout(b, Trail(st.graph, prev), a, [i], p);
    FollowOne(b, st1, level - 1, from, {q}, t.prev);
  }

  /** A visit after which nothing is looked at: the block asks for nothing, or was met before. */
  lemma EndWithout(b: Setting, st: Traced, level: int, a: CfgNode, r: Reg, prev: Point, indices: seq<nat>, live: set<Reg>, p: Point)
    requires level > 0 && Quiet(b) && Asks(b, a, r, indices, live) && (live == {} || a in st.runs)
    requires Outside(st.graph, prev, a, indices, p)
    ensures var st1 := Trace(b, st, level, a, {r}, {}, prev, None);
            && st1.runs == st.runs + {a} && p !in st1.graph.nodes
            && forall i :: i in indices ==> Point(a, i) in st1.graph.nodes
  {
    VisitOnce(b, st, level, a, r, prev, indices, live);
    MarkedWithout(b, Trail(st.graph, prev), a, indices, p);
    forall i | i in indices ensures Point(a, i) in BlockMarked(b, Trail(st.graph, prev), a, b.irsbs[a], indices).graph.nodes {
      BlockMarkedPoints(b, Trail(st.graph, prev), a, b.irsbs[a], indices, Point(a, i));
    }
  }

  // ------------------------------------------------- needs along a path

  /** What the predecessor at the other end of an edge needs. */
  lemma NeedsEdge(b: Setting, level: int, a: Addr, from: CfgNode, r: Reg, p: Point)
    requires Edge(from) in b.EdgesInto(a) && b.Follows(Edge(from)) && Needs(b, level, from, {r}, {}, None, true, p)
    ensures NeedsFrom(b, level, a, {r}, {}, true, p)
  {
    var e := Edge(from);
    assert Followed(b, a, e) && Needs(b, level, e.pred, {r}, {}, e.stmtIdx, true, p);
  }

  /** A block asked for one register, which asks its only predecessor for one. */
  lemma NeedsPast(b: Setting, level: int, a: CfgNode, r: Reg, indices: seq<nat>, q: Reg, from: CfgNode, p: Point)
    requires level > 1 && Quiet(b) && Asks(b, a, r, indices, {q}) && Comes(b, from, a)
    requires Needs(b, level - 1, from, {q}, {}, None, true, p)
    ensures Needs(b, level, a, {r}, {}, None, true, p)
  {
    assert b.Trim({q}) == {q};
    NeedsEdge(b, level - 1, a, from, q, p);
  }

  /** The block that the point belongs to. */
  lemma NeedsHere(b: Setting, level: int, a: CfgNode, r: Reg, indices: seq<nat>, live: set<Reg>, i: nat)
    requires level > 0 && Quiet(b) && Asks(b, a, r, indices, live) && i in indices
    ensures Needs(b, level, a, {r}, {}, None, true, Point(a, i))
  {
    assert OwnPoint(b, a, VisitSlice(b, a, {r}, {}, None), true, Point(a, i));
  }

  // ------------------------------------------------- the destination block

  /** The destination block copies register `q`. */
  ghost predicate Copying(b: Setting, dst: Addr, q: Reg) {
    InGraph(b, dst) && dst >= 0 && Holds(b, dst, [Copies(0, q)]) && q !in b.ignoredRegs
  }

  lemma OneMarked(here: Point)
    requires here.stmt == 0
    ensures MarkAll(Trail(EMPTY.graph, here), here.addr, [0]) == Trail(SliceGraph({here}, {(here, here)}), here)
  {
    var indices: seq<nat> := [0];
    assert indices[..0] == [];
    assert MarkAll(Trail(EMPTY.graph, here), here.addr, indices) == Mark(Trail(EMPTY.graph, here), here);
    assert EMPTY.graph.AddEdge(here, here) == SliceGraph({here}, {(here, here)});
  }

  function Here(dst: Addr): Traced { Traced(SliceGraph({Point(dst, 0)}, {(Point(dst, 0), Point(dst, 0))}), {}, []) }

  lemma CopyWanted(b: Setting, dst: Addr, q: Reg)
    requires Copying(b, dst, q)
    ensures Wanted(b.irsbs[dst], 0) == Ok(({}, {0})) && BlockSlice(b, b.irsbs[dst], {}, {0}, {}) == Slice([0], Live({}, {q}, {}))
  {
    OneAsks(b, dst, 0, Get(q, 8));
  }

  lemma CopyOrigin(b: Setting, dst: Addr, q: Reg)
    requires Copying(b, dst, q)
    ensures Sliced(b, dst, 0) && Origin(b, dst, 0) == Start(Trail(Here(dst).graph, Point(dst, 0)), {q}, {})
  {
    CopyWanted(b, dst, q);
    OneMarked(Point(dst, 0));
    assert b.Trim({q}) - b.ignoredRegs == {q};
  }

  /** The slice for a copy is what looking at the edges into its block gives. */
  lemma CopySlice(b: Setting, dst: Addr, q: Reg)
    requires Copying(b, dst, q)
    ensures BackwardSlice(b, dst, 0) == Ok(TraceAll(b, Here(dst), b.maxLevel - 1, b.EdgesInto(dst), {q}, {}, Point(dst, 0)))
  {
    CopyOrigin(b, dst, q);
    SliceIs(b, dst, 0);
  }

  /** Two edges into the block of the copy: what is left out of both visits is not in the slice. */
  lemma TwoBranches(b: Setting, dst: Addr, q: Reg, from: CfgNode, to: CfgNode)
    requires Copying(b, dst, q) && b.EdgesInto(dst) == [Edge(from), Edge(to)] && b.Follows(Edge(from)) && b.Follows(Edge(to))
    ensures BackwardSlice(b, dst, 0)
         == Ok(Trace(b, Trace(b, Here(dst), b.maxLevel - 1, from, {q}, {}, Point(dst, 0), None),
                     b.maxLevel - 1, to, {q}, {}, Point(dst, 0), None))
  {
    CopySlice(b, dst, q);
    FollowTwo(b, Here(dst), b.maxLevel - 1, from, to, {q}, Point(dst, 0));
  }

  /** What a predecessor of the block of the copy needs is in the free slice. */
  lemma CopyNeeds(b: Setting, dst: Addr, q: Reg, from: CfgNode, p: Point)
    requires Copying(b, dst, q) && Edge(from) in b.EdgesInto(dst) && b.Follows(Edge(from))
    requires Needs(b, b.maxLevel - 1, from, {q}, {}, None, true, p)
    ensures Sliced(b, dst, 0) && p in FreeSlice(b, dst, 0).nodes
  {
    CopyOrigin(b, dst, q);
    NeedsEdge(b, b.maxLevel - 1, dst, from, q, p);
    FreeSlicePoints(b, dst, 0, p);
  }

  /** The destination 10 copies register 1 and comes after 20 and 30. */
  ghost predicate Forked(b: Setting, level: int) {
    && Quiet(b) && b.maxLevel == level && Copying(b, 10, 1)
    && b.EdgesInto(10) == [Edge(20), Edge(30)] && b.Follows(Edge(20)) && b.Follows(Edge(30))
  }

  /** The slice for statement 0 of block 10 lacks a point that going on from every visit would bring in. */
  ghost predicate Misses(b: Setting, p: Point) {
    && Sliced(b, 10, 0) && p in FreeSlice(b, 10, 0).nodes
    && BackwardSlice(b, 10, 0).Ok? && p !in BackwardSlice(b, 10, 0).value.graph.nodes
  }

  // ------------------------------------------------- a dependency that is not followed

  /** The destination 10 copies register 1, which 20 and 30 write: 20 from register 2, 30 from register
      3.  Block 20 also comes before 30, and writes register 3 from register 4.  Block 40 comes before
      20 and writes both 2 and 4. */
  function Diamond(): Setting {
    Graph(map[10 := Block([Copies(0, 1)]), 20 := Block([Copies(1, 2), Copies(3, 4)]), 30 := Block([Copies(1, 3)]),
              40 := Block([Put(2, 8, Const(5)), Put(4, 8, Const(6))])],
          map[10 := [Edge(20), Edge(30)], 20 := [Edge(40)], 30 := [Edge(20)], 40 := []], {}, 5)
  }

  /** Everything the two visits of 20 need to know of the graph. */
  ghost predicate IsDiamond(b: Setting) {
    && Forked(b, 5) && Comes(b, 40, 20) && Comes(b, 20, 30)
    && Asks(b, 20, 1, [0], {2}) && Asks(b, 20, 3, [1], {4}) && Asks(b, 30, 1, [0], {3})
    && Asks(b, 40, 2, [0], {}) && Asks(b, 40, 4, [1], {})
  }

  lemma DiamondShape()
    ensures var b := Diamond();
            Forked(b, 5) && Comes(b, 40, 20) && Comes(b, 20, 30)
  {
  }

  lemma DiamondBlocks()
    ensures var b := Diamond();
            Holds(b, 20, [Copies(1, 2), Copies(3, 4)]) && Holds(b, 30, [Copies(1, 3)])
            && Holds(b, 40, [Put(2, 8, Const(5)), Put(4, 8, Const(6))])
  {
  }

  lemma DiamondAsks(b: Setting)
    requires Holds(b, 20, [Copies(1, 2), Copies(3, 4)]) && Holds(b, 30, [Copies(1, 3)])
             && Holds(b, 40, [Put(2, 8, Const(5)), Put(4, 8, Const(6))])
    ensures Asks(b, 20, 1, [0], {2}) && Asks(b, 20, 3, [1], {4}) && Asks(b, 30, 1, [0], {3})
            && Asks(b, 40, 2, [0], {}) && Asks(b, 40, 4, [1], {})
  {
    TwoCopies(b, 20, 1, 2, 3, 4);
    OneAsks(b, 30, 1, Get(3, 8));
    TwoConstants(b, 40, 2, 5, 4, 6);
  }

  /** The second visit of 20, for register 3, finds that it needs register 4, with budget left; but the
      statement of 40 that writes register 4 is not in the slice. */
  lemma SecondVisitNotFollowed()
    ensures Misses(Diamond(), Point(40, 1)) && Point(20, 1) in BackwardSlice(Diamond(), 10, 0).value.graph.nodes
  {
    DiamondShape();
    DiamondBlocks();
    DiamondAsks(Diamond());
    DiamondNeeds(Diamond());
    DiamondMisses(Diamond());
  }

  lemma DiamondNeeds(b: Setting)
    requires IsDiamond(b)
    ensures Sliced(b, 10, 0) && Point(40, 1) in FreeSlice(b, 10, 0).nodes
  {
    NeedsHere(b, b.maxLevel - 3, 40, 4, [1], {}, 1);
    NeedsPast(b, b.maxLevel - 2, 20, 3, [1], 4, 40, Point(40, 1));
    NeedsPast(b, b.maxLevel - 1, 30, 1, [0], 3, 20, Point(40, 1));
    CopyNeeds(b, 10, 1, 30, Point(40, 1));
  }

  lemma DiamondMisses(b: Setting)
    requires IsDiamond(b)
    ensures BackwardSlice(b, 10, 0).Ok?
    ensures var g := BackwardSlice(b, 10, 0).value.graph; Point(20, 1) in g.nodes && Point(40, 1) !in g.nodes
  {
    TwoBranches(b, 10, 1, 20, 30);
    var st := StepWithout(b, Here(10), 4, 20, 1, Point(10, 0), 0, 2, 40, Point(40, 1));
    EndWithout(b, st, 3, 40, 2, Point(20, 0), [0], {}, Point(40, 1));
    DiamondAgain(b, Trace(b, st, 3, 40, {2}, {}, Point(20, 0), None));
  }

  /** The visits of 30 and again of 20 for register 3. */
  lemma DiamondAgain(b: Setting, st: Traced)
    requires IsDiamond(b) && st.runs == {20, 40} && Point(40, 1) !in st.graph.nodes
    ensures var st2 := Trace(b, st, 4, 30, {1}, {}, Point(10, 0), None);
            Point(20, 1) in st2.graph.nodes && Point(40, 1) !in st2.graph.nodes
  {
    var st1 := StepWithout(b, st, 4, 30, 1, Point(10, 0), 0, 3, 20, Point(40, 1));
    EndWithout(b, st1, 3, 20, 3, Point(30, 0), [1], {4}, Point(40, 1));
  }

  // ------------------------------------------------- a register that is not asked for

  /** As before, but 20 has no statement that the second visit needs: 30 copies register 5, which only 40
      writes, and 20 lies between them. */
  function Bypass(): Setting {
    Graph(map[10 := Block([Copies(0, 1)]), 20 := Block([Copies(1, 2)]), 30 := Block([Copies(1, 5)]),
              40 := Block([Put(2, 8, Const(5)), Put(5, 8, Const(6))])],
          map[10 := [Edge(20), Edge(30)], 20 := [Edge(40)], 30 := [Edge(20)], 40 := []], {}, 5)
  }

  ghost predicate IsBypass(b: Setting) {
    && Forked(b, 5) && Comes(b, 40, 20) && Comes(b, 20, 30)
    && Asks(b, 20, 1, [0], {2}) && Asks(b, 20, 5, [], {5}) && Asks(b, 30, 1, [0], {5})
    && Asks(b, 40, 2, [0], {}) && Asks(b, 40, 5, [1], {})
  }

  lemma BypassShape()
    ensures var b := Bypass();
            Forked(b, 5) && Comes(b, 40, 20) && Comes(b, 20, 30)
  {
  }

  lemma BypassBlocks()
    ensures var b := Bypass();
            Holds(b, 20, [Copies(1, 2)]) && Holds(b, 30, [Copies(1, 5)])
            && Holds(b, 40, [Put(2, 8, Const(5)), Put(5, 8, Const(6))])
  {
  }

  lemma BypassAsks(b: Setting)
    requires Holds(b, 20, [Copies(1, 2)]) && Holds(b, 30, [Copies(1, 5)])
             && Holds(b, 40, [Put(2, 8, Const(5)), Put(5, 8, Const(6))])
    ensures Asks(b, 20, 1, [0], {2}) && Asks(b, 20, 5, [], {5}) && Asks(b, 30, 1, [0], {5}) && Asks(b, 40, 2, [0], {})
            && Asks(b, 40, 5, [1], {})
  {
    OneAsks(b, 20, 1, Get(2, 8));
    OnePasses(b, 20, 1, Get(2, 8), 5);
    OneAsks(b, 30, 1, Get(5, 8));
    TwoConstants(b, 40, 2, 5, 5, 6);
  }

  /** The second visit of 20, for register 5, needs none of its statements and ends at the same point as
      the first one, linked to the same predecessor; but 40 was never asked for register 5, and the only
      statement that writes it is not in the slice. */
  lemma SecondVisitAsksMore()
    ensures Misses(Bypass(), Point(40, 1))
  {
    BypassShape();
    BypassBlocks();
    BypassAsks(Bypass());
    BypassNeeds(Bypass());
    BypassMisses(Bypass());
  }

  lemma BypassNeeds(b: Setting)
    requires IsBypass(b)
    ensures Sliced(b, 10, 0) && Point(40, 1) in FreeSlice(b, 10, 0).nodes
  {
    NeedsHere(b, b.maxLevel - 3, 40, 5, [1], {}, 1);
    NeedsPast(b, b.maxLevel - 2, 20, 5, [], 5, 40, Point(40, 1));
    NeedsPast(b, b.maxLevel - 1, 30, 1, [0], 5, 20, Point(40, 1));
    CopyNeeds(b, 10, 1, 30, Point(40, 1));
  }

  lemma BypassMisses(b: Setting)
    requires IsBypass(b)
    ensures BackwardSlice(b, 10, 0).Ok? && Point(40, 1) !in BackwardSlice(b, 10, 0).value.graph.nodes
  {
    TwoBranches(b, 10, 1, 20, 30);
    var st := StepWithout(b, Here(10), 4, 20, 1, Point(10, 0), 0, 2, 40, Point(40, 1));
    EndWithout(b, st, 3, 40, 2, Point(20, 0), [0], {}, Point(40, 1));
    BypassAgain(b, Trace(b, st, 3, 40, {2}, {}, Point(20, 0), None));
  }

  /** The visits of 30 and again of 20 for register 5. */
  lemma BypassAgain(b: Setting, st: Traced)
    requires IsBypass(b) && st.runs == {20, 40} && Point(40, 1) !in st.graph.nodes
    ensures Point(40, 1) !in Trace(b, st, 4, 30, {1}, {}, Point(10, 0), None).graph.nodes
  {
    var st1 := StepWithout(b, st, 4, 30, 1, Point(10, 0), 0, 5, 20, Point(40, 1));
    EndWithout(b, st1, 3, 20, 5, Point(30, 0), [], {5}, Point(40, 1));
  }

  // ------------------------------------------------- a write two edges before a block met again

  /** The second visit of 20, for register 5, finds that all it asks of its predecessor 35 is in the slice
      already; but 35 was asked for register 2 only, and so was 40 for register 6 only.  It alone writes
      register 5. */
  function Detour(): Setting {
    Graph(map[10 := Block([Copies(0, 1)]), 20 := Block([Copies(1, 2)]), 30 := Block([Copies(1, 5)]), 35 := Block([Copies(2, 6)]),
              40 := Block([Put(6, 8, Const(5)), Put(5, 8, Const(6))])],
          map[10 := [Edge(20), Edge(30)], 20 := [Edge(35)], 30 := [Edge(20)], 35 := [Edge(40)], 40 := []], {}, 6)
  }

  ghost predicate IsDetour(b: Setting) {
    && Forked(b, 6) && Comes(b, 35, 20) && Comes(b, 20, 30) && Comes(b, 40, 35)
    && Asks(b, 20, 1, [0], {2}) && Asks(b, 20, 5, [], {5}) && Asks(b, 30, 1, [0], {5})
    && Asks(b, 35, 2, [0], {6}) && Asks(b, 35, 5, [], {5})
    && Asks(b, 40, 6, [0], {}) && Asks(b, 40, 5, [1], {})
  }

  lemma DetourShape()
    ensures var b := Detour();
            Forked(b, 6) && Comes(b, 35, 20) && Comes(b, 20, 30) && Comes(b, 40, 35)
  {
  }

  lemma DetourBlocks()
    ensures var b := Detour();
            Holds(b, 20, [Copies(1, 2)]) && Holds(b, 30, [Copies(1, 5)]) && Holds(b, 35, [Copies(2, 6)])
            && Holds(b, 40, [Put(6, 8, Const(5)), Put(5, 8, Const(6))])
  {
  }

  lemma DetourAsks(b: Setting)
    requires Holds(b, 20, [Copies(1, 2)]) && Holds(b, 30, [Copies(1, 5)]) && Holds(b, 35, [Copies(2, 6)])
             && Holds(b, 40, [Put(6, 8, Const(5)), Put(5, 8, Const(6))])
    ensures Asks(b, 20, 1, [0], {2}) && Asks(b, 20, 5, [], {5}) && Asks(b, 30, 1, [0], {5})
            && Asks(b, 35, 2, [0], {6}) && Asks(b, 35, 5, [], {5}) && Asks(b, 40, 6, [0], {})
            && Asks(b, 40, 5, [1], {})
  {
    OneAsks(b, 20, 1, Get(2, 8));
    OnePasses(b, 20, 1, Get(2, 8), 5);
    OneAsks(b, 30, 1, Get(5, 8));
    OneAsks(b, 35, 2, Get(6, 8));
    OnePasses(b, 35, 2, Get(6, 8), 5);
    TwoConstants(b, 40, 6, 5, 5, 6);
  }

  /** The statement that writes register 5 is needed, with budget left, and is not in the slice. */
  lemma SecondVisitMissesFurther()
    ensures Misses(Detour(), Point(40, 1))
  {
    DetourShape();
    DetourBlocks();
    DetourAsks(Detour());
    DetourNeeds(Detour());
    DetourMisses(Detour());
  }

  lemma DetourNeeds(b: Setting)
    requires IsDetour(b)
    ensures Sliced(b, 10, 0) && Point(40, 1) in FreeSlice(b, 10, 0).nodes
  {
    NeedsHere(b, b.maxLevel - 4, 40, 5, [1], {}, 1);
    NeedsPast(b, b.maxLevel - 3, 35, 5, [], 5, 40, Point(40, 1));
    NeedsPast(b, b.maxLevel - 2, 20, 5, [], 5, 35, Point(40, 1));
    NeedsPast(b, b.maxLevel - 1, 30, 1, [0], 5, 20, Point(40, 1));
    CopyNeeds(b, 10, 1, 30, Point(40, 1));
  }

  lemma DetourMisses(b: Setting)
    requires IsDetour(b)
    ensures BackwardSlice(b, 10, 0).Ok? && Point(40, 1) !in BackwardSlice(b, 10, 0).value.graph.nodes
  {
    TwoBranches(b, 10, 1, 20, 30);
    var st := StepWithout(b, Here(10), 5, 20, 1, Point(10, 0), 0, 2, 35, Point(40, 1));
    var st1 := StepWithout(b, st, 4, 35, 2, Point(20, 0), 0, 6, 40, Point(40, 1));
    EndWithout(b, st1, 3, 40, 6, Point(35, 0), [0], {}, Point(40, 1));
    DetourAgain(b, Trace(b, st1, 3, 40, {6}, {}, Point(35, 0), None));
  }

  /** The visits of 30 and again of 20 for register 5. */
  lemma DetourAgain(b: Setting, st: Traced)
    requires IsDetour(b) && st.runs == {20, 35, 40} && Point(40, 1) !in st.graph.nodes
    ensures Point(40, 1) !in Trace(b, st, 5, 30, {1}, {}, Point(10, 0), None).graph.nodes
  {
    var st1 := StepWithout(b, st, 5, 30, 1, Point(10, 0), 0, 5, 20, Point(40, 1));
    EndWithout(b, st1, 4, 20, 5, Point(30, 0), [], {5}, Point(40, 1));
  }

  // ------------------------------------------------- a block met first with less budget

  /** Block 30 is met first at the end of the long way round, where the budget runs out after 35, and
      again next to the destination, for the same register. */
  function LongWay(): Setting {
    Graph(map[10 := Block([Copies(0, 1)]), 20 := Block([Copies(1, 2)]), 25 := Block([Copies(2, 1)]), 30 := Block([Copies(1, 7)]),
              35 := Block([Copies(7, 8)]), 40 := Block([Put(8, 8, Const(5))])],
          map[10 := [Edge(20), Edge(30)], 20 := [Edge(25)], 25 := [Edge(30)], 30 := [Edge(35)], 35 := [Edge(40)], 40 := []], {}, 5)
  }

  ghost predicate IsLongWay(b: Setting) {
    && Forked(b, 5) && Comes(b, 25, 20) && Comes(b, 30, 25) && Comes(b, 35, 30) && Comes(b, 40, 35)
    && Asks(b, 20, 1, [0], {2}) && Asks(b, 25, 2, [0], {1}) && Asks(b, 30, 1, [0], {7})
    && Asks(b, 35, 7, [0], {8}) && Asks(b, 40, 8, [0], {})
  }

  lemma LongWayShape()
    ensures var b := LongWay();
            Forked(b, 5) && Comes(b, 25, 20) && Comes(b, 30, 25) && Comes(b, 35, 30) && Comes(b, 40, 35)
  {
  }

  lemma LongWayBlocks()
    ensures var b := LongWay();
            Holds(b, 20, [Copies(1, 2)]) && Holds(b, 25, [Copies(2, 1)]) && Holds(b, 30, [Copies(1, 7)])
            && Holds(b, 35, [Copies(7, 8)]) && Holds(b, 40, [Put(8, 8, Const(5))])
  {
  }

  lemma LongWayAsks(b: Setting)
    requires Holds(b, 20, [Copies(1, 2)]) && Holds(b, 25, [Copies(2, 1)]) && Holds(b, 30, [Copies(1, 7)])
             && Holds(b, 35, [Copies(7, 8)]) && Holds(b, 40, [Put(8, 8, Const(5))])
    ensures Asks(b, 20, 1, [0], {2}) && Asks(b, 25, 2, [0], {1}) && Asks(b, 30, 1, [0], {7})
            && Asks(b, 35, 7, [0], {8}) && Asks(b, 40, 8, [0], {})
  {
    OneAsks(b, 20, 1, Get(2, 8));
    OneAsks(b, 25, 2, Get(1, 8));
    OneAsks(b, 30, 1, Get(7, 8));
    OneAsks(b, 35, 7, Get(8, 8));
    OneAsks(b, 40, 8, Const(5));
  }

  /** The second visit of 30 hands on just what the first one did, and with more budget: 40 is three edges
      from the target and needed, but not in the slice. */
  lemma FirstVisitSpentBudget()
    ensures Misses(LongWay(), Point(40, 0))
  {
    LongWayShape();
    LongWayBlocks();
    LongWayAsks(LongWay());
    LongWayNeeds(LongWay());
    LongWayMisses(LongWay());
  }

  lemma LongWayNeeds(b: Setting)
    requires IsLongWay(b)
    ensures Sliced(b, 10, 0) && Point(40, 0) in FreeSlice(b, 10, 0).nodes
  {
    NeedsHere(b, b.maxLevel - 3, 40, 8, [0], {}, 0);
    NeedsPast(b, b.maxLevel - 2, 35, 7, [0], 8, 40, Point(40, 0));
    NeedsPast(b, b.maxLevel - 1, 30, 1, [0], 7, 35, Point(40, 0));
    CopyNeeds(b, 10, 1, 30, Point(40, 0));
  }

  /** The visits of 20, 25, 30 and 35, with which the budget is spent, and again of 30. */
  lemma LongWayMisses(b: Setting)
    requires IsLongWay(b)
    ensures BackwardSlice(b, 10, 0).Ok? && Point(40, 0) !in BackwardSlice(b, 10, 0).value.graph.nodes
  {
    TwoBranches(b, 10, 1, 20, 30);
    var st := StepWithout(b, Here(10), 4, 20, 1, Point(10, 0), 0, 2, 25, Point(40, 0));
    var st1 := StepWithout(b, st, 3, 25, 2, Point(20, 0), 0, 1, 30, Point(40, 0));
    LongWayEnd(b, st1);
    EndWithout(b, Trace(b, st1, 2, 30, {1}, {}, Point(25, 0), None), 4, 30, 1, Point(10, 0), [0], {7}, Point(40, 0));
  }

  lemma LongWayEnd(b: Setting, st: Traced)
    requires IsLongWay(b) && st.runs == {20, 25} && Point(40, 0) !in st.graph.nodes
    ensures var st2 := Trace(b, st, 2, 30, {1}, {}, Point(25, 0), None);
            30 in st2.runs && Point(40, 0) !in st2.graph.nodes
  {
    var st1 := StepWithout(b, st, 2, 30, 1, Point(25, 0), 0, 7, 35, Point(40, 0));
    var st2 := StepWithout(b, st1, 1, 35, 7, Point(30, 0), 0, 8, 40, Point(40, 0));
    assert Trace(b, st2, 0, 40, {8}, {}, Point(35, 0), None) == st2;
  }

  // ------------------------------------------------- an ignored register that is followed

  /** The destination 10 copies register 1, which 20 copies from the ignored register 5, which 40
      writes. */
  function Chain(): Setting {
    Graph(map[10 := Block([Copies(0, 1)]), 20 := Block([Copies(1, 5)]), 40 := Block([Put(5, 8, Const(9))])],
          map[10 := [Edge(20)], 20 := [Edge(40)], 40 := []], {5}, 5)
  }

  ghost predicate IsChain(b: Setting) {
    && Quiet(b) && b.maxLevel == 5 && Copying(b, 10, 1) && Comes(b, 20, 10) && Comes(b, 40, 20)
    && Asks(b, 20, 1, [0], {5}) && Asks(b, 40, 5, [0], {})
  }

  lemma ChainBlocks()
    ensures IsChain(Chain())
  {
    OneAsks(Chain(), 20, 1, Get(5, 8));
    OneAsks(Chain(), 40, 5, Const(9));
  }

  /** The write of the ignored register is in the slice. */
  lemma IgnoredRegisterFollowed()
    ensures BackwardSlice(Chain(), 10, 0).Ok? && Point(40, 0) in BackwardSlice(Chain(), 10, 0).value.graph.nodes
  {
    ChainBlocks();
    ChainFollowed(Chain());
  }

  lemma ChainFollowed(b: Setting)
    requires IsChain(b)
    ensures BackwardSlice(b, 10, 0).Ok? && Point(40, 0) in BackwardSlice(b, 10, 0).value.graph.nodes
  {
    CopySlice(b, 10, 1);
    FollowOne(b, Here(10), 4, 20, {1}, Point(10, 0));
    var st := StepWithout(b, Here(10), 4, 20, 1, Point(10, 0), 0, 5, 40, Point(40, 1));
    EndWithout(b, st, 3, 40, 5, Point(20, 0), [0], {}, Point(40, 1));
  }

  // ------------------------------------------------- a target that is overwritten

  /** Asked for the first of two writes of register 0, the slice of the block holds the second one, and
      asks the predecessors for register 2 where the target reads register 1. */
  lemma LaterWriteSliced()
    ensures var b := Graph(map[10 := Block([Copies(0, 1), Copies(0, 2)])], map[10 := []], {}, 5);
            && Wanted(b.irsbs[10], 0) == Ok(({}, {0}))
            && BlockSlice(b, b.irsbs[10], {}, {0}, {}) == Slice([1], Live({}, {2}, {}))
            && !LastWrite(b.machine, b.irsbs[10].stmts, 0, 0)
            && BackwardSlice(b, 10, 0).Ok? && BackwardSlice(b, 10, 0).value.graph.nodes == {Point(10, 0), Point(10, 1)}
            && BackwardSlice(b, 10, 0).value.graph.edges == {(Point(10, 1), Point(10, 0))}
  {
    var b := Graph(map[10 := Block([Copies(0, 1), Copies(0, 2)])], map[10 := []], {}, 5);
    var first, second, here := Copies(0, 1), Copies(0, 2), Point(10, 0);
    LaterWriteAsks(b);
    var indices: seq<nat> := [1];
    assert indices[..0] == [];
    assert MarkAll(Trail(EMPTY.graph, here), 10, indices) == Mark(Trail(EMPTY.graph, here), Point(10, 1));
    assert b.EdgesInto(10) == [];
    assert Writes(b.machine, second, 0);
  }

  lemma LaterWriteAsks(b: Setting)
    requires Holds(b, 10, [Copies(0, 1), Copies(0, 2)])
    ensures Asks(b, 10, 0, [1], {2})
  {
    var first, second := Copies(0, 1), Copies(0, 2);
    assert [first, second][..1] == [first];
    NoAliases(0, Get(1, 8), 0, Get(2, 8));
    PutVerdict(0, Get(2, 8), 0);
    NoneOfOne(0, Get(1, 8), 2);
    AskedFor(b, 10, [first, second], 0, [1], {2});
  }
}
