/** Slice equivalence along a path: running the slices that successive visits compute, block after
block, gives the target what the whole blocks give it; and along a path of first visits the
statements of those slices are in the slice graph. */
module BladePaths {
  import opened Wrappers
  import opened Vex
  import opened Slicer
  import opened SliceSoundness
  import opened SliceTheorems
  import opened Blade
  import opened BladeLimits
  import opened BladeTheorems
  import opened BladeRevisits

  /** A block that a visit comes to, and the exit of it that leads on. */
  datatype Hop = Hop(irsb: Irsb, exit: Option<int>)

  function HopSlice(b: Setting, hop: Hop, regs: set<Reg>, cells: set<Word>): Slice {
    BlockSlice(b, hop.irsb, ControlTemps(b, hop.irsb, hop.exit), regs, cells)
  }

  /** The statements of a block that a visit asked for these registers and cells puts into the slice. */
  ghost function HopKept(b: Setting, hop: Hop, regs: set<Reg>, cells: set<Word>): seq<Stmt> {
    KeptFor(b, hop.irsb, ControlTemps(b, hop.irsb, hop.exit), regs, cells)
  }

  ghost function KeptFor(b: Setting, irsb: Irsb, temps: set<Tmp>, regs: set<Reg>, cells: set<Word>): seq<Stmt> {
    Kept(b.machine, AliasBlock(b.machine, irsb.stmts), b.imarks, irsb.stmts, Targets(b.machine, temps, regs, cells))
  }

  /** Executes the blocks of a path that is listed backward, the nearest block first. */
  function RunPath(m: Machine, path: seq<Hop>, s: State): State {
    if path == [] then s else Run(m, path[0].irsb.stmts, RunPath(m, path[1..], s))
  }

  /** Executes only what the visits along the path put into the slice. */
  ghost function RunSlices(b: Setting, path: seq<Hop>, regs: set<Reg>, cells: set<Word>, s: State): State {
    if path == [] then s
    else
      var live := HopSlice(b, path[0], regs, cells).live;
      Run(b.machine, HopKept(b, path[0], regs, cells), RunSlices(b, path[1..], b.Trim(live.regs), live.cells, s))
  }

  /** What the last visit of the path asks for. */
  function Frontier(b: Setting, path: seq<Hop>, regs: set<Reg>, cells: set<Word>): Live {
    if path == [] then Live({}, regs, cells)
    else
      var live := HopSlice(b, path[0], regs, cells).live;
      Frontier(b, path[1..], b.Trim(live.regs), live.cells)
  }

  /** Every address of the block is one the alias pass knows, and `sp` and `bp` are left alone. */
  ghost predicate AliasedBlock(m: Machine, stmts: seq<Stmt>) {
    (forall i :: 0 <= i < |stmts| ==> StackDisciplined(m, stmts[i])) && AccessesAliased(AliasBlock(m, stmts), stmts)
  }

  /** A block the slicer supports, whose exits read temporaries it defines, entered in state `s`: it
      accesses no memory, or only cells that the alias pass knows, from the mocked `sp` and `bp`. */
  ghost predicate Sliceable(b: Setting, irsb: Irsb, temps: set<Tmp>, s: State) {
    && Supported(b.machine, irsb.stmts) && SingleAssignment(irsb.stmts) && temps <= Defined(irsb.stmts)
    && (|| MemoryFree(irsb.stmts)
        || (WrappingAdds(b.machine) && AliasedBlock(b.machine, irsb.stmts) && MockedEntry(b.machine, s)))
  }

  /** Every block of a path that begins in `s` is sliceable where the path enters it. */
  ghost predicate SliceablePath(b: Setting, path: seq<Hop>, s: State) {
    forall i :: 0 <= i < |path| ==> SliceableHop(b, path, i, s)
  }

  ghost predicate SliceableHop(b: Setting, path: seq<Hop>, i: nat, s: State)
    requires i < |path|
  {
    Sliceable(b, path[i].irsb, ControlTemps(b, path[i].irsb, path[i].exit), RunPath(b.machine, path[i + 1..], s))
  }

  lemma SliceableTail(b: Setting, path: seq<Hop>, s: State)
    requires path != [] && SliceablePath(b, path, s)
    ensures SliceablePath(b, path[1..], s)
    ensures Sliceable(b, path[0].irsb, ControlTemps(b, path[0].irsb, path[0].exit), RunPath(b.machine, path[1..], s))
  {
    assert SliceableHop(b, path, 0, s);
    forall i | 0 <= i < |path[1..]| ensures SliceableHop(b, path[1..], i, s) {
      assert SliceableHop(b, path, i + 1, s);
      assert path[1..][i + 1..] == path[i + 2..];
    }
  }

  /** Blocks that leave `sp` and `bp` alone keep them mocked all along a path. */
  lemma {:induction false} MockedAlong(m: Machine, path: seq<Hop>, s: State)
    requires WrappingAdds(m) && MockedEntry(m, s)
    requires forall i :: 0 <= i < |path| ==> SingleAssignment(path[i].irsb.stmts) && AliasedBlock(m, path[i].irsb.stmts)
    ensures MockedEntry(m, RunPath(m, path, s))
  {
    if path != [] {
      MockedAlong(m, path[1..], s);
      AliasesSound(m, path[0].irsb.stmts, RunPath(m, path[1..], s));
    }
  }

  /** So a path of such blocks is sliceable from a state with mocked `sp` and `bp`. */
  lemma AliasedPathSliceable(b: Setting, path: seq<Hop>, s: State)
    requires WrappingAdds(b.machine) && MockedEntry(b.machine, s)
    requires forall i :: 0 <= i < |path| ==>
               && Supported(b.machine, path[i].irsb.stmts) && SingleAssignment(path[i].irsb.stmts)
               && ControlTemps(b, path[i].irsb, path[i].exit) <= Defined(path[i].irsb.stmts)
               && AliasedBlock(b.machine, path[i].irsb.stmts)
    ensures SliceablePath(b, path, s)
  {
    forall i | 0 <= i < |path| ensures SliceableHop(b, path, i, s) {
      MockedAlong(b.machine, path[i + 1..], s);
    }
  }

  /** Base registers are their own base, and no stack register is trimmed. */
  ghost predicate Plain(b: Setting) {
    (forall r :: b.machine.Base(b.machine.Base(r)) == b.machine.Base(r)) && !b.ignoreSp && !b.ignoreBp
  }

  ghost predicate Bases(m: Machine, regs: set<Reg>) { forall r :: r in regs ==> m.Base(r) == r }

  lemma {:induction false} ReadsBase(m: Machine, e: Expr, r: Reg)
    requires ReadsReg(m, e, r) && forall q :: m.Base(m.Base(q)) == m.Base(q)
    ensures m.Base(r) == r
  {
    if e.ITE? {
      if ReadsReg(m, e.cond, r) { ReadsBase(m, e.cond, r); }
      else if ReadsReg(m, e.iftrue, r) { ReadsBase(m, e.iftrue, r); }
      else { ReadsBase(m, e.iffalse, r); }
    }
  }

  lemma StmtReadsBase(m: Machine, stmt: Stmt, r: Reg)
    requires StmtReadsReg(m, stmt, r) && forall q :: m.Base(m.Base(q)) == m.Base(q)
    ensures m.Base(r) == r
  {
    match stmt
    case WrTmp(_, e) => ReadsBase(m, e, r);
    case Put(_, _, e) => ReadsBase(m, e, r);
    case Store(a, e) => ReadsBase(m, if ReadsReg(m, a, r) then a else e, r);
    case LoadG(_, a, alt, g) => ReadsBase(m, if ReadsReg(m, a, r) then a else if ReadsReg(m, alt, r) then alt else g, r);
  }

  /** What a block asks its predecessors for are base registers. */
  lemma LiveBases(b: Setting, irsb: Irsb, temps: set<Tmp>, regs: set<Reg>, cells: set<Word>)
    requires Plain(b)
    ensures Bases(b.machine, BlockSlice(b, irsb, temps, regs, cells).live.regs)
  {
    var m, l := b.machine, Targets(b.machine, temps, regs, cells);
    var s := BlockSlice(b, irsb, temps, regs, cells);
    forall r | r in s.live.regs ensures m.Base(r) == r {
      LiveBeforeIff(m, AliasBlock(m, irsb.stmts), b.imarks, irsb.stmts, l, r);
      if r !in l.regs {
        var i: nat :| ReadFirst(m, irsb.stmts, s.indices, r, i);
        StmtReadsBase(m, irsb.stmts[i], r);
      }
    }
  }

  lemma TargetsOfBases(m: Machine, temps: set<Tmp>, regs: set<Reg>, cells: set<Word>)
    requires Bases(m, regs)
    ensures Targets(m, temps, regs, cells) == Live(temps, regs, cells)
  {
    var t := Targets(m, temps, regs, cells);
    forall r ensures r in t.regs <==> r in regs {
      if r in regs { assert m.Base(r) == r; }
    }
  }

  /** One block: agreement on what it asks for becomes agreement on what it was asked for. */
  lemma BlockAgrees(b: Setting, irsb: Irsb, temps: set<Tmp>, regs: set<Reg>, cells: set<Word>, s: State, t: State)
    requires Sliceable(b, irsb, temps, s)
    requires var live := BlockSlice(b, irsb, temps, regs, cells).live; Agree(s, t, Live({}, live.regs, live.cells))
    ensures Agree(Run(b.machine, irsb.stmts, s), Run(b.machine, KeptFor(b, irsb, temps, regs, cells), t),
                  Targets(b.machine, temps, regs, cells))
  {
    NoLiveTempsAtEntry(b.machine, AliasBlock(b.machine, irsb.stmts), b.imarks, irsb.stmts, Targets(b.machine, temps, regs, cells));
    if MemoryFree(irsb.stmts) {
      SliceEquivalence(b.machine, b.imarks, irsb.stmts, temps, regs, cells, s, t);
    } else {
      SliceEquivalenceWithMemory(b.machine, b.imarks, irsb.stmts, temps, regs, cells, s, t);
    }
  }

  /** Along any path, states that agree on what the last visit asks for agree, after the whole blocks
      and after their slices, on what the first visit was asked for. */
  lemma {:induction false} PathAgrees(b: Setting, path: seq<Hop>, regs: set<Reg>, cells: set<Word>, s: State, t: State)
    requires Plain(b) && SliceablePath(b, path, s) && Bases(b.machine, regs)
    requires Agree(s, t, Frontier(b, path, regs, cells))
    ensures Agree(RunPath(b.machine, path, s), RunSlices(b, path, regs, cells, t), Live({}, regs, cells))
    decreases |path|
  {
    if path != [] {
      var hop := path[0];
      var temps, live := ControlTemps(b, hop.irsb, hop.exit), HopSlice(b, hop, regs, cells).live;
      assert b.Trim(live.regs) == live.regs;
      LiveBases(b, hop.irsb, temps, regs, cells);
      SliceableTail(b, path, s);
      PathAgrees(b, path[1..], live.regs, live.cells, s, t);
      BlockAgrees(b, hop.irsb, temps, regs, cells, RunPath(b.machine, path[1..], s), RunSlices(b, path[1..], live.regs, live.cells, t));
      TargetsOfBases(b.machine, temps, regs, cells);
    }
  }

  /** The destination block at the end of the path: its target temporaries and registers get the value
      that the whole path gives them. */
  lemma PathSliceEquivalence(b: Setting, dst: Irsb, temps: set<Tmp>, regs: set<Reg>, path: seq<Hop>, s: State, t: State)
    requires Plain(b) && b.ignoredRegs == {} && SliceablePath(b, path, s) && Sliceable(b, dst, temps, RunPath(b.machine, path, s))
    requires var live := BlockSlice(b, dst, temps, regs, {}).live; Agree(s, t, Frontier(b, path, live.regs, live.cells))
    ensures var live := BlockSlice(b, dst, temps, regs, {}).live;
            Agree(Run(b.machine, dst.stmts, RunPath(b.machine, path, s)),
                  Run(b.machine, KeptFor(b, dst, temps, regs, {}), RunSlices(b, path, live.regs, live.cells, t)),
                  Targets(b.machine, temps, regs, {}))
  {
    var live := BlockSlice(b, dst, temps, regs, {}).live;
    LiveBases(b, dst, temps, regs, {});
    PathAgrees(b, path, live.regs, live.cells, s, t);
    BlockAgrees(b, dst, temps, regs, {}, RunPath(b.machine, path, s), RunSlices(b, path, live.regs, live.cells, t));
  }

  // ------------------------------------------------- paths of first visits

  /** The blocks at the far ends of the edges, with the exits that lead on. */
  function Hops(b: Setting, route: seq<InEdge>): (path: seq<Hop>)
    requires Lifting(b, route)
  {
    seq(|route|, i requires 0 <= i < |route| => Hop(b.irsbs[b.NodeAddr(route[i].pred)], route[i].stmtIdx))
  }

  predicate Lifting(b: Setting, route: seq<InEdge>) { forall e :: e in route ==> b.NodeAddr(e.pred) in b.irsbs }

  /** Looking at `edges` visits the blocks at the ends of the edges of `route` one from the other, within
      the budget; all but the last are first visits, which go on. */
  ghost predicate Travels(b: Setting, st: Traced, level: int, edges: seq<InEdge>, regs: set<Reg>, cells: set<Word>,
                          prev: Point, route: seq<InEdge>)
    decreases |route|, 1
  {
    route == [] || (level > 0 && exists k :: 0 <= k < |edges| && TravelsBy(b, st, level, edges, regs, cells, prev, route, k))
  }

  /** The first edge of the route is the `k`-th that is looked at. */
  ghost predicate TravelsBy(b: Setting, st: Traced, level: int, edges: seq<InEdge>, regs: set<Reg>, cells: set<Word>,
                            prev: Point, route: seq<InEdge>, k: nat)
    requires route != [] && k < |edges|
    decreases |route|, 0
  {
    var e, st1 := edges[k], TraceAll(b, st, level, edges[..k], regs, cells, prev);
    && e == route[0] && b.Follows(e) && b.NodeAddr(e.pred) in b.irsbs
    && (route[1..] == [] || GoesOn(b, st1, level, e, regs, cells, prev, route[1..]))
  }

  /** A first visit along `e` that goes on along `rest`. */
  ghost predicate GoesOn(b: Setting, st: Traced, level: int, e: InEdge, regs: set<Reg>, cells: set<Word>, prev: Point, rest: seq<InEdge>)
    requires b.NodeAddr(e.pred) in b.irsbs
    decreases |rest|, 2
  {
    var s, t := VisitSlice(b, e.pred, regs, cells, e.stmtIdx), VisitEnd(b, st.graph, e.pred, regs, cells, prev, e.stmtIdx);
    && e.pred !in st.runs && !(b.Trim(s.live.regs) == {} && s.live.cells == {})
    && Travels(b, Traced(t.graph, st.runs + {e.pred}, st.expanded + [e.pred]), level - 1, b.EdgesInto(b.NodeAddr(e.pred)),
               b.Trim(s.live.regs), s.live.cells, t.prev, rest)
  }

  /** Each edge of the route is the first one into the block before it, and no block but the last has
      been met: such routes are visited in order, whatever the other edges are. */
  predicate Straight(b: Setting, runs: set<CfgNode>, level: int, edges: seq<InEdge>, regs: set<Reg>, cells: set<Word>, route: seq<InEdge>)
    decreases |route|
  {
    route == [] ||
    (&& level > 0 && edges != [] && edges[0] == route[0] && b.Follows(edges[0]) && b.NodeAddr(edges[0].pred) in b.irsbs
     && var run, s := edges[0].pred, VisitSlice(b, edges[0].pred, regs, cells, edges[0].stmtIdx);
        route[1..] == [] ||
        (&& run !in runs && !(b.Trim(s.live.regs) == {} && s.live.cells == {})
         && Straight(b, runs + {run}, level - 1, b.EdgesInto(b.NodeAddr(run)), b.Trim(s.live.regs), s.live.cells, route[1..])))
  }

  lemma {:induction false} StraightTravels(b: Setting, st: Traced, level: int, edges: seq<InEdge>, regs: set<Reg>, cells: set<Word>,
                                           prev: Point, route: seq<InEdge>)
    requires Straight(b, st.runs, level, edges, regs, cells, route)
    ensures Travels(b, st, level, edges, regs, cells, prev, route)
    decreases |route|
  {
    if route != [] {
      var e := edges[0];
      assert edges[..0] == [];
      if route[1..] != [] {
        var s, t := VisitSlice(b, e.pred, regs, cells, e.stmtIdx), VisitEnd(b, st.graph, e.pred, regs, cells, prev, e.stmtIdx);
        StraightTravels(b, Traced(t.graph, st.runs + {e.pred}, st.expanded + [e.pred]), level - 1, b.EdgesInto(b.NodeAddr(e.pred)),
                        b.Trim(s.live.regs), s.live.cells, t.prev, route[1..]);
      }
      assert TravelsBy(b, st, level, edges, regs, cells, prev, route, 0);
    }
  }

  /** The statements that the visits along the route slice are points of the graph. */
  ghost predicate InSlice(b: Setting, g: SliceGraph, route: seq<InEdge>, regs: set<Reg>, cells: set<Word>)
    requires Lifting(b, route)
    decreases |route|
  {
    route == [] ||
    var a, s := b.NodeAddr(route[0].pred), VisitSlice(b, route[0].pred, regs, cells, route[0].stmtIdx);
    && (forall i :: i in s.indices ==> Point(a, i) in g.nodes)
    && InSlice(b, g, route[1..], b.Trim(s.live.regs), s.live.cells)
  }

  lemma {:induction false} InSliceLater(b: Setting, g: SliceGraph, h: SliceGraph, route: seq<InEdge>, regs: set<Reg>, cells: set<Word>)
    requires Lifting(b, route) && Extends(g, h) && InSlice(b, g, route, regs, cells)
    ensures InSlice(b, h, route, regs, cells)
    decreases |route|
  {
    if route != [] {
      var s := VisitSlice(b, route[0].pred, regs, cells, route[0].stmtIdx);
      InSliceLater(b, g, h, route[1..], b.Trim(s.live.regs), s.live.cells);
    }
  }

  lemma {:induction false} TraceAllSplit(b: Setting, st: Traced, level: int, edges: seq<InEdge>, k: nat, regs: set<Reg>,
                                         cells: set<Word>, prev: Point)
    requires k < |edges|
    ensures TraceAll(b, st, level, edges, regs, cells, prev)
         == TraceAll(b, TraceEdge(b, TraceAll(b, st, level, edges[..k], regs, cells, prev), level, edges[k], regs, cells, prev),
                     level, edges[k + 1..], regs, cells, prev)
    decreases k
  {
    if k > 0 {
      var st1 := TraceEdge(b, st, level, edges[0], regs, cells, prev);
      TraceAllSplit(b, st1, level, edges[1..], k - 1, regs, cells, prev);
      assert edges[..k][0] == edges[0] && edges[..k][1..] == edges[1..][..k - 1];
      assert edges[1..][k..] == edges[k + 1..];
    }
  }

  /** Whatever is sliced along a route of first visits is in the slice. */
  lemma {:induction false} TravelsInSlice(b: Setting, st: Traced, level: int, edges: seq<InEdge>, regs: set<Reg>, cells: set<Word>,
                                          prev: Point, route: seq<InEdge>)
    requires Lifting(b, route) && Travels(b, st, level, edges, regs, cells, prev, route)
    ensures InSlice(b, TraceAll(b, st, level, edges, regs, cells, prev).graph, route, regs, cells)
    decreases |route|, 1
  {
    if route != [] {
      var k :| 0 <= k < |edges| && TravelsBy(b, st, level, edges, regs, cells, prev, route, k);
      var e, st1 := edges[k], TraceAll(b, st, level, edges[..k], regs, cells, prev);
      var st2 := TraceEdge(b, st1, level, e, regs, cells, prev);
      VisitInSlice(b, st1, level, e, regs, cells, prev, route);
      TraceAllSplit(b, st, level, edges, k, regs, cells, prev);
      TraceAllExtends(b, st2, level, edges[k + 1..], regs, cells, prev);
      InSliceLater(b, st2.graph, TraceAll(b, st, level, edges, regs, cells, prev).graph, route, regs, cells);
    }
  }

  lemma {:induction false} VisitInSlice(b: Setting, st: Traced, level: int, e: InEdge, regs: set<Reg>, cells: set<Word>,
                                        prev: Point, route: seq<InEdge>)
    requires Lifting(b, route) && route != [] && route[0] == e && level > 0
    requires route[1..] == [] || GoesOn(b, st, level, e, regs, cells, prev, route[1..])
    ensures InSlice(b, Trace(b, st, level, e.pred, regs, cells, prev, e.stmtIdx).graph, route, regs, cells)
    decreases |route|, 0
  {
    var a, s := b.NodeAddr(e.pred), VisitSlice(b, e.pred, regs, cells, e.stmtIdx);
    forall i | i in s.indices ensures Point(a, i) in Trace(b, st, level, e.pred, regs, cells, prev, e.stmtIdx).graph.nodes {
      TraceMarks(b, st, level, e, regs, cells, prev, Point(a, i));
    }
    if route[1..] != [] {
      var t := VisitEnd(b, st.graph, e.pred, regs, cells, prev, e.stmtIdx);
      FirstVisit(b, st, level, e.pred, regs, cells, prev, e.stmtIdx);
      TravelsInSlice(b, Traced(t.graph, st.runs + {e.pred}, st.expanded + [e.pred]), level - 1, b.EdgesInto(a),
                     b.Trim(s.live.regs), s.live.cells, t.prev, route[1..]);
    }
  }

  /** What the target block asks for, and the state its predecessors are looked at in. */
  function TargetSlice(b: Setting, irsb: Irsb, w: (set<Tmp>, set<Reg>)): Slice { BlockSlice(b, irsb, w.0, w.1, {}) }

  /** The slice of the program for a target visits the blocks of the route, all but the last for the first time. */
  ghost predicate Reaches(b: Setting, dst: Addr, target: int, route: seq<InEdge>) {
    && InGraph(b, dst) && dst in b.irsbs && Wanted(b.irsbs[dst], target).Ok?
    && var w := Wanted(b.irsbs[dst], target).value;
    && !(w.0 == {} && w.1 == {})
    && var s := TargetSlice(b, b.irsbs[dst], w);
    && var t := MarkAll(Trail(EMPTY.graph, TargetPoint(dst, target)), dst, s.indices);
    && var regs1 := b.Trim(s.live.regs) - b.ignoredRegs;
    && !(regs1 == {} && s.live.cells == {})
    && Travels(b, EMPTY.(graph := t.graph), b.maxLevel - 1, b.EdgesInto(dst), regs1, s.live.cells, t.prev, route)
  }

  /** The statements sliced in the target block and along the route are points of the slice. */
  lemma RouteInSlice(b: Setting, dst: Addr, target: int, route: seq<InEdge>)
    requires Lifting(b, route) && Reaches(b, dst, target, route)
    ensures var s := TargetSlice(b, b.irsbs[dst], Wanted(b.irsbs[dst], target).value);
            && BackwardSlice(b, dst, target).Ok?
            && var g := BackwardSlice(b, dst, target).value.graph;
            && (forall i :: i in s.indices ==> Point(dst, i) in g.nodes)
            && InSlice(b, g, route, b.Trim(s.live.regs) - b.ignoredRegs, s.live.cells)
  {
    var w := Wanted(b.irsbs[dst], target).value;
    var s := TargetSlice(b, b.irsbs[dst], w);
    var t0 := Trail(EMPTY.graph, TargetPoint(dst, target));
    var t := MarkAll(t0, dst, s.indices);
    var st, regs1 := EMPTY.(graph := t.graph), b.Trim(s.live.regs) - b.ignoredRegs;
    MarkAllChained(t0, dst, s.indices);
    TravelsInSlice(b, st, b.maxLevel - 1, b.EdgesInto(dst), regs1, s.live.cells, t.prev, route);
    TraceAllExtends(b, st, b.maxLevel - 1, b.EdgesInto(dst), regs1, s.live.cells, t.prev);
    assert BackwardSlice(b, dst, target).value == TraceAll(b, st, b.maxLevel - 1, b.EdgesInto(dst), regs1, s.live.cells, t.prev);
  }

  /** Executing, of a path that the slice visits for the first time, only statements that are points of
      the slice gives the target temporaries and registers the value that the whole path gives them. */
  lemma RouteSliceEquivalence(b: Setting, dst: Addr, target: int, route: seq<InEdge>, s: State, t: State)
    requires Plain(b) && b.ignoredRegs == {} && Lifting(b, route) && Reaches(b, dst, target, route)
    requires SliceablePath(b, Hops(b, route), s)
    requires Sliceable(b, b.irsbs[dst], Wanted(b.irsbs[dst], target).value.0, RunPath(b.machine, Hops(b, route), s))
    requires var live := TargetSlice(b, b.irsbs[dst], Wanted(b.irsbs[dst], target).value).live;
             Agree(s, t, Frontier(b, Hops(b, route), live.regs, live.cells))
    ensures var w, irsb := Wanted(b.irsbs[dst], target).value, b.irsbs[dst];
            var own := TargetSlice(b, irsb, w);
            && BackwardSlice(b, dst, target).Ok?
            && var g := BackwardSlice(b, dst, target).value.graph;
            && (forall i :: i in own.indices ==> Point(dst, i) in g.nodes)
            && InSlice(b, g, route, own.live.regs, own.live.cells)
            && Agree(Run(b.machine, irsb.stmts, RunPath(b.machine, Hops(b, route), s)),
                     Run(b.machine, KeptFor(b, irsb, w.0, w.1, {}),
                         RunSlices(b, Hops(b, route), own.live.regs, own.live.cells, t)),
                     Targets(b.machine, w.0, w.1, {}))
  {
    var w, irsb := Wanted(b.irsbs[dst], target).value, b.irsbs[dst];
    var own := TargetSlice(b, irsb, w);
    RouteInSlice(b, dst, target, route);
    assert b.Trim(own.live.regs) - b.ignoredRegs == own.live.regs;
    PathSliceEquivalence(b, irsb, w.0, w.1, Hops(b, route), s, t);
  }

  // ------------------------------------------------- all points of the slice

  /** Executes the statements of the block at `a` that are points of the graph, whichever visits put them
      there. */
  function RunPoints(m: Machine, g: SliceGraph, a: Addr, stmts: seq<Stmt>, s: State): State {
    if stmts == [] then s
    else
      var n := |stmts| - 1;
      var before := RunPoints(m, g, a, stmts[..n], s);
      if Point(a, n) in g.nodes then Step(m, stmts[n], before) else before
  }

  /** The points of the slice in the blocks of a route, the nearest block last. */
  function RunRoute(b: Setting, g: SliceGraph, route: seq<InEdge>, s: State): State
    requires Lifting(b, route)
  {
    if route == [] then s
    else
      var a := b.NodeAddr(route[0].pred);
      RunPoints(b.machine, g, a, b.irsbs[a].stmts, RunRoute(b, g, route[1..], s))
  }

  /** Statements that are not needed may be executed too: without memory accesses they change nothing that
      is live. */
  lemma StepUnneeded(m: Machine, aliases: Aliases, imarks: bool, stmt: Stmt, l: Live, s: State, t: State)
    requires SupportedStmt(m, stmt) && !stmt.Store? && !BackStmt(m, aliases, imarks, stmt, l).inSlice && Agree(s, t, l)
    ensures Agree(Step(m, stmt, s), Step(m, stmt, t), l)
  {
  }

  predicate InGraphOf(g: SliceGraph, a: Addr, indices: seq<nat>) { forall i :: i in indices ==> Point(a, i) in g.nodes }

  lemma {:induction false} PointsAgree(m: Machine, aliases: Aliases, imarks: bool, stmts: seq<Stmt>, g: SliceGraph, a: Addr,
                                       l: Live, s: State, t: State)
    requires Supported(m, stmts) && MemoryFree(stmts)
    requires InGraphOf(g, a, SliceFrom(m, aliases, imarks, stmts, l).indices)
    requires Agree(s, t, SliceFrom(m, aliases, imarks, stmts, l).live)
    ensures Agree(Run(m, stmts, s), RunPoints(m, g, a, stmts, t), l)
  {
    if stmts != [] {
      var n := |stmts| - 1;
      var v := BackStmt(m, aliases, imarks, stmts[n], l);
      var before, after := Run(m, stmts[..n], s), RunPoints(m, g, a, stmts[..n], t);
      if !v.live.IsEmpty() {
        assert forall i :: i in SliceFrom(m, aliases, imarks, stmts[..n], v.live).indices ==>
                             i in SliceFrom(m, aliases, imarks, stmts, l).indices;
        PointsAgree(m, aliases, imarks, stmts[..n], g, a, v.live, s, t);
      }
      assert Agree(before, after, v.live);
      LastAgrees(m, aliases, imarks, stmts[n], l, before, after);
      assert v.inSlice ==> n in SliceFrom(m, aliases, imarks, stmts, l).indices;
    }
  }

  /** The last statement of a block, needed or not. */
  lemma LastAgrees(m: Machine, aliases: Aliases, imarks: bool, stmt: Stmt, l: Live, s: State, t: State)
    requires SupportedStmt(m, stmt) && NoAccess(stmt) && Agree(s, t, BackStmt(m, aliases, imarks, stmt, l).live)
    ensures Agree(Step(m, stmt, s), Step(m, stmt, t), l)
  {
    if BackStmt(m, aliases, imarks, stmt, l).inSlice {
      match stmt {
        case WrTmp(_, e) => MemoryFreeResolved(aliases, e, s);
        case Put(_, _, e) => MemoryFreeResolved(aliases, e, s);
        case _ =>
      }
      StepInSlice(m, aliases, imarks, stmt, l, s, t);
    } else {
      StepUnneeded(m, aliases, imarks, stmt, l, s, t);
    }
  }

  lemma BlockPointsAgree(b: Setting, g: SliceGraph, a: Addr, irsb: Irsb, temps: set<Tmp>, regs: set<Reg>, cells: set<Word>, s: State, t: State)
    requires Sliceable(b, irsb, temps, s) && MemoryFree(irsb.stmts)
    requires var own := BlockSlice(b, irsb, temps, regs, cells);
             InGraphOf(g, a, own.indices) && Agree(s, t, Live({}, own.live.regs, own.live.cells))
    ensures Agree(Run(b.machine, irsb.stmts, s), RunPoints(b.machine, g, a, irsb.stmts, t), Targets(b.machine, temps, regs, cells))
  {
    var m, l := b.machine, Targets(b.machine, temps, regs, cells);
    var aliases := AliasBlock(m, irsb.stmts);
    NoLiveTempsAtEntry(m, aliases, b.imarks, irsb.stmts, l);
    PointsAgree(m, aliases, b.imarks, irsb.stmts, g, a, l, s, t);
  }

  /** Along a route whose slices are in the graph, the whole blocks and all their points in the graph agree
      on what the first visit was asked for. */
  lemma {:induction false} RoutePointsAgree(b: Setting, g: SliceGraph, route: seq<InEdge>, regs: set<Reg>, cells: set<Word>, s: State, t: State)
    requires Plain(b) && Lifting(b, route) && InSlice(b, g, route, regs, cells) && Bases(b.machine, regs)
    requires SliceablePath(b, Hops(b, route), s)
    requires forall i :: 0 <= i < |route| ==> MemoryFree(Hops(b, route)[i].irsb.stmts)
    requires Agree(s, t, Frontier(b, Hops(b, route), regs, cells))
    ensures Agree(RunPath(b.machine, Hops(b, route), s), RunRoute(b, g, route, t), Live({}, regs, cells))
    decreases |route|
  {
    if route != [] {
      var hops := Hops(b, route);
      var a, live := b.NodeAddr(route[0].pred), HopSlice(b, hops[0], regs, cells).live;
      assert hops[1..] == Hops(b, route[1..]);
      assert b.Trim(live.regs) == live.regs;
      LiveBases(b, hops[0].irsb, ControlTemps(b, hops[0].irsb, hops[0].exit), regs, cells);
      SliceableTail(b, hops, s);
      RoutePointsAgree(b, g, route[1..], live.regs, live.cells, s, t);
      BlockPointsAgree(b, g, a, hops[0].irsb, ControlTemps(b, hops[0].irsb, hops[0].exit), regs, cells,
                       RunPath(b.machine, hops[1..], s), RunRoute(b, g, route[1..], t));
      TargetsOfBases(b.machine, ControlTemps(b, hops[0].irsb, hops[0].exit), regs, cells);
    }
  }

  /** Executing all points of the slice in the target block and in the blocks of a route of first visits,
      those included that other visits put there, gives the target temporaries and registers the value
      that the whole path gives them, when no block of it accesses memory. */
  lemma SlicePointsEquivalence(b: Setting, dst: Addr, target: int, route: seq<InEdge>, s: State, t: State)
    requires Plain(b) && b.ignoredRegs == {} && Lifting(b, route) && Reaches(b, dst, target, route)
    requires SliceablePath(b, Hops(b, route), s) && MemoryFree(b.irsbs[dst].stmts)
    requires forall i :: 0 <= i < |route| ==> MemoryFree(Hops(b, route)[i].irsb.stmts)
    requires Sliceable(b, b.irsbs[dst], Wanted(b.irsbs[dst], target).value.0, RunPath(b.machine, Hops(b, route), s))
    requires var live := TargetSlice(b, b.irsbs[dst], Wanted(b.irsbs[dst], target).value).live;
             Agree(s, t, Frontier(b, Hops(b, route), live.regs, live.cells))
    ensures var w, irsb := Wanted(b.irsbs[dst], target).value, b.irsbs[dst];
            && BackwardSlice(b, dst, target).Ok?
            && var g := BackwardSlice(b, dst, target).value.graph;
            Agree(Run(b.machine, irsb.stmts, RunPath(b.machine, Hops(b, route), s)),
                  RunPoints(b.machine, g, dst, irsb.stmts, RunRoute(b, g, route, t)),
                  Targets(b.machine, w.0, w.1, {}))
  {
    var w, irsb := Wanted(b.irsbs[dst], target).value, b.irsbs[dst];
    var own := TargetSlice(b, irsb, w);
    RouteInSlice(b, dst, target, route);
    var g := BackwardSlice(b, dst, target).value.graph;
    assert b.Trim(own.live.regs) - b.ignoredRegs == own.live.regs;
    LiveBases(b, irsb, w.0, w.1, {});
    RoutePointsAgree(b, g, route, own.live.regs, own.live.cells, s, t);
    BlockPointsAgree(b, g, dst, irsb, w.0, w.1, {}, RunPath(b.machine, Hops(b, route), s), RunRoute(b, g, route, t));
  }
}
