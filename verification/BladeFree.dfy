/** The slice that `Blade` would build if it went on from every visit of a block, not only from the
    first, and when it builds the same. */
module BladeFree {
  import opened Wrappers
  import opened Vex
  import opened Slicer
  import opened SliceSoundness
  import opened Blade
  import opened BladeTheorems
  import opened BladeRevisits

  // ------------------------------------------------- going on from every visit

  /** `Trace` without the test whether the block was met before. */
  function FreeTrace(b: Setting, g: SliceGraph, level: int, run: CfgNode, regs: set<Reg>, cells: set<Word>,
                     prev: Point, exit: Option<int>): SliceGraph
    decreases level, 0
  {
    if level <= 0 || b.NodeAddr(run) !in b.irsbs then g
    else
      var s, t := VisitSlice(b, run, regs, cells, exit), VisitEnd(b, g, run, regs, cells, prev, exit);
      if b.Trim(s.live.regs) == {} && s.live.cells == {} then t.graph
      else FreeAll(b, t.graph, level - 1, b.EdgesInto(b.NodeAddr(run)), b.Trim(s.live.regs), s.live.cells, t.prev)
  }

  function FreeAll(b: Setting, g: SliceGraph, level: int, edges: seq<InEdge>, regs: set<Reg>, cells: set<Word>, prev: Point): SliceGraph
    decreases level, |edges| + 1
  {
    if edges == [] then g
    else
      var e := edges[0];
      var g1 := if b.Follows(e) then FreeTrace(b, g, level, e.pred, regs, cells, prev, e.stmtIdx) else g;
      FreeAll(b, g1, level, edges[1..], regs, cells, prev)
  }

  /** What going on freely from a visit makes of a graph. */
  function FreeOnward(b: Setting, g: SliceGraph, level: int, a: Addr, s: Slice, last: Point): SliceGraph {
    if b.Trim(s.live.regs) == {} && s.live.cells == {} then g
    else FreeAll(b, g, level - 1, b.EdgesInto(a), b.Trim(s.live.regs), s.live.cells, last)
  }

  // ------------------------------------------------- what is needed within the budget

  /** The points of its own block that a visit needs; with `holders` also statement 0, which stands for a
      block none of whose statements is needed. */
  predicate OwnPoint(b: Setting, run: CfgNode, s: Slice, holders: bool, p: Point)
    requires b.NodeAddr(run) in b.irsbs
  {
    && p.addr == b.NodeAddr(run) && BlockPoint(b, b.irsbs[p.addr], s.indices, p.stmt)
    && (holders || p.stmt == DEFAULT_STATEMENT || p.stmt in s.indices
        || (b.controlDependence && 0 <= p.stmt < |b.irsbs[p.addr].stmts| && BoringExit(b.irsbs[p.addr].stmts[p.stmt])))
  }

  /** A visit with this budget needs the point, in its own block or in predecessors of it, however many
      edges away. */
  ghost predicate Needs(b: Setting, level: int, run: CfgNode, regs: set<Reg>, cells: set<Word>, exit: Option<int>, holders: bool, p: Point)
    decreases level, 0
  {
    && level > 0 && b.NodeAddr(run) in b.irsbs
    && var s := VisitSlice(b, run, regs, cells, exit);
    (|| OwnPoint(b, run, s, holders, p)
     || (Matters(b, level, s) && NeedsFrom(b, level - 1, b.NodeAddr(run), b.Trim(s.live.regs), s.live.cells, holders, p)))
  }

  /** The block at `a`, asking its predecessors for these registers and cells, needs the point. */
  ghost predicate NeedsFrom(b: Setting, level: int, a: Addr, regs: set<Reg>, cells: set<Word>, holders: bool, p: Point)
    decreases level, 1
  {
    level > 0 && exists e :: Followed(b, a, e) && Needs(b, level, e.pred, regs, cells, e.stmtIdx, holders, p)
  }

  /** Needed along one of these edges. */
  ghost predicate NeedsAlong(b: Setting, level: int, edges: seq<InEdge>, regs: set<Reg>, cells: set<Word>, holders: bool, p: Point) {
    level > 0 && exists e :: e in edges && b.Follows(e) && Needs(b, level, e.pred, regs, cells, e.stmtIdx, holders, p)
  }

  lemma NeedsAlongAll(b: Setting, level: int, a: Addr, regs: set<Reg>, cells: set<Word>, holders: bool, p: Point)
    ensures NeedsAlong(b, level, b.EdgesInto(a), regs, cells, holders, p) <==> NeedsFrom(b, level, a, regs, cells, holders, p)
  {
    if NeedsAlong(b, level, b.EdgesInto(a), regs, cells, holders, p) {
      var e :| e in b.EdgesInto(a) && b.Follows(e) && Needs(b, level, e.pred, regs, cells, e.stmtIdx, holders, p);
      assert Followed(b, a, e);
    }
  }

  lemma NeedsAlongSplit(b: Setting, level: int, edges: seq<InEdge>, regs: set<Reg>, cells: set<Word>, holders: bool, p: Point)
    requires edges != []
    ensures NeedsAlong(b, level, edges, regs, cells, holders, p)
       <==> NeedsAlong(b, level, edges[1..], regs, cells, holders, p)
            || (b.Follows(edges[0]) && Needs(b, level, edges[0].pred, regs, cells, edges[0].stmtIdx, holders, p))
  {
    assert forall e :: e in edges <==> e == edges[0] || e in edges[1..];
  }

  /** Only statement 0 is ever a mere placeholder. */
  lemma {:induction false} OnlyHolders(b: Setting, level: int, run: CfgNode, regs: set<Reg>, cells: set<Word>, exit: Option<int>, p: Point)
    requires Needs(b, level, run, regs, cells, exit, true, p)
    ensures Needs(b, level, run, regs, cells, exit, false, p) || p.stmt == 0
    decreases level, 0
  {
    var s := VisitSlice(b, run, regs, cells, exit);
    if !OwnPoint(b, run, s, true, p) {
      OnlyHoldersFrom(b, level - 1, b.NodeAddr(run), b.Trim(s.live.regs), s.live.cells, p);
    }
  }

  lemma {:induction false} OnlyHoldersFrom(b: Setting, level: int, a: Addr, regs: set<Reg>, cells: set<Word>, p: Point)
    requires NeedsFrom(b, level, a, regs, cells, true, p)
    ensures NeedsFrom(b, level, a, regs, cells, false, p) || p.stmt == 0
    decreases level, 1
  {
    var e :| Followed(b, a, e) && Needs(b, level, e.pred, regs, cells, e.stmtIdx, true, p);
    OnlyHolders(b, level, e.pred, regs, cells, e.stmtIdx, p);
  }

  // ------------------------------------------------- the points of the free recursion

  lemma VisitPoints(b: Setting, g: SliceGraph, run: CfgNode, regs: set<Reg>, cells: set<Word>, prev: Point, exit: Option<int>)
    requires b.NodeAddr(run) in b.irsbs
    ensures var s, t := VisitSlice(b, run, regs, cells, exit), VisitEnd(b, g, run, regs, cells, prev, exit);
            && t.prev in t.graph.nodes
            && forall p :: p in t.graph.nodes <==> p in g.nodes || p == prev || OwnPoint(b, run, s, true, p)
  {
    var a, s := b.NodeAddr(run), VisitSlice(b, run, regs, cells, exit);
    var t := VisitEnd(b, g, run, regs, cells, prev, exit);
    forall p ensures p in t.graph.nodes <==> p in g.nodes || p == prev || OwnPoint(b, run, s, true, p) {
      BlockMarkedPoints(b, Trail(g, prev), a, b.irsbs[a], s.indices, p);
    }
    MarkAllChained(ExitsMarked(b, Trail(g, prev), a, b.irsbs[a]), a, s.indices);
    if s.indices != [] { assert s.indices[0] in s.indices; }
  }

  lemma {:induction false} FreeTracePoints(b: Setting, g: SliceGraph, level: int, run: CfgNode, regs: set<Reg>, cells: set<Word>,
                                           prev: Point, exit: Option<int>, p: Point)
    requires prev in g.nodes
    ensures p in FreeTrace(b, g, level, run, regs, cells, prev, exit).nodes
       <==> p in g.nodes || Needs(b, level, run, regs, cells, exit, true, p)
    ensures prev in FreeTrace(b, g, level, run, regs, cells, prev, exit).nodes
    decreases level, 0
  {
    var a := b.NodeAddr(run);
    if level > 0 && a in b.irsbs {
      var s, t := VisitSlice(b, run, regs, cells, exit), VisitEnd(b, g, run, regs, cells, prev, exit);
      VisitPoints(b, g, run, regs, cells, prev, exit);
      if !(b.Trim(s.live.regs) == {} && s.live.cells == {}) {
        FreeAllPoints(b, t.graph, level - 1, b.EdgesInto(a), b.Trim(s.live.regs), s.live.cells, t.prev, p);
        FreeAllPoints(b, t.graph, level - 1, b.EdgesInto(a), b.Trim(s.live.regs), s.live.cells, t.prev, prev);
        NeedsAlongAll(b, level - 1, a, b.Trim(s.live.regs), s.live.cells, true, p);
      }
    }
  }

  /** Going on freely along edges brings in exactly what is needed along them. */
  lemma {:induction false} FreeAllPoints(b: Setting, g: SliceGraph, level: int, edges: seq<InEdge>, regs: set<Reg>, cells: set<Word>,
                                         prev: Point, p: Point)
    requires prev in g.nodes
    ensures p in FreeAll(b, g, level, edges, regs, cells, prev).nodes
       <==> p in g.nodes || NeedsAlong(b, level, edges, regs, cells, true, p)
    decreases level, |edges| + 1
  {
    if edges != [] {
      var e := edges[0];
      var g1 := if b.Follows(e) then FreeTrace(b, g, level, e.pred, regs, cells, prev, e.stmtIdx) else g;
      if b.Follows(e) { FreeTracePoints(b, g, level, e.pred, regs, cells, prev, e.stmtIdx, p); }
      FreeAllPoints(b, g1, level, edges[1..], regs, cells, prev, p);
      NeedsAlongSplit(b, level, edges, regs, cells, true, p);
    }
  }

  // ------------------------------------------------- one later visit

  /** Going on freely from a later visit would add no point to the slice. */
  predicate LosesNothing(b: Setting, st: Traced, level: int, run: CfgNode, regs: set<Reg>, cells: set<Word>,
                         prev: Point, exit: Option<int>)
    requires b.NodeAddr(run) in b.irsbs
  {
    var g := Trace(b, st, level, run, regs, cells, prev, exit).graph;
    FreeOnward(b, g, level, b.NodeAddr(run), VisitSlice(b, run, regs, cells, exit),
               VisitEnd(b, st.graph, run, regs, cells, prev, exit).prev).nodes <= g.nodes
  }

  /** A later visit loses nothing if and only if its predecessors do not matter (the budget is spent, or
      nothing is live after trimming), or all that is needed of them, their predecessors and so on within
      the budget is in the slice or among the visit's own points. */
  lemma RevisitLosesNothingIff(b: Setting, st: Traced, level: int, run: CfgNode, regs: set<Reg>, cells: set<Word>, prev: Point, exit: Option<int>)
    requires b.NodeAddr(run) in b.irsbs && run in st.runs && level > 0
    ensures var a, s := b.NodeAddr(run), VisitSlice(b, run, regs, cells, exit);
            LosesNothing(b, st, level, run, regs, cells, prev, exit)
            <==> (Matters(b, level, s) ==>
                    forall p :: NeedsFrom(b, level - 1, a, b.Trim(s.live.regs), s.live.cells, true, p)
                                ==> Present(b, st.graph, run, s, prev, p))
  {
    var a, s := b.NodeAddr(run), VisitSlice(b, run, regs, cells, exit);
    var t := VisitEnd(b, st.graph, run, regs, cells, prev, exit);
    RevisitNodes(b, st, level, run, regs, cells, prev, exit);
    if !(b.Trim(s.live.regs) == {} && s.live.cells == {}) {
      forall p ensures p in FreeOnward(b, t.graph, level, a, s, t.prev).nodes
                  <==> p in t.graph.nodes || NeedsFrom(b, level - 1, a, b.Trim(s.live.regs), s.live.cells, true, p)
      {
        FreeAllPoints(b, t.graph, level - 1, b.EdgesInto(a), b.Trim(s.live.regs), s.live.cells, t.prev, p);
        NeedsAlongAll(b, level - 1, a, b.Trim(s.live.regs), s.live.cells, true, p);
      }
    }
  }

  // ------------------------------------------------- the visits of a run

  /** A visit, and whether its block had been met before. */
  datatype Visit = Visit(level: int, run: CfgNode, regs: set<Reg>, cells: set<Word>, exit: Option<int>, again: bool)

  /** All visits that the recursion makes. */
  function Visits(b: Setting, st: Traced, level: int, run: CfgNode, regs: set<Reg>, cells: set<Word>, prev: Point, exit: Option<int>): set<Visit>
    decreases level, 0
  {
    if level <= 0 || b.NodeAddr(run) !in b.irsbs then {}
    else
      var s, t := VisitSlice(b, run, regs, cells, exit), VisitEnd(b, st.graph, run, regs, cells, prev, exit);
      {Visit(level, run, regs, cells, exit, run in st.runs)}
      + if run in st.runs || (b.Trim(s.live.regs) == {} && s.live.cells == {}) then {}
        else VisitsAll(b, Traced(t.graph, st.runs + {run}, st.expanded + [run]), level - 1, b.EdgesInto(b.NodeAddr(run)),
                       b.Trim(s.live.regs), s.live.cells, t.prev)
  }

  function VisitsAll(b: Setting, st: Traced, level: int, edges: seq<InEdge>, regs: set<Reg>, cells: set<Word>, prev: Point): set<Visit>
    decreases level, |edges| + 1
  {
    if edges == [] then {}
    else
      var e := edges[0];
      (if b.Follows(e) then Visits(b, st, level, e.pred, regs, cells, prev, e.stmtIdx) else {})
      + VisitsAll(b, TraceEdge(b, st, level, e, regs, cells, prev), level, edges[1..], regs, cells, prev)
  }

  predicate Lifts(b: Setting, v: Visit) { v.level > 0 && b.NodeAddr(v.run) in b.irsbs }

  function SliceOf(b: Setting, v: Visit): Slice
    requires Lifts(b, v)
  {
    VisitSlice(b, v.run, v.regs, v.cells, v.exit)
  }

  ghost predicate NeedsOf(b: Setting, v: Visit, holders: bool, p: Point) {
    Needs(b, v.level, v.run, v.regs, v.cells, v.exit, holders, p)
  }

  /** The visit that a first visit makes along an edge. */
  function Next(b: Setting, v: Visit, e: InEdge, again: bool): Visit
    requires Lifts(b, v)
  {
    Visit(v.level - 1, e.pred, b.Trim(SliceOf(b, v).live.regs), SliceOf(b, v).live.cells, e.stmtIdx, again)
  }

  predicate GoesOnAlong(b: Setting, v: Visit, e: InEdge)
    requires Lifts(b, v)
  {
    Matters(b, v.level, SliceOf(b, v)) && Followed(b, b.NodeAddr(v.run), e)
  }

  ghost predicate First(log: set<Visit>, run: CfgNode) { exists v :: v in log && !v.again && v.run == run }

  /** What every set of visits satisfies: the visits lift and leave their own points in the slice, first
      visits go on along all followed edges, and blocks met again were met before. */
  ghost predicate Recorded(b: Setting, runs: set<CfgNode>, log: set<Visit>, st: Traced) {
    && (forall v :: v in log ==> Lifts(b, v))
    && (forall v, p :: v in log && OwnPoint(b, v.run, SliceOf(b, v), true, p) ==> p in st.graph.nodes)
    && (forall v, e :: v in log && !v.again && GoesOnAlong(b, v, e) ==> Next(b, v, e, false) in log || Next(b, v, e, true) in log)
    && (forall v :: v in log && v.again ==> v.run in runs || First(log, v.run))
    && (forall r :: r in st.runs ==> r in runs || First(log, r))
  }

  lemma RecordedBoth(b: Setting, runs: set<CfgNode>, log1: set<Visit>, st1: Traced, log2: set<Visit>, st2: Traced)
    requires Recorded(b, runs, log1, st1) && Recorded(b, st1.runs, log2, st2) && Extends(st1.graph, st2.graph)
    ensures Recorded(b, runs, log1 + log2, st2)
  {
    var log := log1 + log2;
    forall r | First(log1, r) || First(log2, r) ensures First(log, r) {
      var v :| v in log && !v.again && v.run == r;
    }
  }

  lemma {:induction false} VisitsRecorded(b: Setting, st: Traced, level: int, run: CfgNode, regs: set<Reg>, cells: set<Word>,
                                          prev: Point, exit: Option<int>)
    ensures Recorded(b, st.runs, Visits(b, st, level, run, regs, cells, prev, exit), Trace(b, st, level, run, regs, cells, prev, exit))
    decreases level, 0
  {
    var a := b.NodeAddr(run);
    if level > 0 && a in b.irsbs {
      var s, t := VisitSlice(b, run, regs, cells, exit), VisitEnd(b, st.graph, run, regs, cells, prev, exit);
      var v := Visit(level, run, regs, cells, exit, run in st.runs);
      VisitPoints(b, st.graph, run, regs, cells, prev, exit);
      if run !in st.runs && !(b.Trim(s.live.regs) == {} && s.live.cells == {}) {
        var begun, regs1 := Traced(t.graph, st.runs + {run}, st.expanded + [run]), b.Trim(s.live.regs);
        VisitsAllRecorded(b, begun, level - 1, b.EdgesInto(a), regs1, s.live.cells, t.prev);
        TraceAllExtends(b, begun, level - 1, b.EdgesInto(a), regs1, s.live.cells, t.prev);
        FirstGoesOn(b, v, begun, t.prev);
        FirstRecorded(b, st.runs, v, VisitsAll(b, begun, level - 1, b.EdgesInto(a), regs1, s.live.cells, t.prev), begun,
                      TraceAll(b, begun, level - 1, b.EdgesInto(a), regs1, s.live.cells, t.prev));
      } else {
        OneRecorded(b, st.runs, v, Trace(b, st, level, run, regs, cells, prev, exit));
      }
    }
  }

  /** A visit after which nothing is looked at. */
  lemma OneRecorded(b: Setting, runs: set<CfgNode>, v: Visit, st: Traced)
    requires Lifts(b, v) && (v.again <==> v.run in runs) && st.runs == runs + {v.run}
    requires v.again || !Matters(b, v.level, SliceOf(b, v))
    requires forall p :: OwnPoint(b, v.run, SliceOf(b, v), true, p) ==> p in st.graph.nodes
    ensures Recorded(b, runs, {v}, st)
  {
    assert v in {v};
  }

  /** A first visit in front of those it goes on to. */
  lemma FirstRecorded(b: Setting, runs: set<CfgNode>, v: Visit, rest: set<Visit>, begun: Traced, st: Traced)
    requires Lifts(b, v) && !v.again && begun.runs == runs + {v.run} && Recorded(b, begun.runs, rest, st) && Extends(begun.graph, st.graph)
    requires forall p :: OwnPoint(b, v.run, SliceOf(b, v), true, p) ==> p in begun.graph.nodes
    requires forall e :: GoesOnAlong(b, v, e) ==> Next(b, v, e, false) in rest || Next(b, v, e, true) in rest
    ensures Recorded(b, runs, {v} + rest, st)
  {
    var log := {v} + rest;
    assert v in log;
    assert First(log, v.run);
    forall r | First(rest, r) ensures First(log, r) {
      var w :| w in rest && !w.again && w.run == r;
      assert w in log;
    }
  }

  lemma FirstGoesOn(b: Setting, v: Visit, begun: Traced, last: Point)
    requires Lifts(b, v)
    ensures var s := SliceOf(b, v);
            var rest := VisitsAll(b, begun, v.level - 1, b.EdgesInto(b.NodeAddr(v.run)), b.Trim(s.live.regs), s.live.cells, last);
            forall e :: GoesOnAlong(b, v, e) ==> Next(b, v, e, false) in rest || Next(b, v, e, true) in rest
  {
    var a, s := b.NodeAddr(v.run), SliceOf(b, v);
    var rest := VisitsAll(b, begun, v.level - 1, b.EdgesInto(a), b.Trim(s.live.regs), s.live.cells, last);
    forall e | GoesOnAlong(b, v, e) ensures Next(b, v, e, false) in rest || Next(b, v, e, true) in rest {
      VisitsAllEdge(b, begun, v.level - 1, b.EdgesInto(a), b.Trim(s.live.regs), s.live.cells, last, e);
    }
  }

  lemma {:induction false} VisitsAllRecorded(b: Setting, st: Traced, level: int, edges: seq<InEdge>, regs: set<Reg>, cells: set<Word>, prev: Point)
    ensures Recorded(b, st.runs, VisitsAll(b, st, level, edges, regs, cells, prev), TraceAll(b, st, level, edges, regs, cells, prev))
    decreases level, |edges| + 1
  {
    if edges != [] {
      var e := edges[0];
      var st1 := TraceEdge(b, st, level, e, regs, cells, prev);
      var log1 := if b.Follows(e) then Visits(b, st, level, e.pred, regs, cells, prev, e.stmtIdx) else {};
      if b.Follows(e) { VisitsRecorded(b, st, level, e.pred, regs, cells, prev, e.stmtIdx); }
      VisitsAllRecorded(b, st1, level, edges[1..], regs, cells, prev);
      TraceAllExtends(b, st1, level, edges[1..], regs, cells, prev);
      RecordedBoth(b, st.runs, log1, st1, VisitsAll(b, st1, level, edges[1..], regs, cells, prev),
                   TraceAll(b, st, level, edges, regs, cells, prev));
    }
  }

  /** Every edge that is looked at is visited. */
  lemma {:induction false} VisitsAllEdge(b: Setting, st: Traced, level: int, edges: seq<InEdge>, regs: set<Reg>, cells: set<Word>,
                                         prev: Point, e: InEdge)
    requires level > 0 && e in edges && b.Follows(e) && b.NodeAddr(e.pred) in b.irsbs
    ensures var log := VisitsAll(b, st, level, edges, regs, cells, prev);
            || Visit(level, e.pred, regs, cells, e.stmtIdx, false) in log
            || Visit(level, e.pred, regs, cells, e.stmtIdx, true) in log
    decreases |edges|
  {
    if edges[0] != e {
      VisitsAllEdge(b, TraceEdge(b, st, level, edges[0], regs, cells, prev), level, edges[1..], regs, cells, prev, e);
    }
  }

  // ------------------------------------------------- the slice is part of the free one

  lemma {:induction false} TraceWithin(b: Setting, st: Traced, level: int, run: CfgNode, regs: set<Reg>, cells: set<Word>,
                                       prev: Point, exit: Option<int>, p: Point)
    requires p in Trace(b, st, level, run, regs, cells, prev, exit).graph.nodes
    ensures p in st.graph.nodes || p == prev || Needs(b, level, run, regs, cells, exit, true, p)
    decreases level, 0
  {
    var a := b.NodeAddr(run);
    if level > 0 && a in b.irsbs {
      var s, t := VisitSlice(b, run, regs, cells, exit), VisitEnd(b, st.graph, run, regs, cells, prev, exit);
      VisitPoints(b, st.graph, run, regs, cells, prev, exit);
      if run !in st.runs && !(b.Trim(s.live.regs) == {} && s.live.cells == {}) {
        TraceAllWithin(b, Traced(t.graph, st.runs + {run}, st.expanded + [run]), level - 1, b.EdgesInto(a),
                       b.Trim(s.live.regs), s.live.cells, t.prev, p);
        NeedsAlongAll(b, level - 1, a, b.Trim(s.live.regs), s.live.cells, true, p);
      }
    }
  }

  lemma {:induction false} TraceAllWithin(b: Setting, st: Traced, level: int, edges: seq<InEdge>, regs: set<Reg>, cells: set<Word>,
                                          prev: Point, p: Point)
    requires p in TraceAll(b, st, level, edges, regs, cells, prev).graph.nodes
    ensures p in st.graph.nodes || p == prev || NeedsAlong(b, level, edges, regs, cells, true, p)
    decreases level, |edges| + 1
  {
    if edges != [] {
      var e := edges[0];
      TraceAllWithin(b, TraceEdge(b, st, level, e, regs, cells, prev), level, edges[1..], regs, cells, prev, p);
      NeedsAlongSplit(b, level, edges, regs, cells, true, p);
      if b.Follows(e) && p in Trace(b, st, level, e.pred, regs, cells, prev, e.stmtIdx).graph.nodes {
        TraceWithin(b, st, level, e.pred, regs, cells, prev, e.stmtIdx, p);
      }
    }
  }

  /** What a visit of the run needs is needed by the visit that the run began with. */
  lemma {:induction false} VisitWithin(b: Setting, st: Traced, level: int, run: CfgNode, regs: set<Reg>, cells: set<Word>,
                                       prev: Point, exit: Option<int>, v: Visit, p: Point)
    requires v in Visits(b, st, level, run, regs, cells, prev, exit) && NeedsOf(b, v, true, p)
    ensures Needs(b, level, run, regs, cells, exit, true, p)
    decreases level, 0
  {
    var a := b.NodeAddr(run);
    var s, t := VisitSlice(b, run, regs, cells, exit), VisitEnd(b, st.graph, run, regs, cells, prev, exit);
    if v != Visit(level, run, regs, cells, exit, run in st.runs) {
      VisitAllWithin(b, Traced(t.graph, st.runs + {run}, st.expanded + [run]), level - 1, b.EdgesInto(a),
                     b.Trim(s.live.regs), s.live.cells, t.prev, v, p);
      NeedsAlongAll(b, level - 1, a, b.Trim(s.live.regs), s.live.cells, true, p);
    }
  }

  lemma {:induction false} VisitAllWithin(b: Setting, st: Traced, level: int, edges: seq<InEdge>, regs: set<Reg>, cells: set<Word>,
                                          prev: Point, v: Visit, p: Point)
    requires v in VisitsAll(b, st, level, edges, regs, cells, prev) && NeedsOf(b, v, true, p)
    ensures NeedsAlong(b, level, edges, regs, cells, true, p)
    decreases level, |edges| + 1
  {
    var e := edges[0];
    NeedsAlongSplit(b, level, edges, regs, cells, true, p);
    if b.Follows(e) && v in Visits(b, st, level, e.pred, regs, cells, prev, e.stmtIdx) {
      VisitWithin(b, st, level, e.pred, regs, cells, prev, e.stmtIdx, v, p);
    } else {
      VisitAllWithin(b, TraceEdge(b, st, level, e, regs, cells, prev), level, edges[1..], regs, cells, prev, v, p);
    }
  }

  // ------------------------------------------------- when the slice is the free one

  /** Everything that the later visits of a run need is in the graph. */
  ghost predicate LaterCovered(b: Setting, log: set<Visit>, g: SliceGraph) {
    forall v, p :: v in log && v.again && NeedsOf(b, v, true, p) ==> p in g.nodes
  }

  /** Then everything that any of its visits needs is. */
  lemma {:induction false} VisitCovered(b: Setting, log: set<Visit>, st: Traced, v: Visit, p: Point)
    requires Recorded(b, {}, log, st) && LaterCovered(b, log, st.graph) && v in log && NeedsOf(b, v, true, p)
    ensures p in st.graph.nodes
    decreases v.level
  {
    var s := SliceOf(b, v);
    if !v.again && !OwnPoint(b, v.run, s, true, p) {
      assert NeedsFrom(b, v.level - 1, b.NodeAddr(v.run), b.Trim(s.live.regs), s.live.cells, true, p);
      var e :| Followed(b, b.NodeAddr(v.run), e) && Needs(b, v.level - 1, e.pred, b.Trim(s.live.regs), s.live.cells, e.stmtIdx, true, p);
      assert GoesOnAlong(b, v, e);
      var again := Next(b, v, e, true) in log;
      VisitCovered(b, log, st, Next(b, v, e, again), p);
    }
  }

  /** Every later visit comes with no more budget than the first visit of its block, and hands on no more. */
  predicate Narrowing(b: Setting, log: set<Visit>) {
    forall v, w :: v in log && w in log && v.again && !w.again && v.run == w.run ==> NoMore(b, v, w)
  }

  /** Where `v` would go on, `w` has no less budget and hands on no less. */
  predicate NoMore(b: Setting, v: Visit, w: Visit) {
    Lifts(b, v) && Lifts(b, w) && Matters(b, v.level, SliceOf(b, v)) ==>
      && v.level <= w.level
      && b.Trim(SliceOf(b, v).live.regs) <= b.Trim(SliceOf(b, w).live.regs) && SliceOf(b, v).live.cells <= SliceOf(b, w).live.cells
  }

  lemma VisitMonotone(b: Setting, run: CfgNode, exit: Option<int>, regs0: set<Reg>, cells0: set<Word>, regs: set<Reg>, cells: set<Word>)
    requires b.NodeAddr(run) in b.irsbs && regs <= regs0 && cells <= cells0
    ensures var s0, s := VisitSlice(b, run, regs0, cells0, exit), VisitSlice(b, run, regs, cells, exit);
            && (forall i :: i in s.indices ==> i in s0.indices)
            && b.Trim(s.live.regs) <= b.Trim(s0.live.regs) && s.live.cells <= s0.live.cells
  {
    var irsb := b.irsbs[b.NodeAddr(run)];
    var temps := ControlTemps(b, irsb, exit);
    SliceMonotone(b.machine, AliasBlock(b.machine, irsb.stmts), b.imarks, irsb.stmts,
                  Targets(b.machine, temps, regs0, cells0), Targets(b.machine, temps, regs, cells));
  }

  /** In a narrowing run, whatever is needed for no more than a visit was asked for, within no more than
      its budget, is in the slice. */
  lemma {:induction false} NarrowCovers(b: Setting, log: set<Visit>, st: Traced, v: Visit, k: int, regs: set<Reg>, cells: set<Word>, p: Point)
    requires Recorded(b, {}, log, st) && Narrowing(b, log) && v in log
    requires k <= v.level && regs <= v.regs && cells <= v.cells && Needs(b, k, v.run, regs, cells, v.exit, false, p)
    ensures p in st.graph.nodes
    decreases k
  {
    var a, s := b.NodeAddr(v.run), VisitSlice(b, v.run, regs, cells, v.exit);
    VisitMonotone(b, v.run, v.exit, v.regs, v.cells, regs, cells);
    if OwnPoint(b, v.run, s, false, p) {
      assert OwnPoint(b, v.run, SliceOf(b, v), true, p);
    } else {
      var e :| Followed(b, a, e) && Needs(b, k - 1, e.pred, b.Trim(s.live.regs), s.live.cells, e.stmtIdx, false, p);
      var w := FirstOf(b, log, st, v);
      assert GoesOnAlong(b, w, e);
      var again := Next(b, w, e, true) in log;
      NarrowCovers(b, log, st, Next(b, w, e, again), k - 1, b.Trim(s.live.regs), s.live.cells, p);
    }
  }

  /** The first visit of the block of a visit that matters hands on no less. */
  lemma FirstOf(b: Setting, log: set<Visit>, st: Traced, v: Visit) returns (w: Visit)
    requires Recorded(b, {}, log, st) && Narrowing(b, log) && v in log && Matters(b, v.level, SliceOf(b, v))
    ensures w in log && !w.again && w.run == v.run && v.level <= w.level
    ensures b.Trim(SliceOf(b, v).live.regs) <= b.Trim(SliceOf(b, w).live.regs) && SliceOf(b, v).live.cells <= SliceOf(b, w).live.cells
  {
    w := v;
    if v.again {
      assert First(log, v.run);
      w :| w in log && !w.again && w.run == v.run;
      assert NoMore(b, v, w);
    }
  }

  // ------------------------------------------------- whole slices

  lemma {:induction false} EmptySlice(m: Machine, aliases: Aliases, imarks: bool, stmts: seq<Stmt>, l: Live)
    requires SliceFrom(m, aliases, imarks, stmts, l).indices == []
    ensures SliceFrom(m, aliases, imarks, stmts, l).live == l
    ensures !l.IsEmpty() ==> forall i :: 0 <= i < |stmts| ==> !BackStmt(m, aliases, imarks, stmts[i], l).inSlice
  {
    if stmts != [] {
      var n := |stmts| - 1;
      var v := BackStmt(m, aliases, imarks, stmts[n], l);
      assert !v.inSlice;
      if !l.IsEmpty() { EmptySlice(m, aliases, imarks, stmts[..n], l); }
    }
  }

  /** What the target block is sliced for. */
  ghost predicate IsTarget(irsb: Irsb, w: (set<Tmp>, set<Reg>)) { exists index :: Wanted(irsb, index) == Ok(w) }

  /** A target block none of whose statements is sliced asks its predecessors for nothing. */
  lemma EmptyTarget(b: Setting, irsb: Irsb, w: (set<Tmp>, set<Reg>))
    requires IsTarget(irsb, w) && BlockSlice(b, irsb, w.0, w.1, {}).indices == []
    ensures var s := BlockSlice(b, irsb, w.0, w.1, {}); s.live.regs == {} && s.live.cells == {}
  {
    var m, l := b.machine, Targets(b.machine, w.0, w.1, {});
    var aliases := AliasBlock(m, irsb.stmts);
    EmptySlice(m, aliases, b.imarks, irsb.stmts, l);
    var index :| Wanted(irsb, index) == Ok(w);
    if w.1 != {} {
      var i := if index < 0 then |irsb.stmts| + index else index;
      assert m.Base(irsb.stmts[i].offset) in l.regs;
      assert BackStmt(m, aliases, b.imarks, irsb.stmts[i], l).inSlice;
    }
  }

  /** The trail of the target block, and what it asks its predecessors for. */
  datatype Start = Start(trail: Trail, regs: set<Reg>, cells: set<Word>)

  function StartOf(b: Setting, dst: Addr, irsb: Irsb, prev: Point, temps: set<Tmp>, regs: set<Reg>): Start {
    var s := BlockSlice(b, irsb, temps, regs, {});
    Start(MarkAll(Trail(EMPTY.graph, prev), dst, s.indices), b.Trim(s.live.regs) - b.ignoredRegs, s.live.cells)
  }

  predicate HandsOn(o: Start) { !(o.regs == {} && o.cells == {}) }

  function Begun(o: Start): Traced { EMPTY.(graph := o.trail.graph) }

  /** A target that is sliced: its block lifts and something is wanted of it. */
  predicate Sliced(b: Setting, dst: Addr, target: int) {
    && InGraph(b, dst) && dst in b.irsbs && Wanted(b.irsbs[dst], target).Ok?
    && var w := Wanted(b.irsbs[dst], target).value; !(w.0 == {} && w.1 == {})
  }

  function Origin(b: Setting, dst: Addr, target: int): Start
    requires Sliced(b, dst, target)
  {
    var w := Wanted(b.irsbs[dst], target).value;
    StartOf(b, dst, b.irsbs[dst], TargetPoint(dst, target), w.0, w.1)
  }

  /** The whole slice that going on from every visit gives. */
  function FreeSlice(b: Setting, dst: Addr, target: int): SliceGraph
    requires Sliced(b, dst, target)
  {
    var o := Origin(b, dst, target);
    if HandsOn(o) then FreeAll(b, o.trail.graph, b.maxLevel - 1, b.EdgesInto(dst), o.regs, o.cells, o.trail.prev) else o.trail.graph
  }

  /** All visits that building the slice makes. */
  function SliceVisits(b: Setting, dst: Addr, target: int): set<Visit>
    requires Sliced(b, dst, target)
  {
    var o := Origin(b, dst, target);
    if HandsOn(o) then VisitsAll(b, Begun(o), b.maxLevel - 1, b.EdgesInto(dst), o.regs, o.cells, o.trail.prev) else {}
  }

  /** The slice needs the point: it is sliced in the target block, or in predecessors within the budget. */
  ghost predicate SliceNeeds(b: Setting, dst: Addr, target: int, holders: bool, p: Point)
    requires Sliced(b, dst, target)
  {
    var o := Origin(b, dst, target);
    p in o.trail.graph.nodes || (HandsOn(o) && NeedsFrom(b, b.maxLevel - 1, dst, o.regs, o.cells, holders, p))
  }

  lemma SliceIs(b: Setting, dst: Addr, target: int)
    requires Sliced(b, dst, target)
    ensures var o := Origin(b, dst, target);
            && BackwardSlice(b, dst, target).Ok?
            && (HandsOn(o) ==> o.trail.prev in o.trail.graph.nodes)
            && BackwardSlice(b, dst, target).value
               == if HandsOn(o) then TraceAll(b, Begun(o), b.maxLevel - 1, b.EdgesInto(dst), o.regs, o.cells, o.trail.prev) else Begun(o)
  {
    var w := Wanted(b.irsbs[dst], target).value;
    var s := BlockSlice(b, b.irsbs[dst], w.0, w.1, {});
    assert IsTarget(b.irsbs[dst], w);
    MarkAllChained(Trail(EMPTY.graph, TargetPoint(dst, target)), dst, s.indices);
    if s.indices == [] {
      EmptyTarget(b, b.irsbs[dst], w);
    } else {
      assert s.indices[0] in s.indices;
    }
  }

  lemma SliceRecorded(b: Setting, dst: Addr, target: int)
    requires Sliced(b, dst, target)
    ensures Recorded(b, {}, SliceVisits(b, dst, target), BackwardSlice(b, dst, target).value)
  {
    var o := Origin(b, dst, target);
    SliceIs(b, dst, target);
    if HandsOn(o) { VisitsAllRecorded(b, Begun(o), b.maxLevel - 1, b.EdgesInto(dst), o.regs, o.cells, o.trail.prev); }
  }

  /** The free slice holds exactly what is needed within the budget. */
  lemma FreeSlicePoints(b: Setting, dst: Addr, target: int, p: Point)
    requires Sliced(b, dst, target)
    ensures p in FreeSlice(b, dst, target).nodes <==> SliceNeeds(b, dst, target, true, p)
  {
    var o := Origin(b, dst, target);
    SliceIs(b, dst, target);
    if HandsOn(o) {
      FreeAllPoints(b, o.trail.graph, b.maxLevel - 1, b.EdgesInto(dst), o.regs, o.cells, o.trail.prev, p);
      NeedsAlongAll(b, b.maxLevel - 1, dst, o.regs, o.cells, true, p);
    }
  }

  /** A slice never holds more. */
  lemma SliceWithinFree(b: Setting, dst: Addr, target: int)
    requires Sliced(b, dst, target)
    ensures BackwardSlice(b, dst, target).value.graph.nodes <= FreeSlice(b, dst, target).nodes
  {
    var o := Origin(b, dst, target);
    SliceIs(b, dst, target);
    forall p | p in BackwardSlice(b, dst, target).value.graph.nodes ensures p in FreeSlice(b, dst, target).nodes {
      if HandsOn(o) {
        TraceAllWithin(b, Begun(o), b.maxLevel - 1, b.EdgesInto(dst), o.regs, o.cells, o.trail.prev, p);
        NeedsAlongAll(b, b.maxLevel - 1, dst, o.regs, o.cells, true, p);
      }
      FreeSlicePoints(b, dst, target, p);
    }
  }

  /** What a visit of the run needs along the edges into the target block. */
  lemma EdgeVisited(b: Setting, dst: Addr, target: int, e: InEdge) returns (v: Visit)
    requires Sliced(b, dst, target) && HandsOn(Origin(b, dst, target)) && b.maxLevel > 1 && Followed(b, dst, e)
    ensures var o := Origin(b, dst, target);
            v in SliceVisits(b, dst, target) && v == Visit(b.maxLevel - 1, e.pred, o.regs, o.cells, e.stmtIdx, v.again)
  {
    var o := Origin(b, dst, target);
    VisitsAllEdge(b, Begun(o), b.maxLevel - 1, b.EdgesInto(dst), o.regs, o.cells, o.trail.prev, e);
    v := Visit(b.maxLevel - 1, e.pred, o.regs, o.cells, e.stmtIdx, true);
    if v !in SliceVisits(b, dst, target) { v := v.(again := false); }
  }

  lemma TargetExtends(b: Setting, dst: Addr, target: int)
    requires Sliced(b, dst, target)
    ensures BackwardSlice(b, dst, target).Ok?
    ensures Origin(b, dst, target).trail.graph.nodes <= BackwardSlice(b, dst, target).value.graph.nodes
  {
    var o := Origin(b, dst, target);
    SliceIs(b, dst, target);
    if HandsOn(o) { TraceAllExtends(b, Begun(o), b.maxLevel - 1, b.EdgesInto(dst), o.regs, o.cells, o.trail.prev); }
  }

  /** The slice is the free slice if and only if all that its later visits need, however many edges away
      within their budget, is in it. */
  lemma SliceCompleteIff(b: Setting, dst: Addr, target: int)
    requires Sliced(b, dst, target)
    ensures BackwardSlice(b, dst, target).Ok?
    ensures BackwardSlice(b, dst, target).value.graph.nodes == FreeSlice(b, dst, target).nodes
       <==> LaterCovered(b, SliceVisits(b, dst, target), BackwardSlice(b, dst, target).value.graph)
  {
    TargetExtends(b, dst, target);
    SliceWithinFree(b, dst, target);
    var g, log := BackwardSlice(b, dst, target).value.graph, SliceVisits(b, dst, target);
    if g.nodes == FreeSlice(b, dst, target).nodes {
      forall v, p | v in log && v.again && NeedsOf(b, v, true, p) ensures p in g.nodes {
        LaterNeeded(b, dst, target, v, p);
      }
    }
    if LaterCovered(b, log, g) {
      forall p | p in FreeSlice(b, dst, target).nodes ensures p in g.nodes { FreeCovered(b, dst, target, p); }
    }
  }

  lemma LaterNeeded(b: Setting, dst: Addr, target: int, v: Visit, p: Point)
    requires Sliced(b, dst, target) && v in SliceVisits(b, dst, target) && NeedsOf(b, v, true, p)
    ensures p in FreeSlice(b, dst, target).nodes
  {
    var o := Origin(b, dst, target);
    VisitAllWithin(b, Begun(o), b.maxLevel - 1, b.EdgesInto(dst), o.regs, o.cells, o.trail.prev, v, p);
    NeedsAlongAll(b, b.maxLevel - 1, dst, o.regs, o.cells, true, p);
    FreeSlicePoints(b, dst, target, p);
  }

  lemma FreeCovered(b: Setting, dst: Addr, target: int, p: Point)
    requires Sliced(b, dst, target) && p in FreeSlice(b, dst, target).nodes
    requires BackwardSlice(b, dst, target).Ok?
    requires LaterCovered(b, SliceVisits(b, dst, target), BackwardSlice(b, dst, target).value.graph)
    ensures p in BackwardSlice(b, dst, target).value.graph.nodes
  {
    var o := Origin(b, dst, target);
    FreeSlicePoints(b, dst, target, p);
    TargetExtends(b, dst, target);
    if p !in o.trail.graph.nodes {
      var e :| Followed(b, dst, e) && Needs(b, b.maxLevel - 1, e.pred, o.regs, o.cells, e.stmtIdx, true, p);
      var v := EdgeVisited(b, dst, target, e);
      SliceRecorded(b, dst, target);
      VisitCovered(b, SliceVisits(b, dst, target), BackwardSlice(b, dst, target).value, v, p);
    }
  }

  /** If every later visit comes with no more budget than the first visit of its block and hands on no
      more, the slice holds every point of the free slice, placeholders apart: statement 0 of a block,
      needed only to stand for it. */
  lemma NarrowRunComplete(b: Setting, dst: Addr, target: int, p: Point)
    requires Sliced(b, dst, target)
    requires Narrowing(b, SliceVisits(b, dst, target)) && p in FreeSlice(b, dst, target).nodes
    ensures BackwardSlice(b, dst, target).Ok?
    ensures || p in BackwardSlice(b, dst, target).value.graph.nodes
            || (p.stmt == 0 && !SliceNeeds(b, dst, target, false, p))
  {
    var o := Origin(b, dst, target);
    FreeSlicePoints(b, dst, target, p);
    TargetExtends(b, dst, target);
    if p !in o.trail.graph.nodes {
      OnlyHoldersFrom(b, b.maxLevel - 1, dst, o.regs, o.cells, p);
      if NeedsFrom(b, b.maxLevel - 1, dst, o.regs, o.cells, false, p) {
        var e :| Followed(b, dst, e) && Needs(b, b.maxLevel - 1, e.pred, o.regs, o.cells, e.stmtIdx, false, p);
        var v := EdgeVisited(b, dst, target, e);
        SliceRecorded(b, dst, target);
        NarrowCovers(b, SliceVisits(b, dst, target), BackwardSlice(b, dst, target).value, v, b.maxLevel - 1, o.regs, o.cells, p);
      }
    }
  }
}
