/** `Blade`: the backward slice over a control flow graph, built block by block on top of
`SimSlicer`. The recursive routine is a method on an object that mutates the slice graph,
the set of traced blocks and the block cache; its postcondition ties it to functions on
the value `Traced`, and the theorems are about those. */
module Blade {
  import opened Wrappers
  import opened Vex
  import opened Slicer

  type Addr = int
  type CfgNode = nat

  /** A statement of a block, or its default exit. */
  datatype Point = Point(addr: Addr, stmt: int)

  const DEFAULT_STATEMENT: int := -2

  datatype SliceGraph = SliceGraph(nodes: set<Point>, edges: set<(Point, Point)>)
  {
    /** `networkx.DiGraph.add_edge`: adds missing endpoints too. */
    function AddEdge(from: Point, to: Point): SliceGraph {
      SliceGraph(nodes + {from, to}, edges + {(from, to)})
    }
  }

  datatype Irsb = Irsb(stmts: seq<Stmt>, next: Expr)

  datatype JumpKind = Boring | CallKind | RetKind | OtherKind

  /** An edge into a node, as the graph lists it. */
  datatype InEdge = InEdge(pred: CfgNode, jumpkind: Option<JumpKind>, stmtIdx: Option<int>)

  /** Everything the slicer is given: the options, the graph, and what it asks of the project.
      `irsbs` holds the blocks that lift; `anyNode` is the lookup of a node by address. */
  datatype Setting = Setting(
    machine: Machine,
    irsbs: map<Addr, Irsb>,
    anyNode: map<Addr, CfgNode>,
    addrOf: map<CfgNode, Addr>,
    inEdges: map<CfgNode, seq<InEdge>>,
    hooked: set<Addr>,
    ignoredRegs: set<Reg>,
    ignoreSp: bool,
    ignoreBp: bool,
    maxLevel: int,
    stopAtCalls: bool,
    maxPredecessors: nat,
    imarks: bool,
    controlDependence: bool)
  {
    function NodeAddr(n: CfgNode): Addr { if n in addrOf then addrOf[n] else 0 }

    /** The edges into the block at `a` that are looked at: the first `maxPredecessors`. */
    function EdgesInto(a: Addr): seq<InEdge> {
      if a in anyNode && anyNode[a] in inEdges then
        var es := inEdges[anyNode[a]];
        if |es| > maxPredecessors then es[..maxPredecessors] else es
      else []
    }

    predicate Follows(e: InEdge) {
      && !(stopAtCalls && (e.jumpkind == Some(CallKind) || e.jumpkind == Some(RetKind)))
      && NodeAddr(e.pred) !in hooked
    }

    /** What the stack-pointer options remove from a set of live registers. */
    function Trim(regs: set<Reg>): set<Reg> {
      regs - (if ignoreSp then {machine.sp} else {}) - (if ignoreBp then {machine.bp} else {})
    }
  }

  // ------------------------------------------------- marking statements

  /** The slice so far and the point the next edge goes to. */
  datatype Trail = Trail(graph: SliceGraph, prev: Point)

  function Mark(t: Trail, p: Point): Trail {
    Trail(t.graph.AddEdge(p, t.prev), p)
  }

  /** Marks sliced statements in the order the backward loop finds them, last first. */
  function MarkAll(t: Trail, a: Addr, indices: seq<nat>): Trail
    decreases |indices|
  {
    if indices == [] then t
    else
      var n := |indices| - 1;
      MarkAll(Mark(t, Point(a, indices[n])), a, indices[..n])
  }

  predicate BoringExit(s: Stmt) { s.Exit? && s.boring }

  /** Marks the ordinary conditional exits among the first `i` statements. */
  function MarkExits(t: Trail, a: Addr, stmts: seq<Stmt>, i: nat): Trail
    requires i <= |stmts|
  {
    if i == 0 then t
    else
      var u := MarkExits(t, a, stmts, i - 1);
      if BoringExit(stmts[i - 1]) then Mark(u, Point(a, i - 1)) else u
  }

  function TempOf(e: Expr): set<Tmp> { if e.RdTmp? then {e.tmp} else {} }

  function ExitTemps(stmts: seq<Stmt>, i: nat): set<Tmp>
    requires i <= |stmts|
  {
    if i == 0 then {}
    else ExitTemps(stmts, i - 1) + if BoringExit(stmts[i - 1]) then TempOf(stmts[i - 1].guard) else {}
  }

  // ------------------------------------------------- one block

  /** The temporaries a predecessor block is sliced for. */
  function ControlTemps(b: Setting, irsb: Irsb, exit: Option<int>): set<Tmp> {
    if !b.controlDependence then {}
    else
      (if exit == None || exit == Some(DEFAULT_STATEMENT) then TempOf(irsb.next) else {})
      + ExitTemps(irsb.stmts, |irsb.stmts|)
  }

  function BlockSlice(b: Setting, irsb: Irsb, temps: set<Tmp>, regs: set<Reg>, cells: set<Word>): Slice {
    SliceFrom(b.machine, AliasBlock(b.machine, irsb.stmts), b.imarks, irsb.stmts, Targets(b.machine, temps, regs, cells))
  }

  function ExitsMarked(b: Setting, t: Trail, a: Addr, irsb: Irsb): Trail {
    var u := Mark(t, Point(a, DEFAULT_STATEMENT));
    if b.controlDependence then MarkExits(u, a, irsb.stmts, |irsb.stmts|) else u
  }

  /** The default exit, the conditional exits, the sliced statements; statement 0 stands for a
      block none of whose statements is in the slice. */
  function BlockMarked(b: Setting, t: Trail, a: Addr, irsb: Irsb, indices: seq<nat>): Trail {
    var u := ExitsMarked(b, t, a, irsb);
    if indices == [] then Mark(u, Point(a, 0)) else MarkAll(u, a, indices)
  }

  // ------------------------------------------------- the recursion

  /** `expanded` lists the blocks whose predecessors were looked at, in order. */
  datatype Traced = Traced(graph: SliceGraph, runs: set<CfgNode>, expanded: seq<CfgNode>)

  function Trace(b: Setting, st: Traced, level: int, run: CfgNode, regs: set<Reg>, cells: set<Word>, prev: Point, exit: Option<int>): Traced
    decreases level, 0
  {
    var a := b.NodeAddr(run);
    if level <= 0 || a !in b.irsbs then st
    else
      var irsb := b.irsbs[a];
      var s := BlockSlice(b, irsb, ControlTemps(b, irsb, exit), regs, cells);
      var t := BlockMarked(b, Trail(st.graph, prev), a, irsb, s.indices);
      if run in st.runs then st.(graph := t.graph)
      else
        var st1 := Traced(t.graph, st.runs + {run}, st.expanded + [run]);
        var regs1 := b.Trim(s.live.regs);
        if regs1 == {} && s.live.cells == {} then st1
        else TraceAll(b, st1, level - 1, b.EdgesInto(a), regs1, s.live.cells, t.prev)
  }

  function TraceAll(b: Setting, st: Traced, level: int, edges: seq<InEdge>, regs: set<Reg>, cells: set<Word>, prev: Point): Traced
    decreases level, |edges| + 1
  {
    if edges == [] then st
    else TraceAll(b, TraceEdge(b, st, level, edges[0], regs, cells, prev), level, edges[1..], regs, cells, prev)
  }

  function TraceEdge(b: Setting, st: Traced, level: int, e: InEdge, regs: set<Reg>, cells: set<Word>, prev: Point): Traced
    decreases level, 1
  {
    if b.Follows(e) then Trace(b, st, level, e.pred, regs, cells, prev, e.stmtIdx) else st
  }

  // ------------------------------------------------- the whole slice

  datatype BladeError = NotInGraph | NoSuchStatement | UnsupportedTarget | UnsupportedNext

  /** The target index that stands for the default exit. */
  const AT_EXIT: int := -1

  /** The point the slice is for: a statement under the index the caller gave, or the default exit. */
  function TargetPoint(dst: Addr, index: int): Point {
    Point(dst, if index == AT_EXIT then DEFAULT_STATEMENT else index)
  }

  predicate InGraph(b: Setting, a: Addr) { a in b.anyNode && b.anyNode[a] in b.inEdges }

  /** The temporaries and registers the destination block is sliced for. Other negative indices count
      from the end, as Python's do. */
  function Wanted(irsb: Irsb, index: int): Result<(set<Tmp>, set<Reg>), BladeError> {
    if index == AT_EXIT then
      if irsb.next.RdTmp? || irsb.next.Const? then Ok((TempOf(irsb.next), {})) else Err(UnsupportedNext)
    else
      var i := if index < 0 then |irsb.stmts| + index else index;
      if !(0 <= i < |irsb.stmts|) then Err(NoSuchStatement)
      else if irsb.stmts[i].Put? then Ok(({}, {irsb.stmts[i].offset}))
      else if irsb.stmts[i].WrTmp? then Ok(({irsb.stmts[i].tmp}, {}))
      else Err(UnsupportedTarget)
  }

  const EMPTY := Traced(SliceGraph({}, {}), {}, [])

  function FromTarget(b: Setting, dst: Addr, irsb: Irsb, prev: Point, temps: set<Tmp>, regs: set<Reg>): Traced {
    var s := BlockSlice(b, irsb, temps, regs, {});
    var t := MarkAll(Trail(EMPTY.graph, prev), dst, s.indices);
    var regs1 := b.Trim(s.live.regs) - b.ignoredRegs;
    var st := EMPTY.(graph := t.graph);
    if regs1 == {} && s.live.cells == {} then st
    else TraceAll(b, st, b.maxLevel - 1, b.EdgesInto(dst), regs1, s.live.cells, t.prev)
  }

  function BackwardSlice(b: Setting, dst: Addr, target: int): Result<Traced, BladeError> {
    if !InGraph(b, dst) then Err(NotInGraph)
    else if dst !in b.irsbs then Ok(EMPTY)
    else
      match Wanted(b.irsbs[dst], target)
      case Err(e) => Err(e)
      case Ok((temps, regs)) =>
        if temps == {} && regs == {} then Ok(EMPTY)
        else Ok(FromTarget(b, dst, b.irsbs[dst], TargetPoint(dst, target), temps, regs))
  }

  // ------------------------------------------------- the object

  class BladeSlicer {
    const b: Setting
    var graph: SliceGraph
    var tracedRuns: set<CfgNode>
    var runCache: map<Addr, Irsb>
    ghost var expanded: seq<CfgNode>

    ghost function View(): Traced
      reads this
    {
      Traced(graph, tracedRuns, expanded)
    }

    /** The cache never disagrees with lifting again. */
    ghost predicate Valid()
      reads this
    {
      forall a :: a in runCache ==> a in b.irsbs && runCache[a] == b.irsbs[a]
    }

    constructor (b: Setting)
      ensures this.b == b && Valid() && View() == EMPTY
    {
      this.b := b;
      graph, tracedRuns, runCache, expanded := SliceGraph({}, {}), {}, map[], [];
    }

    method GetIrsb(a: Addr) returns (r: Option<Irsb>)
      requires Valid()
      modifies this`runCache
      ensures Valid()
      ensures r == if a in b.irsbs then Some(b.irsbs[a]) else None
    {
      if a in runCache {
        r := Some(runCache[a]);
      } else if a in b.irsbs {
        runCache := runCache[a := b.irsbs[a]];
        r := Some(b.irsbs[a]);
      } else {
        r := None;
      }
    }

    /** The in-slice callback; the caller keeps the returned point as `prev`. */
    method InsliceCallback(p: Point, prev: Point) returns (next: Point)
      modifies this`graph
      ensures Trail(graph, next) == Mark(Trail(old(graph), prev), p)
    {
      graph := graph.AddEdge(p, prev);
      next := p;
    }

    method MarkStatements(a: Addr, indices: seq<nat>, prev: Point) returns (last: Point)
      modifies this`graph
      ensures Trail(graph, last) == MarkAll(Trail(old(graph), prev), a, indices)
    {
      last := prev;
      var n := |indices|;
      assert indices[..n] == indices;
      while n > 0
        invariant 0 <= n <= |indices|
        invariant MarkAll(Trail(graph, last), a, indices[..n]) == MarkAll(Trail(old(graph), prev), a, indices)
      {
        n := n - 1;
        assert indices[..n + 1][..n] == indices[..n];
        last := InsliceCallback(Point(a, indices[n]), last);
      }
    }

    method MarkConditionalExits(a: Addr, stmts: seq<Stmt>, prev: Point) returns (last: Point, temps: set<Tmp>)
      modifies this`graph
      ensures Trail(graph, last) == MarkExits(Trail(old(graph), prev), a, stmts, |stmts|)
      ensures temps == ExitTemps(stmts, |stmts|)
    {
      last, temps := prev, {};
      for i := 0 to |stmts|
        invariant Trail(graph, last) == MarkExits(Trail(old(graph), prev), a, stmts, i)
        invariant temps == ExitTemps(stmts, i)
      {
        if stmts[i].Exit? && stmts[i].boring {
          if stmts[i].guard.RdTmp? {
            temps := temps + {stmts[i].guard.tmp};
          }
          last := InsliceCallback(Point(a, i), last);
        }
      }
    }

    /** Slices a block; the targets are never all empty, so the slicer is never refused. */
    method SliceStatements(irsb: Irsb, temps: set<Tmp>, regs: set<Reg>, cells: set<Word>) returns (s: SlicedBlock)
      requires temps != {} || regs != {} || cells != {}
      ensures s.indices == BlockSlice(b, irsb, temps, regs, cells).indices
      ensures s.finalRegs == BlockSlice(b, irsb, temps, regs, cells).live.regs
      ensures s.finalCells == BlockSlice(b, irsb, temps, regs, cells).live.cells
    {
      var r := SliceBlock(b.machine, irsb.stmts, temps, regs, cells, b.imarks);
      s := r.value;
    }

    /** Everything a visit adds for its own block. */
    method VisitBlock(a: Addr, irsb: Irsb, regs: set<Reg>, cells: set<Word>, prev: Point, exit: Option<int>)
      returns (last: Point, s: SlicedBlock)
      requires regs != {} || cells != {}
      modifies this`graph
      ensures s.indices == BlockSlice(b, irsb, ControlTemps(b, irsb, exit), regs, cells).indices
      ensures s.finalRegs == BlockSlice(b, irsb, ControlTemps(b, irsb, exit), regs, cells).live.regs
      ensures s.finalCells == BlockSlice(b, irsb, ControlTemps(b, irsb, exit), regs, cells).live.cells
      ensures Trail(graph, last) == BlockMarked(b, Trail(old(graph), prev), a, irsb, s.indices)
    {
      var temps := {};
      if b.controlDependence && (exit == None || exit == Some(DEFAULT_STATEMENT)) {
        if irsb.next.RdTmp? {
          temps := temps + {irsb.next.tmp};
        }
      }
      last := InsliceCallback(Point(a, DEFAULT_STATEMENT), prev);
      if b.controlDependence {
        var guards;
        last, guards := MarkConditionalExits(a, irsb.stmts, last);
        temps := temps + guards;
      }
      assert temps == ControlTemps(b, irsb, exit);
      s := SliceStatements(irsb, temps, regs, cells);
      if s.indices == [] {
        last := InsliceCallback(Point(a, 0), last);
      } else {
        last := MarkStatements(a, s.indices, last);
      }
    }

    method TrimmedRegs(regs: set<Reg>) returns (r: set<Reg>)
      ensures r == b.Trim(regs)
    {
      r := regs;
      if b.ignoreSp && b.machine.sp in r { r := r - {b.machine.sp}; }
      if b.ignoreBp && b.machine.bp in r { r := r - {b.machine.bp}; }
    }

    method BackwardSliceRecursive(level: int, run: CfgNode, regs: set<Reg>, cells: set<Word>, prev: Point, exit: Option<int>)
      requires Valid() && (regs != {} || cells != {})
      modifies this
      ensures Valid() && View() == Trace(b, old(View()), level, run, regs, cells, prev, exit)
      decreases level, 0
    {
      if level <= 0 { return; }
      var a := b.NodeAddr(run);
      var block := GetIrsb(a);
      if block.None? { return; }
      var last, s := VisitBlock(a, block.value, regs, cells, prev, exit);
      if run in tracedRuns { return; }
      tracedRuns := tracedRuns + {run};
      expanded := expanded + [run];
      var regs1 := TrimmedRegs(s.finalRegs);
      if regs1 != {} || s.finalCells != {} {
        FollowEdges(level - 1, b.EdgesInto(a), regs1, s.finalCells, last);
      }
    }

    method FollowEdges(level: int, edges: seq<InEdge>, regs: set<Reg>, cells: set<Word>, prev: Point)
      requires Valid() && (regs != {} || cells != {})
      modifies this
      ensures Valid() && View() == TraceAll(b, old(View()), level, edges, regs, cells, prev)
      decreases level, 1
    {
      for i := 0 to |edges|
        invariant Valid()
        invariant TraceAll(b, View(), level, edges[i..], regs, cells, prev)
               == TraceAll(b, old(View()), level, edges, regs, cells, prev)
      {
        assert edges[i..][1..] == edges[i + 1..];
        if b.Follows(edges[i]) {
          BackwardSliceRecursive(level, edges[i].pred, regs, cells, prev, edges[i].stmtIdx);
        }
      }
    }
  }

  /** Building a slice from scratch. */
  method BuildSlice(b: Setting, dst: Addr, target: int) returns (r: Result<SliceGraph, BladeError>)
    ensures r.Err? <==> BackwardSlice(b, dst, target).Err?
    ensures r.Err? ==> r.error == BackwardSlice(b, dst, target).error
    ensures r.Ok? ==> r.value == BackwardSlice(b, dst, target).value.graph
  {
    if !InGraph(b, dst) { return Err(NotInGraph); }
    var blade := new BladeSlicer(b);
    var block := blade.GetIrsb(dst);
    if block.None? { return Ok(blade.graph); }
    var irsb := block.value;
    var wanted := Wanted(irsb, target);
    if wanted.Err? { return Err(wanted.error); }
    var (temps, regs) := wanted.value;
    if temps == {} && regs == {} { return Ok(blade.graph); }
    var s := blade.SliceStatements(irsb, temps, regs, {});
    var last := blade.MarkStatements(dst, s.indices, TargetPoint(dst, target));
    var regs1 := blade.TrimmedRegs(s.finalRegs);
    regs1 := regs1 - b.ignoredRegs;
    if regs1 != {} || s.finalCells != {} {
      blade.FollowEdges(b.maxLevel - 1, b.EdgesInto(dst), regs1, s.finalCells, last);
    }
    r := Ok(blade.graph);
  }
}
