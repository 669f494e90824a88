/** What the visits of a block put into a Blade slice: the first visit marks the block's own points and
    goes on to its predecessors, a later one only marks.  Slicing a block is monotone in what is live. */
module BladeRevisits {
  import opened Wrappers
  import opened Vex
  import opened Slicer
  import opened SliceSoundness
  import opened Blade
  import opened BladeTheorems

  // ------------------------------------------------- what a visit links

  lemma {:induction false} MarkAllDefaults(t: Trail, a: Addr, indices: seq<nat>, q: Addr, x: Point)
    ensures var e := (Point(q, DEFAULT_STATEMENT), x);
            e in MarkAll(t, a, indices).graph.edges <==> e in t.graph.edges
    decreases |indices|
  {
    if indices != [] {
      var n := |indices| - 1;
      MarkAllDefaults(Mark(t, Point(a, indices[n])), a, indices[..n], q, x);
    }
  }

  lemma {:induction false} MarkExitsDefaults(t: Trail, a: Addr, stmts: seq<Stmt>, i: nat, q: Addr, x: Point)
    requires i <= |stmts|
    ensures var e := (Point(q, DEFAULT_STATEMENT), x);
            e in MarkExits(t, a, stmts, i).graph.edges <==> e in t.graph.edges
  {
    if i > 0 { MarkExitsDefaults(t, a, stmts, i - 1, q, x); }
  }

  /** A visit links one default exit, its own, to the point it comes from. */
  lemma BlockMarkedDefaults(b: Setting, t: Trail, a: Addr, irsb: Irsb, indices: seq<nat>, q: Addr, x: Point)
    ensures var e := (Point(q, DEFAULT_STATEMENT), x);
            e in BlockMarked(b, t, a, irsb, indices).graph.edges <==> e in t.graph.edges || (q == a && x == t.prev)
  {
    var d := Mark(t, Point(a, DEFAULT_STATEMENT));
    MarkExitsDefaults(d, a, irsb.stmts, |irsb.stmts|, q, x);
    MarkAllDefaults(ExitsMarked(b, t, a, irsb), a, indices, q, x);
  }

  /** An edge into the block at `a` that is followed to a block that lifts. */
  predicate Followed(b: Setting, a: Addr, e: InEdge) {
    e in b.EdgesInto(a) && b.Follows(e) && b.NodeAddr(e.pred) in b.irsbs
  }

  /** Every followed predecessor of the block at `a` is linked to the point where a visit of it ended. */
  ghost predicate Linked(b: Setting, g: SliceGraph, a: Addr, last: Point) {
    forall e :: Followed(b, a, e) ==> (Point(b.NodeAddr(e.pred), DEFAULT_STATEMENT), last) in g.edges
  }

  /** Where a visit of a block ends, and what it would ask the predecessors for. */
  function VisitEnd(b: Setting, g: SliceGraph, run: CfgNode, regs: set<Reg>, cells: set<Word>, prev: Point, exit: Option<int>): Trail
    requires b.NodeAddr(run) in b.irsbs
  {
    var a := b.NodeAddr(run);
    BlockMarked(b, Trail(g, prev), a, b.irsbs[a], VisitSlice(b, run, regs, cells, exit).indices)
  }

  function VisitSlice(b: Setting, run: CfgNode, regs: set<Reg>, cells: set<Word>, exit: Option<int>): Slice
    requires b.NodeAddr(run) in b.irsbs
  {
    var irsb := b.irsbs[b.NodeAddr(run)];
    BlockSlice(b, irsb, ControlTemps(b, irsb, exit), regs, cells)
  }

  /** The predecessors matter: there is budget for them and something to ask them for. */
  predicate Matters(b: Setting, level: int, s: Slice) {
    level > 1 && !(b.Trim(s.live.regs) == {} && s.live.cells == {})
  }

  lemma {:induction false} TraceExtends(b: Setting, st: Traced, level: int, run: CfgNode, regs: set<Reg>, cells: set<Word>,
                                        prev: Point, exit: Option<int>)
    ensures Extends(st.graph, Trace(b, st, level, run, regs, cells, prev, exit).graph)
    decreases level, 0
  {
    var a := b.NodeAddr(run);
    if level > 0 && a in b.irsbs {
      var s := VisitSlice(b, run, regs, cells, exit);
      var t := VisitEnd(b, st.graph, run, regs, cells, prev, exit);
      BlockMarkedExtends(b, Trail(st.graph, prev), a, b.irsbs[a], s.indices);
      if run !in st.runs && !(b.Trim(s.live.regs) == {} && s.live.cells == {}) {
        TraceAllExtends(b, Traced(t.graph, st.runs + {run}, st.expanded + [run]), level - 1, b.EdgesInto(a),
                        b.Trim(s.live.regs), s.live.cells, t.prev);
      }
    }
  }

  lemma {:induction false} TraceAllExtends(b: Setting, st: Traced, level: int, edges: seq<InEdge>, regs: set<Reg>,
                                           cells: set<Word>, prev: Point)
    ensures Extends(st.graph, TraceAll(b, st, level, edges, regs, cells, prev).graph)
    decreases level, |edges| + 1
  {
    if edges != [] {
      var e := edges[0];
      if b.Follows(e) { TraceExtends(b, st, level, e.pred, regs, cells, prev, e.stmtIdx); }
      TraceAllExtends(b, TraceEdge(b, st, level, e, regs, cells, prev), level, edges[1..], regs, cells, prev);
    }
  }

  lemma {:induction false} MarkAllExtends(t: Trail, a: Addr, indices: seq<nat>)
    ensures Extends(t.graph, MarkAll(t, a, indices).graph)
    decreases |indices|
  {
    if indices != [] {
      var n := |indices| - 1;
      MarkAllExtends(Mark(t, Point(a, indices[n])), a, indices[..n]);
    }
  }

  lemma {:induction false} MarkExitsExtends(t: Trail, a: Addr, stmts: seq<Stmt>, i: nat)
    requires i <= |stmts|
    ensures Extends(t.graph, MarkExits(t, a, stmts, i).graph)
  {
    if i > 0 { MarkExitsExtends(t, a, stmts, i - 1); }
  }

  lemma BlockMarkedExtends(b: Setting, t: Trail, a: Addr, irsb: Irsb, indices: seq<nat>)
    ensures Extends(t.graph, BlockMarked(b, t, a, irsb, indices).graph)
  {
    MarkExitsExtends(Mark(t, Point(a, DEFAULT_STATEMENT)), a, irsb.stmts, |irsb.stmts|);
    MarkAllExtends(ExitsMarked(b, t, a, irsb), a, indices);
  }

  lemma TraceLinks(b: Setting, st: Traced, level: int, run: CfgNode, regs: set<Reg>, cells: set<Word>, prev: Point, exit: Option<int>)
    requires level > 0 && b.NodeAddr(run) in b.irsbs
    ensures (Point(b.NodeAddr(run), DEFAULT_STATEMENT), prev) in Trace(b, st, level, run, regs, cells, prev, exit).graph.edges
  {
    var a := b.NodeAddr(run);
    var s := VisitSlice(b, run, regs, cells, exit);
    var t := VisitEnd(b, st.graph, run, regs, cells, prev, exit);
    BlockMarkedDefaults(b, Trail(st.graph, prev), a, b.irsbs[a], s.indices, a, prev);
    if run !in st.runs && !(b.Trim(s.live.regs) == {} && s.live.cells == {}) {
      TraceAllExtends(b, Traced(t.graph, st.runs + {run}, st.expanded + [run]), level - 1, b.EdgesInto(a),
                      b.Trim(s.live.regs), s.live.cells, t.prev);
    }
  }

  lemma {:induction false} TraceAllLinks(b: Setting, st: Traced, level: int, edges: seq<InEdge>, regs: set<Reg>,
                                         cells: set<Word>, prev: Point, e: InEdge)
    requires level > 0 && e in edges && b.Follows(e) && b.NodeAddr(e.pred) in b.irsbs
    ensures (Point(b.NodeAddr(e.pred), DEFAULT_STATEMENT), prev) in TraceAll(b, st, level, edges, regs, cells, prev).graph.edges
    decreases |edges|
  {
    var st1 := TraceEdge(b, st, level, edges[0], regs, cells, prev);
    if edges[0] == e {
      TraceLinks(b, st, level, e.pred, regs, cells, prev, e.stmtIdx);
      TraceAllExtends(b, st1, level, edges[1..], regs, cells, prev);
    } else {
      TraceAllLinks(b, st1, level, edges[1..], regs, cells, prev, e);
    }
  }

  /** The first visit of a block links all its followed predecessors, when they matter. */
  lemma FirstVisitLinks(b: Setting, st: Traced, level: int, run: CfgNode, regs: set<Reg>, cells: set<Word>, prev: Point, exit: Option<int>)
    requires b.NodeAddr(run) in b.irsbs && run !in st.runs && Matters(b, level, VisitSlice(b, run, regs, cells, exit))
    ensures Linked(b, Trace(b, st, level, run, regs, cells, prev, exit).graph, b.NodeAddr(run),
                   VisitEnd(b, st.graph, run, regs, cells, prev, exit).prev)
  {
    var a := b.NodeAddr(run);
    var s := VisitSlice(b, run, regs, cells, exit);
    var t := VisitEnd(b, st.graph, run, regs, cells, prev, exit);
    forall e | Followed(b, a, e)
      ensures (Point(b.NodeAddr(e.pred), DEFAULT_STATEMENT), t.prev) in Trace(b, st, level, run, regs, cells, prev, exit).graph.edges
    {
      TraceAllLinks(b, Traced(t.graph, st.runs + {run}, st.expanded + [run]), level - 1, b.EdgesInto(a),
                    b.Trim(s.live.regs), s.live.cells, t.prev, e);
    }
  }

  // ------------------------------------------------- what a visit asks its predecessors for

  /** What the first visit of a block does once its own points are marked. */
  function Onward(b: Setting, st: Traced, level: int, a: Addr, s: Slice, last: Point): Traced {
    if b.Trim(s.live.regs) == {} && s.live.cells == {} then st
    else TraceAll(b, st, level - 1, b.EdgesInto(a), b.Trim(s.live.regs), s.live.cells, last)
  }

  /** A point of the predecessor at the other end of `e` that is needed for these registers and cells. */
  predicate AskedAlong(b: Setting, e: InEdge, regs: set<Reg>, cells: set<Word>, p: Point)
    requires b.NodeAddr(e.pred) in b.irsbs
  {
    p.addr == b.NodeAddr(e.pred) && BlockPoint(b, b.irsbs[p.addr], VisitSlice(b, e.pred, regs, cells, e.stmtIdx).indices, p.stmt)
  }

  /** A point that the block at `a` needs for these registers and cells in one of the predecessors that
      are followed. */
  ghost predicate Asked(b: Setting, a: Addr, regs: set<Reg>, cells: set<Word>, p: Point) {
    exists e :: Followed(b, a, e) && AskedAlong(b, e, regs, cells, p)
  }

  /** Every followed predecessor has been expanded. */
  ghost predicate AllTraced(b: Setting, runs: set<CfgNode>, a: Addr) {
    forall e :: Followed(b, a, e) ==> e.pred in runs
  }

  lemma TraceMarks(b: Setting, st: Traced, level: int, e: InEdge, regs: set<Reg>, cells: set<Word>, prev: Point, p: Point)
    requires level > 0 && b.NodeAddr(e.pred) in b.irsbs && AskedAlong(b, e, regs, cells, p)
    ensures p in Trace(b, st, level, e.pred, regs, cells, prev, e.stmtIdx).graph.nodes
  {
    var a := b.NodeAddr(e.pred);
    var s := VisitSlice(b, e.pred, regs, cells, e.stmtIdx);
    var t := VisitEnd(b, st.graph, e.pred, regs, cells, prev, e.stmtIdx);
    BlockMarkedPoints(b, Trail(st.graph, prev), a, b.irsbs[a], s.indices, p);
    if e.pred !in st.runs && !(b.Trim(s.live.regs) == {} && s.live.cells == {}) {
      TraceAllExtends(b, Traced(t.graph, st.runs + {e.pred}, st.expanded + [e.pred]), level - 1, b.EdgesInto(a),
                      b.Trim(s.live.regs), s.live.cells, t.prev);
    }
  }

  /** Whatever is asked along an edge that is looked at is in the slice afterwards. */
  lemma {:induction false} TraceAllMarks(b: Setting, st: Traced, level: int, edges: seq<InEdge>, regs: set<Reg>,
                                         cells: set<Word>, prev: Point, e: InEdge, p: Point)
    requires level > 0 && e in edges && b.Follows(e) && b.NodeAddr(e.pred) in b.irsbs && AskedAlong(b, e, regs, cells, p)
    ensures p in TraceAll(b, st, level, edges, regs, cells, prev).graph.nodes
    decreases |edges|
  {
    var st1 := TraceEdge(b, st, level, edges[0], regs, cells, prev);
    if edges[0] == e {
      TraceMarks(b, st, level, e, regs, cells, prev, p);
      TraceAllExtends(b, st1, level, edges[1..], regs, cells, prev);
    } else {
      TraceAllMarks(b, st1, level, edges[1..], regs, cells, prev, e, p);
    }
  }

  lemma OnwardMarks(b: Setting, st: Traced, level: int, a: Addr, s: Slice, last: Point, p: Point)
    requires Matters(b, level, s) && Asked(b, a, b.Trim(s.live.regs), s.live.cells, p)
    ensures p in Onward(b, st, level, a, s, last).graph.nodes
  {
    var regs := b.Trim(s.live.regs);
    var e :| Followed(b, a, e) && AskedAlong(b, e, regs, s.live.cells, p);
    TraceAllMarks(b, st, level - 1, b.EdgesInto(a), regs, s.live.cells, last, e, p);
  }

  // ------------------------------------------------- first visits

  lemma {:induction false} TraceRuns(b: Setting, st: Traced, level: int, run: CfgNode, regs: set<Reg>, cells: set<Word>,
                                     prev: Point, exit: Option<int>)
    ensures var st1 := Trace(b, st, level, run, regs, cells, prev, exit);
            st.runs <= st1.runs && (level > 0 && b.NodeAddr(run) in b.irsbs ==> run in st1.runs)
    decreases level, 0
  {
    var a := b.NodeAddr(run);
    if level > 0 && a in b.irsbs && run !in st.runs {
      var s := VisitSlice(b, run, regs, cells, exit);
      var t := VisitEnd(b, st.graph, run, regs, cells, prev, exit);
      if !(b.Trim(s.live.regs) == {} && s.live.cells == {}) {
        TraceAllRuns(b, Traced(t.graph, st.runs + {run}, st.expanded + [run]), level - 1, b.EdgesInto(a),
                     b.Trim(s.live.regs), s.live.cells, t.prev);
      }
    }
  }

  lemma {:induction false} TraceAllRuns(b: Setting, st: Traced, level: int, edges: seq<InEdge>, regs: set<Reg>,
                                        cells: set<Word>, prev: Point)
    ensures var st1 := TraceAll(b, st, level, edges, regs, cells, prev);
            && st.runs <= st1.runs
            && (level > 0 ==> forall e :: e in edges && b.Follows(e) && b.NodeAddr(e.pred) in b.irsbs ==> e.pred in st1.runs)
    decreases level, |edges| + 1
  {
    if edges != [] {
      var e := edges[0];
      if b.Follows(e) { TraceRuns(b, st, level, e.pred, regs, cells, prev, e.stmtIdx); }
      TraceAllRuns(b, TraceEdge(b, st, level, e, regs, cells, prev), level, edges[1..], regs, cells, prev);
      assert forall x :: x in edges <==> x == e || x in edges[1..];
    }
  }

  /** The first visit of a block marks its own points and goes on to its predecessors. */
  lemma FirstVisit(b: Setting, st: Traced, level: int, run: CfgNode, regs: set<Reg>, cells: set<Word>, prev: Point, exit: Option<int>)
    requires level > 0 && b.NodeAddr(run) in b.irsbs && run !in st.runs
    ensures var t := VisitEnd(b, st.graph, run, regs, cells, prev, exit);
            Trace(b, st, level, run, regs, cells, prev, exit)
            == Onward(b, Traced(t.graph, st.runs + {run}, st.expanded + [run]), level, b.NodeAddr(run),
                      VisitSlice(b, run, regs, cells, exit), t.prev)
  {
  }

  /** After the first visit of a block, when its predecessors matter, all it asks them for is in the
      slice, and they are all expanded. */
  lemma FirstVisitMarks(b: Setting, st: Traced, level: int, run: CfgNode, regs: set<Reg>, cells: set<Word>, prev: Point, exit: Option<int>)
    requires b.NodeAddr(run) in b.irsbs && run !in st.runs && Matters(b, level, VisitSlice(b, run, regs, cells, exit))
    ensures var a, s, st1 := b.NodeAddr(run), VisitSlice(b, run, regs, cells, exit), Trace(b, st, level, run, regs, cells, prev, exit);
            && AllTraced(b, st1.runs, a)
            && forall p :: Asked(b, a, b.Trim(s.live.regs), s.live.cells, p) ==> p in st1.graph.nodes
  {
    var a := b.NodeAddr(run);
    var s := VisitSlice(b, run, regs, cells, exit);
    var t := VisitEnd(b, st.graph, run, regs, cells, prev, exit);
    var begun := Traced(t.graph, st.runs + {run}, st.expanded + [run]);
    FirstVisit(b, st, level, run, regs, cells, prev, exit);
    TraceAllRuns(b, begun, level - 1, b.EdgesInto(a), b.Trim(s.live.regs), s.live.cells, t.prev);
    forall p | Asked(b, a, b.Trim(s.live.regs), s.live.cells, p) ensures p in Onward(b, begun, level, a, s, t.prev).graph.nodes {
      OnwardMarks(b, begun, level, a, s, t.prev, p);
    }
  }

  // ------------------------------------------------- later visits

  /** A point that is in the slice before a visit, or that the visit puts there for its own block. */
  predicate Present(b: Setting, g: SliceGraph, run: CfgNode, s: Slice, prev: Point, p: Point)
    requires b.NodeAddr(run) in b.irsbs
  {
    p in g.nodes || p == prev || (p.addr == b.NodeAddr(run) && BlockPoint(b, b.irsbs[p.addr], s.indices, p.stmt))
  }

  lemma RevisitNodes(b: Setting, st: Traced, level: int, run: CfgNode, regs: set<Reg>, cells: set<Word>, prev: Point, exit: Option<int>)
    requires b.NodeAddr(run) in b.irsbs && run in st.runs && level > 0
    ensures var s, t := VisitSlice(b, run, regs, cells, exit), VisitEnd(b, st.graph, run, regs, cells, prev, exit);
            && Trace(b, st, level, run, regs, cells, prev, exit) == st.(graph := t.graph)
            && t.prev in t.graph.nodes
            && forall p :: p in t.graph.nodes <==> Present(b, st.graph, run, s, prev, p)
  {
    var a, s := b.NodeAddr(run), VisitSlice(b, run, regs, cells, exit);
    var t := VisitEnd(b, st.graph, run, regs, cells, prev, exit);
    forall p ensures p in t.graph.nodes <==> Present(b, st.graph, run, s, prev, p) {
      BlockMarkedPoints(b, Trail(st.graph, prev), a, b.irsbs[a], s.indices, p);
    }
    MarkAllChained(ExitsMarked(b, Trail(st.graph, prev), a, b.irsbs[a]), a, s.indices);
    if s.indices != [] { assert s.indices[0] in s.indices; }
  }

  // ------------------------------------------------- slicing for less

  lemma {:induction false} BackTmpsMonotone(es: seq<Expr>, big: Live, small: Live)
    requires Covers(big, small)
    ensures Covers(BackTmps(es, big), BackTmps(es, small))
  {
    if es != [] { BackTmpsMonotone(es[1..], BackTmp(es[0], big), BackTmp(es[0], small)); }
  }

  lemma {:induction false} BackExprMonotone(m: Machine, aliases: Aliases, e: Expr, big: Live, small: Live)
    requires Covers(big, small)
    ensures Covers(BackExpr(m, aliases, e, big), BackExpr(m, aliases, e, small))
  {
    match e
    case CCall(_, args) => BackTmpsMonotone(args, big, small);
    case ITE(c, x, y) =>
      var big1, small1 := BackExpr(m, aliases, c, big), BackExpr(m, aliases, c, small);
      BackExprMonotone(m, aliases, c, big, small);
      BackExprMonotone(m, aliases, x, big1, small1);
      BackExprMonotone(m, aliases, y, BackExpr(m, aliases, x, big1), BackExpr(m, aliases, x, small1));
    case _ =>
  }

  /** Two expressions in turn, the second after the first. */
  lemma BackTwoMonotone(m: Machine, aliases: Aliases, e: Expr, f: Expr, big: Live, small: Live)
    requires Covers(big, small)
    ensures Covers(BackExpr(m, aliases, f, BackExpr(m, aliases, e, big)), BackExpr(m, aliases, f, BackExpr(m, aliases, e, small)))
    ensures Covers(BackExpr(m, aliases, f, BackExpr(m, aliases, e, big)), small)
  {
    BackExprMonotone(m, aliases, e, big, small);
    BackExprMonotone(m, aliases, f, BackExpr(m, aliases, e, big), BackExpr(m, aliases, e, small));
    BackExprGrows(m, aliases, e, big);
    BackExprGrows(m, aliases, f, BackExpr(m, aliases, e, big));
  }

  lemma BackOneMonotone(m: Machine, aliases: Aliases, e: Expr, big: Live, small: Live)
    requires Covers(big, small)
    ensures Covers(BackExpr(m, aliases, e, big), BackExpr(m, aliases, e, small)) && Covers(BackExpr(m, aliases, e, big), small)
  {
    BackExprMonotone(m, aliases, e, big, small);
    BackExprGrows(m, aliases, e, big);
  }

  lemma BackStmtMonotone(m: Machine, aliases: Aliases, imarks: bool, stmt: Stmt, big: Live, small: Live)
    requires Covers(big, small)
    ensures var v, w := BackStmt(m, aliases, imarks, stmt, big), BackStmt(m, aliases, imarks, stmt, small);
            (w.inSlice ==> v.inSlice) && Covers(v.live, w.live)
  {
    match stmt
    case WrTmp(t, e) =>
      BackOneMonotone(m, aliases, e, big.(temps := big.temps - {t}), small.(temps := small.temps - {t}));
    case Put(offset, _, e) =>
      var r := m.Base(offset);
      BackOneMonotone(m, aliases, e, big.(regs := big.regs - {r}), small.(regs := small.regs - {r}));
    case Store(a, e) =>
      if a.RdTmp? && a.tmp in aliases {
        var cell := {aliases[a.tmp]};
        BackTwoMonotone(m, aliases, a, e, big.(cells := big.cells - cell), small.(cells := small.cells - cell));
      }
    case LoadG(t, a, alt, g) =>
      var big1, small1 := big.(temps := big.temps - {t}), small.(temps := small.temps - {t});
      BackTwoMonotone(m, aliases, g, a, big1, small1);
      BackOneMonotone(m, aliases, alt, BackExpr(m, aliases, a, BackExpr(m, aliases, g, big1)),
                      BackExpr(m, aliases, a, BackExpr(m, aliases, g, small1)));
      BackExprGrows(m, aliases, alt, BackExpr(m, aliases, a, BackExpr(m, aliases, g, big1)));
    case _ =>
  }

  /** A block sliced for less gives a part of the slice and needs less. */
  lemma {:induction false} SliceMonotone(m: Machine, aliases: Aliases, imarks: bool, stmts: seq<Stmt>, big: Live, small: Live)
    requires Covers(big, small)
    ensures var s, t := SliceFrom(m, aliases, imarks, stmts, big), SliceFrom(m, aliases, imarks, stmts, small);
            (forall i :: i in t.indices ==> i in s.indices) && Covers(s.live, t.live)
  {
    if stmts != [] {
      var n := |stmts| - 1;
      var v, w := BackStmt(m, aliases, imarks, stmts[n], big), BackStmt(m, aliases, imarks, stmts[n], small);
      BackStmtMonotone(m, aliases, imarks, stmts[n], big, small);
      SliceMonotone(m, aliases, imarks, stmts[..n], v.live, w.live);
    }
  }
}
