/** What holds of every slice that `Blade` builds. */
module BladeTheorems {
  import opened Wrappers
  import opened Vex
  import opened Slicer
  import opened Blade

  // ------------------------------------------------- paths in the slice

  predicate IsTrail(edges: set<(Point, Point)>, ps: seq<Point>) {
    ps != [] && forall i :: 0 <= i < |ps| - 1 ==> (ps[i], ps[i + 1]) in edges
  }

  ghost predicate TrailBetween(edges: set<(Point, Point)>, ps: seq<Point>, p: Point, q: Point) {
    IsTrail(edges, ps) && ps[0] == p && ps[|ps| - 1] == q
  }

  /** Some path of the slice leads from `p` to `q`. */
  ghost predicate Leads(edges: set<(Point, Point)>, p: Point, q: Point) {
    exists ps :: TrailBetween(edges, ps, p, q)
  }

  lemma LeadsHere(edges: set<(Point, Point)>, p: Point)
    ensures Leads(edges, p, p)
  {
    assert TrailBetween(edges, [p], p, p);
  }

  lemma LeadsMore(edges: set<(Point, Point)>, more: set<(Point, Point)>, p: Point, q: Point)
    requires Leads(edges, p, q) && edges <= more
    ensures Leads(more, p, q)
  {
    var ps :| TrailBetween(edges, ps, p, q);
    assert TrailBetween(more, ps, p, q);
  }

  lemma LeadsStep(edges: set<(Point, Point)>, p: Point, q: Point, target: Point)
    requires Leads(edges, q, target) && (p, q) in edges
    ensures Leads(edges, p, target)
  {
    var ps :| TrailBetween(edges, ps, q, target);
    var qs := [p] + ps;
    forall i | 0 <= i < |qs| - 1 ensures (qs[i], qs[i + 1]) in edges {
      if i > 0 { assert (ps[i - 1], ps[i]) in edges; }
    }
    assert TrailBetween(edges, qs, p, target);
  }

  // ------------------------------------------------- distance in the graph

  /** Some edge that may be followed leads from the block at `a` to the block at `c`. */
  ghost predicate Feeds(b: Setting, a: Addr, c: Addr) {
    exists e :: e in b.EdgesInto(c) && b.Follows(e) && b.NodeAddr(e.pred) == a
  }

  /** The block at `a` is at most `k` followed edges before `dst`. */
  ghost predicate Near(b: Setting, dst: Addr, a: Addr, k: nat)
    decreases k
  {
    if k == 0 then a == dst
    else Near(b, dst, a, k - 1) || exists c :: Near(b, dst, c, k - 1) && Feeds(b, a, c)
  }

  lemma {:induction false} NearMore(b: Setting, dst: Addr, a: Addr, j: nat, k: nat)
    requires j <= k && Near(b, dst, a, j)
    ensures Near(b, dst, a, k)
  {
    if j < k { NearMore(b, dst, a, j, k - 1); }
  }

  /** How far from the destination a sliced block may be. */
  function Reach(b: Setting): nat { if b.maxLevel > 1 then b.maxLevel - 1 else 0 }

  // ------------------------------------------------- the invariant

  /** A point that belongs in a slice for `target`. */
  ghost predicate Placed(b: Setting, target: Point, edges: set<(Point, Point)>, p: Point) {
    Leads(edges, p, target) && Near(b, target.addr, p.addr, Reach(b))
  }

  ghost predicate Sound(b: Setting, target: Point, t: Trail) {
    && (forall p :: p in t.graph.nodes ==> Placed(b, target, t.graph.edges, p))
    && Placed(b, target, t.graph.edges, t.prev)
  }

  predicate Extends(g: SliceGraph, h: SliceGraph) { g.nodes <= h.nodes && g.edges <= h.edges }

  lemma MarkSound(b: Setting, target: Point, t: Trail, p: Point)
    requires Sound(b, target, t) && Near(b, target.addr, p.addr, Reach(b))
    ensures Sound(b, target, Mark(t, p)) && Extends(t.graph, Mark(t, p).graph)
  {
    var u := Mark(t, p);
    forall q | q in t.graph.nodes || q == t.prev ensures Placed(b, target, u.graph.edges, q) {
      assert Placed(b, target, t.graph.edges, q);
      LeadsMore(t.graph.edges, u.graph.edges, q, target);
    }
    assert Placed(b, target, u.graph.edges, t.prev);
    LeadsStep(u.graph.edges, p, t.prev, target);
  }

  lemma {:induction false} MarkAllSound(b: Setting, target: Point, t: Trail, a: Addr, indices: seq<nat>)
    requires Sound(b, target, t) && Near(b, target.addr, a, Reach(b))
    ensures Sound(b, target, MarkAll(t, a, indices)) && Extends(t.graph, MarkAll(t, a, indices).graph)
    decreases |indices|
  {
    if indices != [] {
      var n := |indices| - 1;
      MarkSound(b, target, t, Point(a, indices[n]));
      MarkAllSound(b, target, Mark(t, Point(a, indices[n])), a, indices[..n]);
    }
  }

  lemma {:induction false} MarkExitsSound(b: Setting, target: Point, t: Trail, a: Addr, stmts: seq<Stmt>, i: nat)
    requires i <= |stmts| && Sound(b, target, t) && Near(b, target.addr, a, Reach(b))
    ensures Sound(b, target, MarkExits(t, a, stmts, i)) && Extends(t.graph, MarkExits(t, a, stmts, i).graph)
  {
    if i > 0 {
      MarkExitsSound(b, target, t, a, stmts, i - 1);
      if BoringExit(stmts[i - 1]) {
        MarkSound(b, target, MarkExits(t, a, stmts, i - 1), Point(a, i - 1));
      }
    }
  }

  lemma BlockMarkedSound(b: Setting, target: Point, t: Trail, a: Addr, irsb: Irsb, indices: seq<nat>)
    requires Sound(b, target, t) && Near(b, target.addr, a, Reach(b))
    ensures Sound(b, target, BlockMarked(b, t, a, irsb, indices))
    ensures Extends(t.graph, BlockMarked(b, t, a, irsb, indices).graph)
  {
    var d := Mark(t, Point(a, DEFAULT_STATEMENT));
    MarkSound(b, target, t, Point(a, DEFAULT_STATEMENT));
    if b.controlDependence { MarkExitsSound(b, target, d, a, irsb.stmts, |irsb.stmts|); }
    var u := ExitsMarked(b, t, a, irsb);
    if indices == [] {
      MarkSound(b, target, u, Point(a, 0));
    } else {
      MarkAllSound(b, target, u, a, indices);
    }
  }

  /** No block is expanded twice. */
  ghost predicate Once(st: Traced) {
    && (forall i, j :: 0 <= i < j < |st.expanded| ==> st.expanded[i] != st.expanded[j])
    && (forall n :: n in st.runs <==> n in st.expanded)
  }

  ghost predicate Keeps(b: Setting, target: Point, st: Traced, st': Traced, prev: Point) {
    && Sound(b, target, Trail(st'.graph, prev))
    && Extends(st.graph, st'.graph)
    && Once(st')
    && st.expanded <= st'.expanded
  }

  lemma SoundKept(b: Setting, target: Point, t: Trail, u: Trail)
    requires Sound(b, target, t) && Sound(b, target, u) && Extends(t.graph, u.graph)
    ensures Sound(b, target, Trail(u.graph, t.prev))
  {
    LeadsMore(t.graph.edges, u.graph.edges, t.prev, target);
  }

  lemma {:induction false} TraceKeeps(b: Setting, target: Point, st: Traced, level: int, run: CfgNode,
                                      regs: set<Reg>, cells: set<Word>, prev: Point, exit: Option<int>)
    requires Sound(b, target, Trail(st.graph, prev)) && Once(st)
    requires level < b.maxLevel
    requires level > 0 ==> Near(b, target.addr, b.NodeAddr(run), b.maxLevel - level)
    ensures Keeps(b, target, st, Trace(b, st, level, run, regs, cells, prev, exit), prev)
    decreases level, 0
  {
    var a := b.NodeAddr(run);
    if level > 0 && a in b.irsbs {
      var irsb := b.irsbs[a];
      var s := BlockSlice(b, irsb, ControlTemps(b, irsb, exit), regs, cells);
      var t := BlockMarked(b, Trail(st.graph, prev), a, irsb, s.indices);
      NearMore(b, target.addr, a, b.maxLevel - level, Reach(b));
      BlockMarkedSound(b, target, Trail(st.graph, prev), a, irsb, s.indices);
      SoundKept(b, target, Trail(st.graph, prev), t);
      if run !in st.runs {
        var st1 := Traced(t.graph, st.runs + {run}, st.expanded + [run]);
        var regs1 := b.Trim(s.live.regs);
        if !(regs1 == {} && s.live.cells == {}) {
          TraceAllKeeps(b, target, st1, level - 1, a, b.EdgesInto(a), regs1, s.live.cells, t.prev);
          var st2 := TraceAll(b, st1, level - 1, b.EdgesInto(a), regs1, s.live.cells, t.prev);
          SoundKept(b, target, Trail(st.graph, prev), Trail(st2.graph, t.prev));
        }
      }
    }
  }

  lemma {:induction false} TraceAllKeeps(b: Setting, target: Point, st: Traced, level: int, a: Addr, edges: seq<InEdge>,
                                         regs: set<Reg>, cells: set<Word>, prev: Point)
    requires Sound(b, target, Trail(st.graph, prev)) && Once(st)
    requires level < b.maxLevel
    requires level > 0 ==> Near(b, target.addr, a, b.maxLevel - level - 1)
    requires forall e :: e in edges ==> e in b.EdgesInto(a)
    ensures Keeps(b, target, st, TraceAll(b, st, level, edges, regs, cells, prev), prev)
    decreases level, |edges| + 1
  {
    if edges != [] {
      var e := edges[0];
      var st1 := TraceEdge(b, st, level, e, regs, cells, prev);
      if b.Follows(e) {
        assert e in b.EdgesInto(a) && Feeds(b, b.NodeAddr(e.pred), a);
        TraceKeeps(b, target, st, level, e.pred, regs, cells, prev, e.stmtIdx);
      }
      assert Keeps(b, target, st, st1, prev);
      TraceAllKeeps(b, target, st1, level, a, edges[1..], regs, cells, prev);
    }
  }

  /** Every point of a slice has a path inside the slice to the target, its block is at most
      `maxLevel - 1` followed edges before the destination, and no block is expanded twice. */
  lemma BladeSound(b: Setting, dst: Addr, target: int)
    requires BackwardSlice(b, dst, target).Ok?
    ensures var st := BackwardSlice(b, dst, target).value;
            && (forall p :: p in st.graph.nodes ==> Leads(st.graph.edges, p, TargetPoint(dst, target)))
            && (forall p :: p in st.graph.nodes ==> Near(b, dst, p.addr, Reach(b)))
            && Once(st)
  {
    if dst in b.irsbs {
      var w := Wanted(b.irsbs[dst], target).value;
      if !(w.0 == {} && w.1 == {}) {
        FromTargetSound(b, dst, b.irsbs[dst], TargetPoint(dst, target), w.0, w.1);
      }
    }
  }

  lemma FromTargetSound(b: Setting, dst: Addr, irsb: Irsb, prev: Point, temps: set<Tmp>, regs: set<Reg>)
    requires prev.addr == dst
    ensures Sound(b, prev, Trail(FromTarget(b, dst, irsb, prev, temps, regs).graph, prev))
    ensures Once(FromTarget(b, dst, irsb, prev, temps, regs))
  {
    var t0 := Trail(EMPTY.graph, prev);
    LeadsHere(t0.graph.edges, prev);
    assert Near(b, dst, dst, 0);
    NearMore(b, dst, dst, 0, Reach(b));
    var s := BlockSlice(b, irsb, temps, regs, {});
    var t := MarkAll(t0, dst, s.indices);
    MarkAllSound(b, prev, t0, dst, s.indices);
    SoundKept(b, prev, t0, t);
    var regs1 := b.Trim(s.live.regs) - b.ignoredRegs;
    if !(regs1 == {} && s.live.cells == {}) {
      var st := EMPTY.(graph := t.graph);
      NearMore(b, dst, dst, 0, Reach(b));
      TraceAllKeeps(b, prev, st, b.maxLevel - 1, dst, b.EdgesInto(dst), regs1, s.live.cells, t.prev);
      var st1 := TraceAll(b, st, b.maxLevel - 1, b.EdgesInto(dst), regs1, s.live.cells, t.prev);
      SoundKept(b, prev, Trail(t.graph, prev), Trail(st1.graph, t.prev));
    }
  }

  // ------------------------------------------------- what a visit adds

  /** Sliced statements are chained in program order, the last one to `prev`. */
  lemma {:induction false} MarkAllChained(t: Trail, a: Addr, indices: seq<nat>)
    ensures var u := MarkAll(t, a, indices);
            && (forall i :: 0 <= i < |indices| - 1 ==>
                  (Point(a, indices[i]), Point(a, indices[i + 1])) in u.graph.edges)
            && (indices != [] ==> (Point(a, indices[|indices| - 1]), t.prev) in u.graph.edges)
            && u.prev == (if indices == [] then t.prev else Point(a, indices[0]))
            && t.graph.edges <= u.graph.edges
            && (forall p :: p in u.graph.nodes <==>
                  p in t.graph.nodes || (indices != [] && p == t.prev) || (p.addr == a && p.stmt in indices))
    decreases |indices|
  {
    if indices != [] {
      var n := |indices| - 1;
      var t1 := Mark(t, Point(a, indices[n]));
      MarkAllChained(t1, a, indices[..n]);
      var u := MarkAll(t, a, indices);
      assert forall x: int :: x in indices <==> x in indices[..n] || x == indices[n];
      if n > 0 {
        assert (Point(a, indices[n - 1]), Point(a, indices[n])) in u.graph.edges;
      }
      forall i | 0 <= i < n ensures (Point(a, indices[i]), Point(a, indices[i + 1])) in u.graph.edges {
        if i < n - 1 { assert (Point(a, indices[..n][i]), Point(a, indices[..n][i + 1])) in u.graph.edges; }
      }
    }
  }

  lemma {:induction false} MarkExitsPoints(t: Trail, a: Addr, stmts: seq<Stmt>, i: nat, p: Point)
    requires i <= |stmts| && t.prev in t.graph.nodes
    ensures var u := MarkExits(t, a, stmts, i);
            && u.prev in u.graph.nodes
            && (p in u.graph.nodes <==>
                  p in t.graph.nodes || (p.addr == a && 0 <= p.stmt < i && BoringExit(stmts[p.stmt])))
  {
    if i > 0 { MarkExitsPoints(t, a, stmts, i - 1, p); }
  }

  /** The points of one block that a visit puts into the slice. */
  predicate BlockPoint(b: Setting, irsb: Irsb, indices: seq<nat>, i: int) {
    || i == DEFAULT_STATEMENT
    || (b.controlDependence && 0 <= i < |irsb.stmts| && BoringExit(irsb.stmts[i]))
    || i in indices
    || (indices == [] && i == 0)
  }

  /** A visit adds exactly the points of its block, and the point it is linked to. */
  lemma BlockMarkedPoints(b: Setting, t: Trail, a: Addr, irsb: Irsb, indices: seq<nat>, p: Point)
    ensures p in BlockMarked(b, t, a, irsb, indices).graph.nodes
       <==> p in t.graph.nodes || p == t.prev || (p.addr == a && BlockPoint(b, irsb, indices, p.stmt))
  {
    var d := Mark(t, Point(a, DEFAULT_STATEMENT));
    var u := ExitsMarked(b, t, a, irsb);
    if b.controlDependence { MarkExitsPoints(d, a, irsb.stmts, |irsb.stmts|, p); }
    assert u.prev in u.graph.nodes;
    MarkAllChained(u, a, indices);
  }

  /** A block that was expanded before is sliced again for its new targets, but what it now
      depends on is not followed: the visit adds points of that block only. */
  lemma RevisitStaysLocal(b: Setting, st: Traced, level: int, run: CfgNode, regs: set<Reg>, cells: set<Word>,
                          prev: Point, exit: Option<int>, p: Point)
    requires run in st.runs
    ensures var st' := Trace(b, st, level, run, regs, cells, prev, exit);
            && st'.runs == st.runs && st'.expanded == st.expanded
            && (p in st'.graph.nodes ==> p in st.graph.nodes || p == prev || p.addr == b.NodeAddr(run))
  {
    var a := b.NodeAddr(run);
    if level > 0 && a in b.irsbs {
      var irsb := b.irsbs[a];
      var s := BlockSlice(b, irsb, ControlTemps(b, irsb, exit), regs, cells);
      BlockMarkedPoints(b, Trail(st.graph, prev), a, irsb, s.indices, p);
    }
  }
}
