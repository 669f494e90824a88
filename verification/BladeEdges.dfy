/** The slice over the control flow graph in terms of what the slicer is given: which edges of the graph it
    follows, what a visit slices a block for, and how it links the points. */
module BladeEdges {
  import opened Wrappers
  import opened Vex
  import opened Slicer
  import opened SliceExact
  import opened Blade
  import opened BladeTheorems
  import opened BladeRevisits
  import BladeFree

  // ------------------------------------------------- edges of the graph

  /** One of the first `maxPredecessors` edges into the node at the address. */
  predicate Listed(b: Setting, a: Addr, e: InEdge) {
    && a in b.anyNode && b.anyNode[a] in b.inEdges
    && exists k :: 0 <= k < |b.inEdges[b.anyNode[a]]| && k < b.maxPredecessors && b.inEdges[b.anyNode[a]][k] == e
  }

  /** The edge comes from the block at this address. */
  predicate StartsAt(b: Setting, e: InEdge, a: Addr) { if e.pred in b.addrOf then a == b.addrOf[e.pred] else a == 0 }

  /** An edge that may be taken backward: no call or return if those are to be stopped at, and not from a
      hooked address. */
  predicate Open(b: Setting, a: Addr, e: InEdge) {
    && Listed(b, a, e)
    && (b.stopAtCalls ==> e.jumpkind != Some(CallKind) && e.jumpkind != Some(RetKind))
    && forall q :: q in b.hooked ==> !StartsAt(b, e, q)
  }

  /** Exactly the open edges are followed. */
  lemma FollowedIffOpen(b: Setting, a: Addr, e: InEdge)
    ensures e in b.EdgesInto(a) && b.Follows(e) <==> Open(b, a, e)
    ensures StartsAt(b, e, b.NodeAddr(e.pred))
  {
    if a in b.anyNode && b.anyNode[a] in b.inEdges {
      var es, n := b.inEdges[b.anyNode[a]], b.maxPredecessors;
      if Listed(b, a, e) {
        var k :| 0 <= k < |es| && k < n && es[k] == e;
        assert b.EdgesInto(a)[k] == e;
      }
      if e in b.EdgesInto(a) {
        var k :| 0 <= k < |b.EdgesInto(a)| && b.EdgesInto(a)[k] == e;
        assert es[k] == e;
      }
    }
  }

  /** Open edges lead from the destination back to the address. */
  ghost predicate Chain(b: Setting, dst: Addr, a: Addr, es: seq<InEdge>)
    decreases |es|
  {
    if es == [] then a == dst
    else
      var n := |es| - 1;
      exists c :: Chain(b, dst, c, es[..n]) && Open(b, c, es[n]) && StartsAt(b, es[n], a)
  }

  lemma {:induction false} NearChain(b: Setting, dst: Addr, a: Addr, k: nat) returns (es: seq<InEdge>)
    requires Near(b, dst, a, k)
    ensures |es| <= k && Chain(b, dst, a, es)
    decreases k
  {
    if k == 0 {
      es := [];
    } else if Near(b, dst, a, k - 1) {
      es := NearChain(b, dst, a, k - 1);
    } else {
      var c :| Near(b, dst, c, k - 1) && Feeds(b, a, c);
      var e :| e in b.EdgesInto(c) && b.Follows(e) && b.NodeAddr(e.pred) == a;
      var front := NearChain(b, dst, c, k - 1);
      FollowedIffOpen(b, c, e);
      es := front + [e];
      assert es[..|front|] == front;
    }
  }

  /** Every point of a slice leads to the target, the default exit for index -1, and from its block a chain
      of fewer than `maxLevel` open edges leads to the destination. */
  lemma PointsChained(b: Setting, dst: Addr, target: int, p: Point) returns (es: seq<InEdge>)
    requires BackwardSlice(b, dst, target).Ok? && p in BackwardSlice(b, dst, target).value.graph.nodes
    ensures Leads(BackwardSlice(b, dst, target).value.graph.edges, p, Point(dst, if target == -1 then -2 else target))
    ensures Chain(b, dst, p.addr, es) && (es == [] || |es| < b.maxLevel)
  {
    BladeSound(b, dst, target);
    es := NearChain(b, dst, p.addr, Reach(b));
  }

  /** Conversely a first visit that matters takes every open edge from a block that lifts. */
  lemma OpenEdgesLinked(b: Setting, st: Traced, level: int, run: CfgNode, regs: set<Reg>, cells: set<Word>, prev: Point, exit: Option<int>,
                        e: InEdge, q: Addr)
    requires b.NodeAddr(run) in b.irsbs && run !in st.runs && Matters(b, level, VisitSlice(b, run, regs, cells, exit))
    requires Open(b, b.NodeAddr(run), e) && StartsAt(b, e, q) && q in b.irsbs
    ensures (Point(q, DEFAULT_STATEMENT), VisitEnd(b, st.graph, run, regs, cells, prev, exit).prev)
            in Trace(b, st, level, run, regs, cells, prev, exit).graph.edges
  {
    FollowedIffOpen(b, b.NodeAddr(run), e);
    FirstVisitLinks(b, st, level, run, regs, cells, prev, exit);
    assert Followed(b, b.NodeAddr(run), e);
  }

  /** So does the destination, when it asks for anything. */
  lemma TargetEdgesLinked(b: Setting, dst: Addr, target: int, e: InEdge, q: Addr)
    requires BladeFree.Sliced(b, dst, target) && BladeFree.HandsOn(BladeFree.Origin(b, dst, target)) && b.maxLevel > 1
    requires Open(b, dst, e) && StartsAt(b, e, q) && q in b.irsbs
    ensures BackwardSlice(b, dst, target).Ok?
    ensures (Point(q, DEFAULT_STATEMENT), BladeFree.Origin(b, dst, target).trail.prev)
            in BackwardSlice(b, dst, target).value.graph.edges
  {
    var o := BladeFree.Origin(b, dst, target);
    FollowedIffOpen(b, dst, e);
    BladeFree.SliceIs(b, dst, target);
    TraceAllLinks(b, BladeFree.Begun(o), b.maxLevel - 1, b.EdgesInto(dst), o.regs, o.cells, o.trail.prev, e);
  }

  // ------------------------------------------------- what a visit slices its block for

  /** What a visit asks of a block: the temporaries of its ordinary exits, and of its default exit if it is
      left through that, when control dependence counts; the registers and the cells. */
  predicate VisitAsks(b: Setting, irsb: Irsb, exit: Option<int>, regs: set<Reg>, cells: set<Word>, x: Place) {
    match x
    case Temp(t) =>
      b.controlDependence &&
      (|| ((exit == None || exit == Some(-2)) && irsb.next == RdTmp(t))
       || exists i :: 0 <= i < |irsb.stmts| && irsb.stmts[i].Exit? && irsb.stmts[i].boring && irsb.stmts[i].guard == RdTmp(t))
    case Register(r) => exists q :: q in regs && b.machine.Base(q) == r
    case Cell(a) => a in cells
  }

  lemma {:induction false} ExitTempsIff(stmts: seq<Stmt>, n: nat, t: Tmp)
    requires n <= |stmts|
    ensures t in ExitTemps(stmts, n) <==>
              exists i :: 0 <= i < n && stmts[i].Exit? && stmts[i].boring && stmts[i].guard == RdTmp(t)
  {
    if n > 0 { ExitTempsIff(stmts, n - 1, t); }
  }

  /** A visit slices its block for exactly that: a statement is in the slice if and only if it writes
      something that is asked for or used by a sliced statement. */
  lemma VisitSliceExact(b: Setting, irsb: Irsb, exit: Option<int>, regs: set<Reg>, cells: set<Word>)
    ensures var m, temps := b.machine, ControlTemps(b, irsb, exit);
            var asked := Targets(m, temps, regs, cells);
            && (forall x :: LiveAt(asked, x) <==> VisitAsks(b, irsb, exit, regs, cells, x))
            && Exact(m, AliasBlock(m, irsb.stmts), b.imarks, irsb.stmts, asked, BlockSlice(b, irsb, temps, regs, cells))
  {
    var m, temps := b.machine, ControlTemps(b, irsb, exit);
    BlockSliceExact(m, b.imarks, irsb.stmts, temps, regs, cells);
    forall x ensures LiveAt(Targets(m, temps, regs, cells), x) <==> VisitAsks(b, irsb, exit, regs, cells, x) {
      if x.Temp? { ExitTempsIff(irsb.stmts, |irsb.stmts|, x.tmp); }
    }
  }

  /** The option keeps the register from being asked of predecessors. */
  predicate Dropped(b: Setting, r: Reg) { (b.ignoreSp && r == b.machine.sp) || (b.ignoreBp && r == b.machine.bp) }

  /** What a visit asks the predecessors for: the values that registers, but those dropped, and cells have
      before the block and that are needed. */
  lemma VisitHandsOn(b: Setting, irsb: Irsb, exit: Option<int>, regs: set<Reg>, cells: set<Word>)
    ensures var m, temps := b.machine, ControlTemps(b, irsb, exit);
            var asked, s := Targets(m, temps, regs, cells), BlockSlice(b, irsb, temps, regs, cells);
            && (forall r :: r in b.Trim(s.live.regs) <==>
                  !Dropped(b, r) && Needed(m, AliasBlock(m, irsb.stmts), irsb.stmts, asked, s.indices, 0, Register(r)))
            && (forall a :: a in s.live.cells <==> Needed(m, AliasBlock(m, irsb.stmts), irsb.stmts, asked, s.indices, 0, Cell(a)))
  {
    var m, temps := b.machine, ControlTemps(b, irsb, exit);
    var s := BlockSlice(b, irsb, temps, regs, cells);
    BlockSliceExact(m, b.imarks, irsb.stmts, temps, regs, cells);
    assert forall r :: r in s.live.regs <==> LiveAt(s.live, Register(r));
    assert forall a :: a in s.live.cells <==> LiveAt(s.live, Cell(a));
  }

  // ------------------------------------------------- the target

  /** The statement that an index means, negative ones counted from the end. */
  function StatementAt(irsb: Irsb, target: int): int { if target < 0 then |irsb.stmts| + target else target }

  /** The place that the target writes: what its statement writes, or the temporary that the block jumps
      to. */
  predicate TargetPlace(m: Machine, irsb: Irsb, target: int, x: Place) {
    if target == -1 then irsb.next.RdTmp? && x == Temp(irsb.next.tmp)
    else
      var i := StatementAt(irsb, target);
      0 <= i < |irsb.stmts| &&
      match irsb.stmts[i]
      case WrTmp(t, _) => x == Temp(t)
      case Put(offset, _, _) => x == Register(m.Base(offset))
      case _ => false
  }

  /** The target block is sliced for that place alone; the registers asked of predecessors are those
      needed, without the ones dropped or ignored. */
  lemma TargetSliceExact(b: Setting, dst: Addr, target: int)
    requires BladeFree.Sliced(b, dst, target)
    ensures var m, irsb, o := b.machine, b.irsbs[dst], BladeFree.Origin(b, dst, target);
            var w := Blade.Wanted(irsb, target).value;
            var asked, s := Targets(m, w.0, w.1, {}), BlockSlice(b, irsb, w.0, w.1, {});
            && (forall x :: LiveAt(asked, x) <==> TargetPlace(m, irsb, target, x))
            && Exact(m, AliasBlock(m, irsb.stmts), b.imarks, irsb.stmts, asked, s)
            && (forall r :: r in o.regs <==>
                  && !Dropped(b, r) && r !in b.ignoredRegs
                  && Needed(m, AliasBlock(m, irsb.stmts), irsb.stmts, asked, s.indices, 0, Register(r)))
            && (forall a :: a in o.cells <==> Needed(m, AliasBlock(m, irsb.stmts), irsb.stmts, asked, s.indices, 0, Cell(a)))
  {
    var m, irsb := b.machine, b.irsbs[dst];
    var w := Blade.Wanted(irsb, target).value;
    var s := BlockSlice(b, irsb, w.0, w.1, {});
    BlockSliceExact(m, b.imarks, irsb.stmts, w.0, w.1, {});
    TargetAsked(m, irsb, target);
    assert forall r :: r in s.live.regs <==> LiveAt(s.live, Register(r));
    assert forall a :: a in s.live.cells <==> LiveAt(s.live, Cell(a));
  }

  lemma TargetAsked(m: Machine, irsb: Irsb, target: int)
    requires Blade.Wanted(irsb, target).Ok?
    ensures var w := Blade.Wanted(irsb, target).value;
            forall x :: LiveAt(Targets(m, w.0, w.1, {}), x) <==> TargetPlace(m, irsb, target, x)
  {
    var w := Blade.Wanted(irsb, target).value;
    forall x ensures LiveAt(Targets(m, w.0, w.1, {}), x) <==> TargetPlace(m, irsb, target, x) {
      if x.Register? && target != -1 && irsb.stmts[StatementAt(irsb, target)].Put? {
        assert irsb.stmts[StatementAt(irsb, target)].offset in w.1;
      }
    }
  }

  /** When the slicer refuses: the block is not in the graph; or it lifts, and the statement does not exist
      or writes neither a register nor a temporary, or it jumps to something that is neither a constant
      nor a temporary. */
  lemma RefusedIff(b: Setting, dst: Addr, target: int)
    ensures var r, known := BackwardSlice(b, dst, target), dst in b.anyNode && b.anyNode[dst] in b.inEdges;
            && (r == Err(NotInGraph) <==> !known)
            && (r.Err? ==> r == Err(NotInGraph) || dst in b.irsbs)
            && (known && dst in b.irsbs ==>
                  var irsb := b.irsbs[dst];
                  var i := StatementAt(irsb, target);
                  && (r == Err(UnsupportedNext) <==> target == -1 && !irsb.next.RdTmp? && !irsb.next.Const?)
                  && (r == Err(NoSuchStatement) <==> target != -1 && !(0 <= i < |irsb.stmts|))
                  && (r == Err(UnsupportedTarget) <==>
                        target != -1 && 0 <= i < |irsb.stmts| && !irsb.stmts[i].Put? && !irsb.stmts[i].WrTmp?))
  {
  }

  // ------------------------------------------------- how points are linked

  /** Each point is linked to the one before it in the list. */
  ghost predicate LinkedInOrder(order: seq<Point>, e: (Point, Point)) {
    exists k :: 0 <= k < |order| - 1 && e == (order[k + 1], order[k])
  }

  lemma OrderSnoc(order: seq<Point>, p: Point, e: (Point, Point))
    requires order != []
    ensures LinkedInOrder(order + [p], e) <==> LinkedInOrder(order, e) || e == (p, order[|order| - 1])
  {
    var all := order + [p];
    if k :| 0 <= k < |order| - 1 && e == (order[k + 1], order[k]) { assert e == (all[k + 1], all[k]); }
    if e == (p, order[|order| - 1]) { assert e == (all[|order| - 1 + 1], all[|order| - 1]); }
  }

  function ExitPoints(a: Addr, stmts: seq<Stmt>, n: nat): seq<Point>
    requires n <= |stmts|
  {
    if n == 0 then []
    else ExitPoints(a, stmts, n - 1) + if stmts[n - 1].Exit? && stmts[n - 1].boring then [Point(a, n - 1)] else []
  }

  function PointsBackward(a: Addr, indices: seq<nat>): seq<Point> {
    seq(|indices|, k requires 0 <= k < |indices| => Point(a, indices[|indices| - 1 - k]))
  }

  /** The points of one visit: the default exit, the ordinary exits from first to last when control
      dependence counts, the sliced statements from last to first, or statement 0 if there is none. */
  function VisitOrder(b: Setting, a: Addr, irsb: Irsb, indices: seq<nat>): seq<Point> {
    [Point(a, -2)]
    + (if b.controlDependence then ExitPoints(a, irsb.stmts, |irsb.stmts|) else [])
    + (if indices == [] then [Point(a, 0)] else PointsBackward(a, indices))
  }

  /** A trail that has marked these points, in order, onto a graph. */
  ghost predicate HasMarked(before: Trail, order: seq<Point>, after: Trail) {
    && order != [] && order[0] == before.prev && after.prev == order[|order| - 1]
    && forall e :: e in after.graph.edges <==> e in before.graph.edges || LinkedInOrder(order, e)
  }

  lemma MarkedOneMore(before: Trail, order: seq<Point>, t: Trail, p: Point)
    requires HasMarked(before, order, t)
    ensures HasMarked(before, order + [p], Mark(t, p))
  {
    forall e ensures e in Mark(t, p).graph.edges <==> e in before.graph.edges || LinkedInOrder(order + [p], e) {
      OrderSnoc(order, p, e);
    }
  }

  lemma {:induction false} ExitsInOrder(before: Trail, order: seq<Point>, t: Trail, a: Addr, stmts: seq<Stmt>, n: nat)
    requires n <= |stmts| && HasMarked(before, order, t)
    ensures HasMarked(before, order + ExitPoints(a, stmts, n), MarkExits(t, a, stmts, n))
  {
    if n == 0 {
      assert order + [] == order;
    } else {
      ExitsInOrder(before, order, t, a, stmts, n - 1);
      var u, front := MarkExits(t, a, stmts, n - 1), order + ExitPoints(a, stmts, n - 1);
      if stmts[n - 1].Exit? && stmts[n - 1].boring {
        MarkedOneMore(before, front, u, Point(a, n - 1));
        assert front + [Point(a, n - 1)] == order + ExitPoints(a, stmts, n);
      } else {
        assert order + ExitPoints(a, stmts, n) == front;
      }
    }
  }

  lemma {:induction false} StatementsInOrder(before: Trail, order: seq<Point>, t: Trail, a: Addr, indices: seq<nat>)
    requires HasMarked(before, order, t)
    ensures HasMarked(before, order + PointsBackward(a, indices), MarkAll(t, a, indices))
    decreases |indices|
  {
    if indices == [] {
      assert order + PointsBackward(a, indices) == order;
    } else {
      var n := |indices| - 1;
      var p := Point(a, indices[n]);
      MarkedOneMore(before, order, t, p);
      StatementsInOrder(before, order + [p], Mark(t, p), a, indices[..n]);
      assert order + [p] + PointsBackward(a, indices[..n]) == order + PointsBackward(a, indices);
    }
  }

  /** A visit links its points in that order, the first one to the point that it comes from, and adds no
      other edge. */
  lemma VisitLinks(b: Setting, t: Trail, a: Addr, irsb: Irsb, indices: seq<nat>)
    ensures HasMarked(t, [t.prev] + VisitOrder(b, a, irsb, indices), BlockMarked(b, t, a, irsb, indices))
  {
    var first := Point(a, -2);
    var exits := if b.controlDependence then ExitPoints(a, irsb.stmts, |irsb.stmts|) else [];
    var order := [t.prev] + [first];
    assert HasMarked(t, [t.prev], t);
    MarkedOneMore(t, [t.prev], t, first);
    var d, u := Mark(t, first), ExitsMarked(b, t, a, irsb);
    if b.controlDependence { ExitsInOrder(t, order, d, a, irsb.stmts, |irsb.stmts|); }
    assert order + [] == order;
    assert HasMarked(t, order + exits, u);
    if indices == [] {
      MarkedOneMore(t, order + exits, u, Point(a, 0));
      assert [t.prev] + VisitOrder(b, a, irsb, indices) == order + exits + [Point(a, 0)];
    } else {
      StatementsInOrder(t, order + exits, u, a, indices);
      assert [t.prev] + VisitOrder(b, a, irsb, indices) == order + exits + PointsBackward(a, indices);
    }
  }
}
