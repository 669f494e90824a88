/** Running only the sliced statements computes the targets of the whole block. */
module SliceSoundness {
  import opened Vex
  import opened Slicer

  /** Two states that a computation needing only `l` cannot tell apart. */
  ghost predicate Agree(s: State, t: State, l: Live) {
    && (forall x :: x in l.temps ==> s.Tmp(x) == t.Tmp(x))
    && (forall r :: r in l.regs ==> s.Reg(r) == t.Reg(r))
    && (forall a :: a in l.cells ==> s.Cell(a) == t.Cell(a))
  }

  // ------------------------------------------------- the supported fragment

  predicate Atom(e: Expr) { e.RdTmp? || e.Const? }

  /** Flat VEX expressions for which the slicer has a handler. */
  predicate Flat(e: Expr) {
    match e
    case Get(_, _) => true
    case RdTmp(_) => true
    case Const(_) => true
    case Unop(_, a) => Atom(a)
    case Binop(_, a, b) => Atom(a) && Atom(b)
    case CCall(_, args) => forall i :: 0 <= i < |args| ==> Atom(args[i])
    case ITE(c, a, b) => Flat(c) && Flat(a) && Flat(b)
    case Load(a) => a.RdTmp?
    case Triop(_, _, _, _) => false
  }

  /** The written bytes cover the whole base register. */
  ghost predicate FullWidth(m: Machine, offset: Reg, size: nat) {
    forall old1, old2, v :: m.Merge(offset, size, old1, v) == m.Merge(offset, size, old2, v)
  }

  ghost predicate SupportedStmt(m: Machine, stmt: Stmt) {
    match stmt
    case IMark => true
    case Exit(_, _) => true
    case Other => true
    case WrTmp(_, e) => Flat(e)
    case Put(offset, size, e) => Flat(e) && FullWidth(m, offset, size)
    case Store(a, e) => a.RdTmp? && Flat(e)
    case LoadG(_, _, _, _) => false
  }

  ghost predicate Supported(m: Machine, stmts: seq<Stmt>) {
    forall i :: 0 <= i < |stmts| ==> SupportedStmt(m, stmts[i])
  }

  /** Every address that evaluating `e` in `s` loads from is a temporary whose alias is its value. */
  predicate ResolvedExpr(aliases: Aliases, e: Expr, s: State) {
    match e
    case Load(a) => a.RdTmp? && a.tmp in aliases && aliases[a.tmp] == s.Tmp(a.tmp)
    case ITE(c, a, b) => ResolvedExpr(aliases, c, s) && ResolvedExpr(aliases, a, s) && ResolvedExpr(aliases, b, s)
    case _ => true
  }

  predicate ResolvedStmt(aliases: Aliases, stmt: Stmt, s: State) {
    match stmt
    case WrTmp(_, e) => ResolvedExpr(aliases, e, s)
    case Put(_, _, e) => ResolvedExpr(aliases, e, s)
    case Store(a, e) => ResolvedExpr(aliases, Load(a), s) && ResolvedExpr(aliases, e, s)
    case _ => true
  }

  ghost predicate ResolvedRun(m: Machine, aliases: Aliases, stmts: seq<Stmt>, s: State) {
    forall i :: 0 <= i < |stmts| ==> ResolvedStmt(aliases, stmts[i], Run(m, stmts[..i], s))
  }

  // ------------------------------------------------- dependencies of expressions

  predicate Covers(big: Live, small: Live) {
    small.temps <= big.temps && small.regs <= big.regs && small.cells <= big.cells
  }

  lemma {:induction false} BackTmpsGrows(es: seq<Expr>, l: Live)
    ensures Covers(BackTmps(es, l), l)
    ensures forall i :: 0 <= i < |es| && es[i].RdTmp? ==> es[i].tmp in BackTmps(es, l).temps
  {
    if es != [] {
      BackTmpsGrows(es[1..], BackTmp(es[0], l));
      forall i | 0 <= i < |es| && es[i].RdTmp?
        ensures es[i].tmp in BackTmps(es, l).temps
      {
        if i > 0 { assert es[i] == es[1..][i - 1]; }
      }
    }
  }

  lemma {:induction false} BackExprGrows(m: Machine, aliases: Aliases, e: Expr, l: Live)
    ensures Covers(BackExpr(m, aliases, e, l), l)
  {
    match e
    case CCall(_, args) => BackTmpsGrows(args, l);
    case ITE(c, a, b) =>
      var l1 := BackExpr(m, aliases, c, l);
      var l2 := BackExpr(m, aliases, a, l1);
      BackExprGrows(m, aliases, c, l);
      BackExprGrows(m, aliases, a, l1);
      BackExprGrows(m, aliases, b, l2);
    case _ =>
  }

  lemma {:induction false} EvalAllAgrees(m: Machine, es: seq<Expr>, s: State, t: State)
    requires forall i :: 0 <= i < |es| ==> Atom(es[i]) && (es[i].RdTmp? ==> s.Tmp(es[i].tmp) == t.Tmp(es[i].tmp))
    ensures EvalAll(m, es, s) == EvalAll(m, es, t)
  {
    if es != [] { EvalAllAgrees(m, es[1..], s, t); }
  }

  /** A flat expression evaluates alike in states that agree on the dependencies collected for it. */
  lemma {:induction false} EvalAgrees(m: Machine, aliases: Aliases, e: Expr, l: Live, s: State, t: State)
    requires Flat(e) && ResolvedExpr(aliases, e, s)
    requires Agree(s, t, BackExpr(m, aliases, e, l))
    ensures Eval(m, e, s) == Eval(m, e, t)
  {
    match e
    case CCall(_, args) =>
      BackTmpsGrows(args, l);
      EvalAllAgrees(m, args, s, t);
    case ITE(c, a, b) =>
      var l1 := BackExpr(m, aliases, c, l);
      var l2 := BackExpr(m, aliases, a, l1);
      BackExprGrows(m, aliases, a, l1);
      BackExprGrows(m, aliases, b, l2);
      EvalAgrees(m, aliases, c, l, s, t);
      EvalAgrees(m, aliases, a, l1, s, t);
      EvalAgrees(m, aliases, b, l2, s, t);
    case Unop(_, a) =>
      assert Eval(m, a, s) == Eval(m, a, t);
    case Binop(_, a, b) =>
      assert Eval(m, a, s) == Eval(m, a, t);
      assert Eval(m, b, s) == Eval(m, b, t);
    case Load(a) =>
      assert Eval(m, a, s) == Eval(m, a, t) == aliases[a.tmp];
    case _ =>
  }

  // ------------------------------------------------- one statement

  lemma StepInSlice(m: Machine, aliases: Aliases, imarks: bool, stmt: Stmt, l: Live, s: State, t: State)
    requires SupportedStmt(m, stmt) && ResolvedStmt(aliases, stmt, s)
    requires BackStmt(m, aliases, imarks, stmt, l).inSlice
    requires Agree(s, t, BackStmt(m, aliases, imarks, stmt, l).live)
    ensures Agree(Step(m, stmt, s), Step(m, stmt, t), l)
  {
    match stmt
    case IMark =>
    case WrTmp(x, e) =>
      var l1 := l.(temps := l.temps - {x});
      EvalAgrees(m, aliases, e, l1, s, t);
      BackExprGrows(m, aliases, e, l1);
    case Put(offset, size, e) =>
      var l1 := l.(regs := l.regs - {m.Base(offset)});
      EvalAgrees(m, aliases, e, l1, s, t);
      BackExprGrows(m, aliases, e, l1);
      var r, v := m.Base(offset), Eval(m, e, s);
      assert m.Merge(offset, size, s.Reg(r), v) == m.Merge(offset, size, t.Reg(r), v);
    case Store(a, e) =>
      var l1 := l.(cells := l.cells - {aliases[a.tmp]});
      var l2 := BackExpr(m, aliases, a, l1);
      EvalAgrees(m, aliases, e, l2, s, t);
      BackExprGrows(m, aliases, e, l2);
  }

  lemma StepSkipped(m: Machine, aliases: Aliases, imarks: bool, stmt: Stmt, l: Live, s: State, t: State)
    requires SupportedStmt(m, stmt) && ResolvedStmt(aliases, stmt, s)
    requires !BackStmt(m, aliases, imarks, stmt, l).inSlice
    requires Agree(s, t, l)
    ensures Agree(Step(m, stmt, s), t, l)
  {
  }

  // ------------------------------------------------- a whole block

  lemma RunAppend(m: Machine, stmts: seq<Stmt>, last: Stmt, s: State)
    ensures Run(m, stmts + [last], s) == Step(m, last, Run(m, stmts, s))
  {
    assert (stmts + [last])[..|stmts|] == stmts;
  }

  lemma ResolvedPrefix(m: Machine, aliases: Aliases, stmts: seq<Stmt>, s: State, n: nat)
    requires n <= |stmts| && ResolvedRun(m, aliases, stmts, s)
    ensures ResolvedRun(m, aliases, stmts[..n], s)
  {
    forall i | 0 <= i < n
      ensures ResolvedStmt(aliases, stmts[..n][i], Run(m, stmts[..n][..i], s))
    {
      assert stmts[..n][..i] == stmts[..i];
    }
  }

  /** The statements a slice keeps. */
  ghost function Kept(m: Machine, aliases: Aliases, imarks: bool, stmts: seq<Stmt>, l: Live): seq<Stmt> {
    SliceIndicesOrdered(m, aliases, imarks, stmts, l);
    Pick(stmts, SliceFrom(m, aliases, imarks, stmts, l).indices)
  }

  lemma KeptUnfold(m: Machine, aliases: Aliases, imarks: bool, stmts: seq<Stmt>, l: Live)
    requires stmts != []
    ensures var n := |stmts| - 1;
            var v := BackStmt(m, aliases, imarks, stmts[n], l);
            Kept(m, aliases, imarks, stmts, l) ==
              (if v.live.IsEmpty() then [] else Kept(m, aliases, imarks, stmts[..n], v.live))
              + (if v.inSlice then [stmts[n]] else [])
  {
    var n := |stmts| - 1;
    var v := BackStmt(m, aliases, imarks, stmts[n], l);
    SliceIndicesOrdered(m, aliases, imarks, stmts, l);
    SliceIndicesOrdered(m, aliases, imarks, stmts[..n], v.live);
    var rest := SliceFrom(m, aliases, imarks, stmts[..n], v.live).indices;
    if !v.live.IsEmpty() {
      assert forall i :: 0 <= i < |rest| ==> stmts[rest[i]] == stmts[..n][rest[i]];
    }
  }

  /** Slice equivalence, for any block whose memory accesses are resolved in the run from `s`. */
  lemma {:induction false} ResolvedSliceEquivalence(
    m: Machine, aliases: Aliases, imarks: bool, stmts: seq<Stmt>, l: Live, s: State, t: State)
    requires Supported(m, stmts) && ResolvedRun(m, aliases, stmts, s)
    requires Agree(s, t, SliceFrom(m, aliases, imarks, stmts, l).live)
    ensures Agree(Run(m, stmts, s), Run(m, Kept(m, aliases, imarks, stmts, l), t), l)
  {
    if stmts != [] {
      var n := |stmts| - 1;
      var v := BackStmt(m, aliases, imarks, stmts[n], l);
      var before := Run(m, stmts[..n], s);
      var kept := if v.live.IsEmpty() then [] else Kept(m, aliases, imarks, stmts[..n], v.live);
      var after := Run(m, kept, t);
      ResolvedPrefix(m, aliases, stmts, s, n);
      if !v.live.IsEmpty() {
        ResolvedSliceEquivalence(m, aliases, imarks, stmts[..n], v.live, s, t);
      }
      assert Agree(before, after, v.live);
      KeptUnfold(m, aliases, imarks, stmts, l);
      if v.inSlice {
        StepInSlice(m, aliases, imarks, stmts[n], l, before, after);
        RunAppend(m, kept, stmts[n], t);
      } else {
        StepSkipped(m, aliases, imarks, stmts[n], l, before, after);
        assert kept + [] == kept;
      }
    }
  }
}
