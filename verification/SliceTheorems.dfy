/** The two slice-equivalence theorems: without memory accesses, and with word cells behind aliases. */
module SliceTheorems {
  import opened Wrappers
  import opened Vex
  import opened Slicer
  import opened SliceSoundness

  // ------------------------------------------------- blocks without memory accesses

  predicate TouchesNoMemory(e: Expr) {
    match e
    case Load(_) => false
    case ITE(c, a, b) => TouchesNoMemory(c) && TouchesNoMemory(a) && TouchesNoMemory(b)
    case _ => true
  }

  predicate NoAccess(stmt: Stmt) {
    match stmt
    case WrTmp(_, e) => TouchesNoMemory(e)
    case Put(_, _, e) => TouchesNoMemory(e)
    case Store(_, _) => false
    case _ => true
  }

  predicate MemoryFree(stmts: seq<Stmt>) { forall i :: 0 <= i < |stmts| ==> NoAccess(stmts[i]) }

  lemma {:induction false} MemoryFreeResolved(aliases: Aliases, e: Expr, s: State)
    requires TouchesNoMemory(e)
    ensures ResolvedExpr(aliases, e, s)
  {
    match e
    case ITE(c, a, b) =>
      MemoryFreeResolved(aliases, c, s);
      MemoryFreeResolved(aliases, a, s);
      MemoryFreeResolved(aliases, b, s);
    case _ =>
  }

  /** For every memory-free block of the supported fragment, from any entry state that agrees on
      the final registers and on temporaries still live at the block's entry, the sliced statements
      compute the target temporaries and base registers of the whole block.  Temporaries may be
      assigned several times. */
  lemma SliceEquivalence(m: Machine, imarks: bool, stmts: seq<Stmt>,
                         temps: set<Tmp>, regs: set<Reg>, cells: set<Word>, s: State, t: State)
    requires Supported(m, stmts) && MemoryFree(stmts)
    requires Agree(s, t, SliceFrom(m, AliasBlock(m, stmts), imarks, stmts, Targets(m, temps, regs, cells)).live)
    ensures Agree(Run(m, stmts, s),
                  Run(m, Kept(m, AliasBlock(m, stmts), imarks, stmts, Targets(m, temps, regs, cells)), t),
                  Targets(m, temps, regs, cells))
  {
    var aliases := AliasBlock(m, stmts);
    forall i | 0 <= i < |stmts|
      ensures ResolvedStmt(aliases, stmts[i], Run(m, stmts[..i], s))
    {
      match stmts[i]
      case WrTmp(_, e) => MemoryFreeResolved(aliases, e, Run(m, stmts[..i], s));
      case Put(_, _, e) => MemoryFreeResolved(aliases, e, Run(m, stmts[..i], s));
      case _ =>
    }
    ResolvedSliceEquivalence(m, aliases, imarks, stmts, Targets(m, temps, regs, cells), s, t);
  }

  // ------------------------------------------------- well-formed blocks

  function ReadTmps(e: Expr): set<Tmp> {
    match e
    case Get(_, _) => {}
    case RdTmp(t) => {t}
    case Const(_) => {}
    case Unop(_, a) => ReadTmps(a)
    case Binop(_, a, b) => ReadTmps(a) + ReadTmps(b)
    case Triop(_, a, b, c) => ReadTmps(a) + ReadTmps(b) + ReadTmps(c)
    case ITE(c, a, b) => ReadTmps(c) + ReadTmps(a) + ReadTmps(b)
    case CCall(_, args) => set i, t | 0 <= i < |args| && t in ReadTmps(args[i]) :: t
    case Load(a) => ReadTmps(a)
  }

  function StmtReads(stmt: Stmt): set<Tmp> {
    match stmt
    case WrTmp(_, e) => ReadTmps(e)
    case Put(_, _, e) => ReadTmps(e)
    case Store(a, e) => ReadTmps(a) + ReadTmps(e)
    case LoadG(_, a, alt, g) => ReadTmps(a) + ReadTmps(alt) + ReadTmps(g)
    case _ => {}
  }

  function Defines(stmt: Stmt): set<Tmp> {
    match stmt
    case WrTmp(t, _) => {t}
    case LoadG(t, _, _, _) => {t}
    case _ => {}
  }

  function Defined(stmts: seq<Stmt>): set<Tmp> {
    if stmts == [] then {} else Defined(stmts[..|stmts| - 1]) + Defines(stmts[|stmts| - 1])
  }

  /** Temporaries are assigned once, and before they are read. */
  predicate SingleAssignment(stmts: seq<Stmt>) {
    stmts == [] ||
    var n := |stmts| - 1;
    && SingleAssignment(stmts[..n])
    && StmtReads(stmts[n]) <= Defined(stmts[..n])
    && Defines(stmts[n]) !! Defined(stmts[..n])
  }

  lemma {:induction false} SingleAssignmentPrefix(stmts: seq<Stmt>, n: nat)
    requires SingleAssignment(stmts) && n <= |stmts|
    ensures SingleAssignment(stmts[..n])
    ensures Defined(stmts[..n]) <= Defined(stmts)
    ensures n < |stmts| ==> StmtReads(stmts[n]) <= Defined(stmts[..n])
  {
    if n == |stmts| {
      assert stmts[..n] == stmts;
    } else {
      var k := |stmts| - 1;
      SingleAssignmentPrefix(stmts[..k], n);
      assert stmts[..k][..n] == stmts[..n];
    }
  }

  lemma {:induction false} BackTmpsReads(es: seq<Expr>, l: Live, bound: set<Tmp>)
    requires l.temps <= bound
    requires forall i :: 0 <= i < |es| ==> ReadTmps(es[i]) <= bound
    ensures BackTmps(es, l).temps <= bound
  {
    if es != [] {
      assert ReadTmps(es[0]) <= bound;
      BackTmpsReads(es[1..], BackTmp(es[0], l), bound);
    }
  }

  lemma {:induction false} BackExprReads(m: Machine, aliases: Aliases, e: Expr, l: Live, bound: set<Tmp>)
    requires l.temps <= bound && ReadTmps(e) <= bound
    ensures BackExpr(m, aliases, e, l).temps <= bound
  {
    match e
    case CCall(_, args) =>
      forall i | 0 <= i < |args| ensures ReadTmps(args[i]) <= bound {
        assert ReadTmps(args[i]) <= ReadTmps(e);
      }
      BackTmpsReads(args, l, bound);
    case ITE(c, a, b) =>
      var l1 := BackExpr(m, aliases, c, l);
      BackExprReads(m, aliases, c, l, bound);
      BackExprReads(m, aliases, a, l1, bound);
      BackExprReads(m, aliases, b, BackExpr(m, aliases, a, l1), bound);
    case _ =>
  }

  /** In a single-assignment block that defines its target temporaries nothing but registers and
      cells is live at the entry, so `final_regs` and `final_stack_offsets` are the whole frontier. */
  lemma {:induction false} NoLiveTempsAtEntry(m: Machine, aliases: Aliases, imarks: bool, stmts: seq<Stmt>, l: Live)
    requires SingleAssignment(stmts) && l.temps <= Defined(stmts)
    ensures SliceFrom(m, aliases, imarks, stmts, l).live.temps == {}
  {
    if stmts != [] {
      var n := |stmts| - 1;
      var bound := Defined(stmts[..n]);
      var v := BackStmt(m, aliases, imarks, stmts[n], l);
      match stmts[n] {
        case WrTmp(t, e) =>
          if t in l.temps { BackExprReads(m, aliases, e, l.(temps := l.temps - {t}), bound); }
        case Put(offset, _, e) =>
          if m.Base(offset) in l.regs { BackExprReads(m, aliases, e, l.(regs := l.regs - {m.Base(offset)}), bound); }
        case Store(a, e) =>
          if v.inSlice {
            var l1 := l.(cells := l.cells - {aliases[a.tmp]});
            BackExprReads(m, aliases, a, l1, bound);
            BackExprReads(m, aliases, e, BackExpr(m, aliases, a, l1), bound);
          }
        case LoadG(t, a, alt, g) =>
          if t in l.temps {
            var l1 := l.(temps := l.temps - {t});
            var l2 := BackExpr(m, aliases, g, l1);
            BackExprReads(m, aliases, g, l1, bound);
            BackExprReads(m, aliases, a, l2, bound);
            BackExprReads(m, aliases, alt, BackExpr(m, aliases, a, l2), bound);
          }
        case _ =>
      }
      assert v.live.temps <= bound;
      if !v.live.IsEmpty() {
        NoLiveTempsAtEntry(m, aliases, imarks, stmts[..n], v.live);
      }
    }
  }

  // ------------------------------------------------- the alias pass is sound

  ghost predicate WrappingAdds(m: Machine) {
    && (forall a, b :: m.ApplyBinop(ADD64, a, b) == (a + b) % TWO64)
    && (forall a, b :: m.ApplyBinop(ADD32, a, b) == (a + b) % TWO32)
  }

  /** Reads of a stack register see all of it. */
  ghost predicate WholePointers(m: Machine, e: Expr) {
    match e
    case Get(offset, size) => (offset == m.sp || offset == m.bp) ==> forall v :: m.View(offset, size, v) == v
    case Binop(_, a, b) => WholePointers(m, a) && WholePointers(m, b)
    case _ => true
  }

  ghost predicate StackDisciplined(m: Machine, stmt: Stmt) {
    match stmt
    case WrTmp(_, e) => WholePointers(m, e)
    case Put(offset, _, _) => m.Base(offset) != m.Base(m.sp) && m.Base(offset) != m.Base(m.bp)
    case _ => true
  }

  ghost predicate MockedEntry(m: Machine, s: State) {
    s.Reg(m.Base(m.sp)) == Mocked(m, m.sp) && s.Reg(m.Base(m.bp)) == Mocked(m, m.bp)
  }

  ghost predicate AliasesHold(aliases: Aliases, s: State) {
    forall t :: t in aliases ==> s.Tmp(t) == aliases[t]
  }

  lemma {:induction false} AliasExprSound(m: Machine, aliases: Aliases, e: Expr, s: State)
    requires WrappingAdds(m) && WholePointers(m, e)
    requires MockedEntry(m, s) && AliasesHold(aliases, s)
    requires AliasExpr(m, aliases, e).Some?
    ensures Eval(m, e, s) == AliasExpr(m, aliases, e).value
  {
    match e
    case Get(offset, size) =>
      var v := s.Reg(m.Base(offset));
      assert m.View(offset, size, v) == v;
    case Binop(op, a, b) =>
      AliasExprSound(m, aliases, a, s);
      AliasExprSound(m, aliases, b, s);
    case RdTmp(t) =>
    case Const(_) =>
  }

  /** Every alias recorded over a single-assignment block that leaves sp and bp alone is the value
      its temporary has after the block, and only assigned temporaries have one. */
  lemma {:induction false} AliasesSound(m: Machine, stmts: seq<Stmt>, s: State)
    requires SingleAssignment(stmts) && WrappingAdds(m) && MockedEntry(m, s)
    requires forall i :: 0 <= i < |stmts| ==> StackDisciplined(m, stmts[i])
    ensures AliasBlock(m, stmts).Keys <= Defined(stmts)
    ensures AliasesHold(AliasBlock(m, stmts), Run(m, stmts, s))
    ensures MockedEntry(m, Run(m, stmts, s))
  {
    if stmts != [] {
      var n := |stmts| - 1;
      AliasesSound(m, stmts[..n], s);
      var aliases, before := AliasBlock(m, stmts[..n]), Run(m, stmts[..n], s);
      assert StackDisciplined(m, stmts[n]);
      match stmts[n]
      case WrTmp(t, e) =>
        if AliasExpr(m, aliases, e).Some? { AliasExprSound(m, aliases, e, before); }
      case _ =>
    }
  }

  /** Later statements neither change nor add the alias of an assigned temporary. */
  lemma {:induction false} AliasStable(m: Machine, stmts: seq<Stmt>, n: nat, t: Tmp)
    requires SingleAssignment(stmts) && n <= |stmts| && t in Defined(stmts[..n])
    ensures t in AliasBlock(m, stmts) <==> t in AliasBlock(m, stmts[..n])
    ensures t in AliasBlock(m, stmts) ==> AliasBlock(m, stmts)[t] == AliasBlock(m, stmts[..n])[t]
  {
    if n == |stmts| {
      assert stmts[..n] == stmts;
    } else {
      var k := |stmts| - 1;
      assert stmts[..k][..n] == stmts[..n];
      SingleAssignmentPrefix(stmts[..k], n);
      AliasStable(m, stmts[..k], n, t);
    }
  }

  // ------------------------------------------------- blocks with memory accesses

  predicate LoadsAliased(aliases: Aliases, e: Expr) {
    match e
    case Load(a) => a.RdTmp? && a.tmp in aliases
    case ITE(c, a, b) => LoadsAliased(aliases, c) && LoadsAliased(aliases, a) && LoadsAliased(aliases, b)
    case _ => true
  }

  /** Every Load and Store address of the block is a temporary the alias pass knows. */
  predicate AccessesAliased(aliases: Aliases, stmts: seq<Stmt>) {
    forall i :: 0 <= i < |stmts| ==>
      match stmts[i]
      case WrTmp(_, e) => LoadsAliased(aliases, e)
      case Put(_, _, e) => LoadsAliased(aliases, e)
      case Store(a, e) => LoadsAliased(aliases, Load(a)) && LoadsAliased(aliases, e)
      case _ => true
  }

  lemma {:induction false} AliasedExprResolved(aliases: Aliases, e: Expr, s: State)
    requires LoadsAliased(aliases, e)
    requires forall t :: t in ReadTmps(e) && t in aliases ==> s.Tmp(t) == aliases[t]
    ensures ResolvedExpr(aliases, e, s)
  {
    match e
    case Load(a) => assert a.tmp in ReadTmps(e);
    case ITE(c, a, b) =>
      AliasedExprResolved(aliases, c, s);
      AliasedExprResolved(aliases, a, s);
      AliasedExprResolved(aliases, b, s);
    case _ =>
  }

  lemma AliasedRunResolved(m: Machine, stmts: seq<Stmt>, s: State)
    requires SingleAssignment(stmts) && WrappingAdds(m) && MockedEntry(m, s)
    requires forall i :: 0 <= i < |stmts| ==> StackDisciplined(m, stmts[i])
    requires AccessesAliased(AliasBlock(m, stmts), stmts)
    ensures ResolvedRun(m, AliasBlock(m, stmts), stmts, s)
  {
    var aliases := AliasBlock(m, stmts);
    forall i | 0 <= i < |stmts|
      ensures ResolvedStmt(aliases, stmts[i], Run(m, stmts[..i], s))
    {
      var before := Run(m, stmts[..i], s);
      SingleAssignmentPrefix(stmts, i);
      AliasesSound(m, stmts[..i], s);
      forall t | t in StmtReads(stmts[i]) && t in aliases ensures before.Tmp(t) == aliases[t] {
        AliasStable(m, stmts, i, t);
      }
      match stmts[i]
      case WrTmp(_, e) => AliasedExprResolved(aliases, e, before);
      case Put(_, _, e) => AliasedExprResolved(aliases, e, before);
      case Store(a, e) =>
        assert ReadTmps(Load(a)) == ReadTmps(a);
        AliasedExprResolved(aliases, Load(a), before);
        AliasedExprResolved(aliases, e, before);
      case _ =>
    }
  }

  /** Slice equivalence with memory.  In a single-assignment block that does not write sp or bp,
      run from the mocked sp and bp, with every address known to the alias pass: any entry state
      that agrees on `final_regs` and on the cells of `final_stack_offsets` gives the same target
      temporaries, base registers and cells, whatever its temporaries are. */
  lemma SliceEquivalenceWithMemory(m: Machine, imarks: bool, stmts: seq<Stmt>,
                                   temps: set<Tmp>, regs: set<Reg>, cells: set<Word>, s: State, t: State)
    requires Supported(m, stmts) && SingleAssignment(stmts) && WrappingAdds(m) && MockedEntry(m, s)
    requires forall i :: 0 <= i < |stmts| ==> StackDisciplined(m, stmts[i])
    requires AccessesAliased(AliasBlock(m, stmts), stmts)
    requires temps <= Defined(stmts)
    requires var frontier := SliceFrom(m, AliasBlock(m, stmts), imarks, stmts, Targets(m, temps, regs, cells)).live;
             Agree(s, t, Live({}, frontier.regs, frontier.cells))
    ensures Agree(Run(m, stmts, s),
                  Run(m, Kept(m, AliasBlock(m, stmts), imarks, stmts, Targets(m, temps, regs, cells)), t),
                  Targets(m, temps, regs, cells))
  {
    var aliases, targets := AliasBlock(m, stmts), Targets(m, temps, regs, cells);
    NoLiveTempsAtEntry(m, aliases, imarks, stmts, targets);
    AliasedRunResolved(m, stmts, s);
    ResolvedSliceEquivalence(m, aliases, imarks, stmts, targets, s, t);
  }
}
