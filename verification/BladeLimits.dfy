/** What one block asks its predecessors for, and two ways in which that differs from what the caller
wanted: registers that were to be ignored, and a target statement that is not the last to write its
register.  For each, exactly when it happens. */
module BladeLimits {
  import opened Wrappers
  import opened Vex
  import opened Slicer
  import opened SliceTheorems
  import SliceExact
  import opened Blade

  // ------------------------------------------------- which registers are live before a block

  /** Evaluating `e` reads base register `r`, as far as the handlers see. */
  predicate ReadsReg(m: Machine, e: Expr, r: Reg) {
    match e
    case Get(offset, _) => m.Base(offset) == r
    case ITE(c, a, b) => ReadsReg(m, c, r) || ReadsReg(m, a, r) || ReadsReg(m, b, r)
    case _ => false
  }

  predicate StmtReadsReg(m: Machine, stmt: Stmt, r: Reg) {
    match stmt
    case WrTmp(_, e) => ReadsReg(m, e, r)
    case Put(_, _, e) => ReadsReg(m, e, r)
    case Store(a, e) => ReadsReg(m, a, r) || ReadsReg(m, e, r)
    case LoadG(_, a, alt, g) => ReadsReg(m, a, r) || ReadsReg(m, alt, r) || ReadsReg(m, g, r)
    case _ => false
  }

  predicate Writes(m: Machine, stmt: Stmt, r: Reg) { stmt.Put? && m.Base(stmt.offset) == r }

  predicate Unwritten(m: Machine, stmts: seq<Stmt>, n: nat, r: Reg)
    requires n <= |stmts|
  {
    forall j :: 0 <= j < n ==> !Writes(m, stmts[j], r)
  }

  lemma {:induction false} ExprRegister(m: Machine, aliases: Aliases, e: Expr, r: Reg)
    ensures SliceExact.Reads(m, aliases, e, SliceExact.Register(r)) <==> ReadsReg(m, e, r)
  {
    if e.ITE? {
      ExprRegister(m, aliases, e.cond, r);
      ExprRegister(m, aliases, e.iftrue, r);
      ExprRegister(m, aliases, e.iffalse, r);
    }
  }

  lemma StmtRegister(m: Machine, aliases: Aliases, stmt: Stmt, r: Reg)
    ensures SliceExact.StmtReads(m, aliases, stmt, SliceExact.Register(r)) <==> StmtReadsReg(m, stmt, r)
    ensures SliceExact.Writes(m, aliases, stmt, SliceExact.Register(r)) <==> Writes(m, stmt, r)
  {
    match stmt
    case WrTmp(_, e) => ExprRegister(m, aliases, e, r);
    case Put(_, _, e) => ExprRegister(m, aliases, e, r);
    case Store(a, e) =>
      ExprRegister(m, aliases, a, r);
      ExprRegister(m, aliases, e, r);
    case LoadG(_, a, alt, g) =>
      ExprRegister(m, aliases, a, r);
      ExprRegister(m, aliases, alt, r);
      ExprRegister(m, aliases, g, r);
    case _ =>
  }

  /** Statement `i` is in the slice and reads `r`, which no earlier statement writes. */
  predicate ReadFirst(m: Machine, stmts: seq<Stmt>, indices: seq<nat>, r: Reg, i: nat) {
    i in indices && i < |stmts| && StmtReadsReg(m, stmts[i], r) && Unwritten(m, stmts, i, r)
  }

  /** A register is live before a block if and only if it was asked for and the block does not write
      it, or a sliced statement reads it and no statement before that one writes it. */
  lemma LiveBeforeIff(m: Machine, aliases: Aliases, imarks: bool, stmts: seq<Stmt>, l: Live, r: Reg)
    ensures var s := SliceFrom(m, aliases, imarks, stmts, l);
            r in s.live.regs <==>
              (r in l.regs && Unwritten(m, stmts, |stmts|, r)) || exists i :: ReadFirst(m, stmts, s.indices, r, i)
  {
    var s, x := SliceFrom(m, aliases, imarks, stmts, l), SliceExact.Register(r);
    SliceExact.SliceIsExact(m, aliases, imarks, stmts, l);
    forall i: nat | i <= |stmts| ensures SliceExact.Untouched(m, aliases, stmts, 0, i, x) <==> Unwritten(m, stmts, i, r) {
      forall k | 0 <= k < i ensures SliceExact.Writes(m, aliases, stmts[k], x) <==> Writes(m, stmts[k], r) {
        StmtRegister(m, aliases, stmts[k], r);
      }
    }
    forall i: nat ensures SliceExact.UsedBy(m, aliases, stmts, s.indices, 0, i, x) <==> ReadFirst(m, stmts, s.indices, r, i) {
      if i < |stmts| { StmtRegister(m, aliases, stmts[i], r); }
    }
    assert r in s.live.regs <==> SliceExact.Needed(m, aliases, stmts, l, s.indices, 0, x);
    if i: nat :| SliceExact.UsedBy(m, aliases, stmts, s.indices, 0, i, x) { assert ReadFirst(m, stmts, s.indices, r, i); }
    if i: nat :| ReadFirst(m, stmts, s.indices, r, i) { assert SliceExact.UsedBy(m, aliases, stmts, s.indices, 0, i, x); }
  }

  // ------------------------------------------------- ignored registers

  /** The stack-pointer options remove this register. */
  predicate Trimmed(b: Setting, r: Reg) { (b.ignoreSp && r == b.machine.sp) || (b.ignoreBp && r == b.machine.bp) }

  /** Ignored registers are removed from what the destination block asks its predecessors for, but not
      from what later blocks ask theirs for: a block that was not asked for an ignored register asks
      its predecessors for it if and only if one of its sliced statements reads it before any writes
      it. */
  lemma IgnoredHandedOnIff(b: Setting, irsb: Irsb, temps: set<Tmp>, regs: set<Reg>, cells: set<Word>, r: Reg)
    requires r in b.ignoredRegs && forall q :: q in regs ==> b.machine.Base(q) != r
    ensures var s := BlockSlice(b, irsb, temps, regs, cells);
            r in b.Trim(s.live.regs) <==>
              !Trimmed(b, r) && exists i :: ReadFirst(b.machine, irsb.stmts, s.indices, r, i)
  {
    LiveBeforeIff(b.machine, AliasBlock(b.machine, irsb.stmts), b.imarks, irsb.stmts,
                  Targets(b.machine, temps, regs, cells), r);
  }

  /** A block that reads a register nowhere before writing it does not ask for it. */
  lemma IgnoredNotHandedOn(b: Setting, irsb: Irsb, temps: set<Tmp>, regs: set<Reg>, cells: set<Word>, r: Reg)
    requires r in b.ignoredRegs && forall q :: q in regs ==> b.machine.Base(q) != r
    requires forall i :: 0 <= i < |irsb.stmts| ==>
               !(StmtReadsReg(b.machine, irsb.stmts[i], r) && Unwritten(b.machine, irsb.stmts, i, r))
    ensures r !in b.Trim(BlockSlice(b, irsb, temps, regs, cells).live.regs)
  {
    IgnoredHandedOnIff(b, irsb, temps, regs, cells, r);
  }

  // ------------------------------------------------- the target statement

  /** No statement after the `i`-th writes base register `r`. */
  predicate LastWrite(m: Machine, stmts: seq<Stmt>, i: nat, r: Reg) {
    forall j :: i < j < |stmts| ==> !Writes(m, stmts[j], r)
  }

  lemma {:induction false} RegisterKept(m: Machine, stmts: seq<Stmt>, i: nat, r: Reg, s: State)
    requires i < |stmts| && LastWrite(m, stmts, i, r)
    ensures Run(m, stmts, s).Reg(r) == Run(m, stmts[..i + 1], s).Reg(r)
  {
    var n := |stmts| - 1;
    if i < n {
      assert stmts[..n][..i + 1] == stmts[..i + 1];
      assert !Writes(m, stmts[n], r);
      RegisterKept(m, stmts[..n], i, r, s);
    } else {
      assert stmts[..i + 1] == stmts;
    }
  }

  /** A machine on which every write of a register counts it up. */
  function Counting(m: Machine): Machine { m.(mergeFn := (offset, size, was, v) => was + 1) }

  lemma {:induction false} WritesCount(m: Machine, stmts: seq<Stmt>, i: nat, r: Reg, s: State)
    requires i < |stmts|
    ensures var c := Counting(m);
            && Run(c, stmts, s).Reg(r) >= Run(c, stmts[..i + 1], s).Reg(r)
            && (!LastWrite(m, stmts, i, r) ==> Run(c, stmts, s).Reg(r) > Run(c, stmts[..i + 1], s).Reg(r))
  {
    var n := |stmts| - 1;
    if i < n {
      assert stmts[..n][..i + 1] == stmts[..i + 1];
      WritesCount(m, stmts[..n], i, r, s);
      var c, before := Counting(m), Run(Counting(m), stmts[..n], s);
      assert Step(c, stmts[n], before).Reg(r) == before.Reg(r) + if Writes(m, stmts[n], r) then 1 else 0;
    } else {
      assert stmts[..i + 1] == stmts;
    }
  }

  /** The target block is sliced for the register that the target statement writes, as it is after the
      block.  Whatever register writes do to the rest of a register, that is what the target statement
      leaves in it if and only if no later statement writes it. */
  lemma TargetRegisterIff(m: Machine, stmts: seq<Stmt>, i: nat)
    requires i < |stmts| && stmts[i].Put?
    ensures var r := m.Base(stmts[i].offset);
            (forall f: (Reg, nat, Word, Word) -> Word, s: State ::
               Run(m.(mergeFn := f), stmts, s).Reg(r) == Run(m.(mergeFn := f), stmts[..i + 1], s).Reg(r))
            <==> LastWrite(m, stmts, i, r)
  {
    var r := m.Base(stmts[i].offset);
    if LastWrite(m, stmts, i, r) {
      forall f: (Reg, nat, Word, Word) -> Word, s: State
        ensures Run(m.(mergeFn := f), stmts, s).Reg(r) == Run(m.(mergeFn := f), stmts[..i + 1], s).Reg(r)
      {
        assert forall j :: i < j < |stmts| ==> Writes(m.(mergeFn := f), stmts[j], r) == Writes(m, stmts[j], r);
        RegisterKept(m.(mergeFn := f), stmts, i, r, s);
      }
    } else {
      var f, s := Counting(m).mergeFn, State(x => 0, x => 0, x => 0);
      assert Counting(m) == m.(mergeFn := f);
      WritesCount(m, stmts, i, r, s);
      assert Run(m.(mergeFn := f), stmts, s).Reg(r) != Run(m.(mergeFn := f), stmts[..i + 1], s).Reg(r);
    }
  }

  lemma {:induction false} TemporaryKept(m: Machine, stmts: seq<Stmt>, k: nat, t: Tmp, s: State)
    requires SingleAssignment(stmts) && k <= |stmts| && t in Defined(stmts[..k])
    ensures Run(m, stmts, s).Tmp(t) == Run(m, stmts[..k], s).Tmp(t)
  {
    if k == |stmts| {
      assert stmts[..k] == stmts;
    } else {
      var n := |stmts| - 1;
      assert stmts[..n][..k] == stmts[..k];
      SingleAssignmentPrefix(stmts[..n], k);
      TemporaryKept(m, stmts[..n], k, t, s);
    }
  }

  /** A target that writes a temporary has no such limit: nothing assigns it again. */
  lemma TargetTemporary(m: Machine, stmts: seq<Stmt>, i: nat, s: State)
    requires SingleAssignment(stmts) && i < |stmts| && stmts[i].WrTmp?
    ensures Run(m, stmts, s).Tmp(stmts[i].tmp) == Run(m, stmts[..i + 1], s).Tmp(stmts[i].tmp)
  {
    assert stmts[..i + 1][i] == stmts[i];
    TemporaryKept(m, stmts, i + 1, stmts[i].tmp, s);
  }
}
