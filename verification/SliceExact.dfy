/** Which statements a slice holds, said as definitions and uses: a statement is in the slice if and only
    if it writes something that is asked for or that a later sliced statement reads, before anything else
    writes it.  No more and no less. */
module SliceExact {
  import opened Wrappers
  import opened Vex
  import opened Slicer

  /** A temporary, a base register or a memory cell. */
  datatype Place = Temp(tmp: Tmp) | Register(reg: Reg) | Cell(addr: Word)

  predicate LiveAt(l: Live, x: Place) {
    match x
    case Temp(t) => t in l.temps
    case Register(r) => r in l.regs
    case Cell(a) => a in l.cells
  }

  /** The temporary that an operand is. */
  predicate IsTemp(e: Expr, x: Place) { e.RdTmp? && x == Temp(e.tmp) }

  /** Evaluating the expression reads the place, as far as the handlers see: operands of operators and
      calls only when they are temporaries, cells only behind aliased temporaries. */
  predicate Reads(m: Machine, aliases: Aliases, e: Expr, x: Place) {
    match e
    case Get(offset, _) => x == Register(m.Base(offset))
    case RdTmp(t) => x == Temp(t)
    case Load(a) => IsTemp(a, x) || (a.RdTmp? && a.tmp in aliases && x == Cell(aliases[a.tmp]))
    case Unop(_, a) => IsTemp(a, x)
    case Binop(_, a, b) => IsTemp(a, x) || IsTemp(b, x)
    case CCall(_, args) => exists i :: 0 <= i < |args| && IsTemp(args[i], x)
    case ITE(c, a, b) => Reads(m, aliases, c, x) || Reads(m, aliases, a, x) || Reads(m, aliases, b, x)
    case _ => false
  }

  predicate StmtReads(m: Machine, aliases: Aliases, stmt: Stmt, x: Place) {
    match stmt
    case WrTmp(_, e) => Reads(m, aliases, e, x)
    case Put(_, _, e) => Reads(m, aliases, e, x)
    case Store(a, e) => Reads(m, aliases, a, x) || Reads(m, aliases, e, x)
    case LoadG(_, a, alt, g) => Reads(m, aliases, a, x) || Reads(m, aliases, alt, x) || Reads(m, aliases, g, x)
    case _ => false
  }

  /** The place that a statement writes, as far as the handlers see. */
  predicate Writes(m: Machine, aliases: Aliases, stmt: Stmt, x: Place) {
    match stmt
    case WrTmp(t, _) => x == Temp(t)
    case LoadG(t, _, _, _) => x == Temp(t)
    case Put(offset, _, _) => x == Register(m.Base(offset))
    case Store(a, _) => a.RdTmp? && a.tmp in aliases && x == Cell(aliases[a.tmp])
    case _ => false
  }

  // ------------------------------------------------- one statement

  lemma {:induction false} TmpsPlaces(es: seq<Expr>, l: Live, x: Place)
    ensures LiveAt(BackTmps(es, l), x) <==> LiveAt(l, x) || exists i :: 0 <= i < |es| && IsTemp(es[i], x)
  {
    if es != [] {
      var rest := es[1..];
      TmpsPlaces(rest, BackTmp(es[0], l), x);
      if i :| 0 <= i < |rest| && IsTemp(rest[i], x) { assert IsTemp(es[i + 1], x); }
      if i :| 0 <= i < |es| && IsTemp(es[i], x) {
        if i > 0 { assert IsTemp(rest[i - 1], x); }
      }
    }
  }

  /** An expression adds exactly what it reads. */
  lemma {:induction false} ExprPlaces(m: Machine, aliases: Aliases, e: Expr, l: Live, x: Place)
    ensures LiveAt(BackExpr(m, aliases, e, l), x) <==> LiveAt(l, x) || Reads(m, aliases, e, x)
  {
    match e
    case CCall(_, args) => TmpsPlaces(args, l, x);
    case ITE(c, a, b) =>
      var l1 := BackExpr(m, aliases, c, l);
      ExprPlaces(m, aliases, c, l, x);
      ExprPlaces(m, aliases, a, l1, x);
      ExprPlaces(m, aliases, b, BackExpr(m, aliases, a, l1), x);
    case _ =>
  }

  /** A statement is sliced exactly for writing a live place (instruction marks on request), and then its
      place is live no more and what it reads is. */
  lemma StmtPlaces(m: Machine, aliases: Aliases, imarks: bool, stmt: Stmt, l: Live)
    ensures var v := BackStmt(m, aliases, imarks, stmt, l);
            && (v.inSlice <==> (stmt.IMark? && imarks) || exists x :: Writes(m, aliases, stmt, x) && LiveAt(l, x))
            && forall x :: LiveAt(v.live, x) <==>
                 (LiveAt(l, x) && !Writes(m, aliases, stmt, x)) || (v.inSlice && StmtReads(m, aliases, stmt, x))
  {
    var v := BackStmt(m, aliases, imarks, stmt, l);
    WrittenPlace(m, aliases, stmt, l);
    forall x ensures LiveAt(v.live, x) <==>
      (LiveAt(l, x) && !Writes(m, aliases, stmt, x)) || (v.inSlice && StmtReads(m, aliases, stmt, x))
    {
      LiveBeforeStmt(m, aliases, imarks, stmt, l, x);
    }
  }

  /** A statement writes at most one place. */
  lemma WrittenPlace(m: Machine, aliases: Aliases, stmt: Stmt, l: Live)
    ensures (exists x :: Writes(m, aliases, stmt, x) && LiveAt(l, x)) <==>
              match stmt
              case WrTmp(t, _) => t in l.temps
              case LoadG(t, _, _, _) => t in l.temps
              case Put(offset, _, _) => m.Base(offset) in l.regs
              case Store(a, _) => a.RdTmp? && a.tmp in aliases && aliases[a.tmp] in l.cells
              case _ => false
  {
    match stmt
    case WrTmp(t, _) => assert Writes(m, aliases, stmt, Temp(t));
    case LoadG(t, _, _, _) => assert Writes(m, aliases, stmt, Temp(t));
    case Put(offset, _, _) => assert Writes(m, aliases, stmt, Register(m.Base(offset)));
    case Store(a, _) => if a.RdTmp? && a.tmp in aliases { assert Writes(m, aliases, stmt, Cell(aliases[a.tmp])); }
    case _ =>
  }

  lemma LiveBeforeStmt(m: Machine, aliases: Aliases, imarks: bool, stmt: Stmt, l: Live, x: Place)
    ensures var v := BackStmt(m, aliases, imarks, stmt, l);
            LiveAt(v.live, x) <==>
              (LiveAt(l, x) && !Writes(m, aliases, stmt, x)) || (v.inSlice && StmtReads(m, aliases, stmt, x))
  {
    match stmt
    case WrTmp(t, e) => ExprPlaces(m, aliases, e, l.(temps := l.temps - {t}), x);
    case Put(offset, _, e) => ExprPlaces(m, aliases, e, l.(regs := l.regs - {m.Base(offset)}), x);
    case Store(a, e) =>
      if a.RdTmp? && a.tmp in aliases {
        var l1 := l.(cells := l.cells - {aliases[a.tmp]});
        ExprPlaces(m, aliases, a, l1, x);
        ExprPlaces(m, aliases, e, BackExpr(m, aliases, a, l1), x);
      }
    case LoadG(t, a, alt, g) =>
      var l1 := l.(temps := l.temps - {t});
      var l2 := BackExpr(m, aliases, g, l1);
      ExprPlaces(m, aliases, g, l1, x);
      ExprPlaces(m, aliases, a, l2, x);
      ExprPlaces(m, aliases, alt, BackExpr(m, aliases, a, l2), x);
    case _ =>
  }

  // ------------------------------------------------- a block

  /** No statement from `i` up to `j` writes the place. */
  predicate Untouched(m: Machine, aliases: Aliases, stmts: seq<Stmt>, i: nat, j: nat, x: Place)
    requires j <= |stmts|
  {
    forall k :: i <= k < j ==> !Writes(m, aliases, stmts[k], x)
  }

  /** Sliced statement `j` is the first from `i` on to use the place. */
  predicate UsedBy(m: Machine, aliases: Aliases, stmts: seq<Stmt>, indices: seq<nat>, i: nat, j: nat, x: Place) {
    i <= j < |stmts| && j in indices && StmtReads(m, aliases, stmts[j], x) && Untouched(m, aliases, stmts, i, j, x)
  }

  /** The value that the place has before statement `i` is asked for, or used by a sliced statement. */
  ghost predicate Needed(m: Machine, aliases: Aliases, stmts: seq<Stmt>, asked: Live, indices: seq<nat>, i: nat, x: Place) {
    || (LiveAt(asked, x) && Untouched(m, aliases, stmts, i, |stmts|, x))
    || exists j :: UsedBy(m, aliases, stmts, indices, i, j, x)
  }

  ghost predicate AnyNeeded(m: Machine, aliases: Aliases, stmts: seq<Stmt>, asked: Live, indices: seq<nat>, i: nat) {
    exists x :: Needed(m, aliases, stmts, asked, indices, i, x)
  }

  /** Statement `i` has a reason to be in the slice. */
  ghost predicate Wanted(m: Machine, aliases: Aliases, imarks: bool, stmts: seq<Stmt>, asked: Live, indices: seq<nat>, i: nat)
    requires i < |stmts|
  {
    || (exists x :: Writes(m, aliases, stmts[i], x) && Needed(m, aliases, stmts, asked, indices, i + 1, x))
    || (stmts[i].IMark? && imarks
        && (i == |stmts| - 1 || AnyNeeded(m, aliases, stmts, asked, indices, i + 1)))
  }

  lemma NeededLast(m: Machine, aliases: Aliases, stmts: seq<Stmt>, asked: Live, indices: seq<nat>, x: Place)
    ensures Needed(m, aliases, stmts, asked, indices, |stmts|, x) <==> LiveAt(asked, x)
  {
  }

  ghost predicate IndicesSplit(indices: seq<nat>, front: seq<nat>, n: nat, last: bool) {
    InBlock(front, n) && forall j :: j in indices <==> j in front || (last && j == n)
  }

  /** Before the last statement: what is needed, with the last statement taken into account. */
  lemma NeededStep(m: Machine, aliases: Aliases, imarks: bool, stmts: seq<Stmt>, asked: Live, front: seq<nat>, indices: seq<nat>,
                   i: nat, x: Place)
    requires stmts != [] && i < |stmts|
    requires var v := BackStmt(m, aliases, imarks, stmts[|stmts| - 1], asked);
             IndicesSplit(indices, front, |stmts| - 1, v.inSlice)
    ensures var n := |stmts| - 1;
            Needed(m, aliases, stmts, asked, indices, i, x)
            <==> Needed(m, aliases, stmts[..n], BackStmt(m, aliases, imarks, stmts[n], asked).live, front, i, x)
  {
    var n := |stmts| - 1;
    var v := BackStmt(m, aliases, imarks, stmts[n], asked);
    LiveBeforeStmt(m, aliases, imarks, stmts[n], asked, x);
    UntouchedStep(m, aliases, stmts, i, x);
    forall j: nat | j < n ensures UsedBy(m, aliases, stmts, indices, i, j, x) <==> UsedBy(m, aliases, stmts[..n], front, i, j, x) {
      assert Untouched(m, aliases, stmts, i, j, x) <==> Untouched(m, aliases, stmts[..n], i, j, x);
    }
    if Needed(m, aliases, stmts, asked, indices, i, x) && !(LiveAt(asked, x) && Untouched(m, aliases, stmts, i, |stmts|, x)) {
      var j: nat :| UsedBy(m, aliases, stmts, indices, i, j, x);
      if j < n { assert UsedBy(m, aliases, stmts[..n], front, i, j, x); }
    }
    NeededBack(m, aliases, imarks, stmts, asked, front, indices, i, x);
  }

  lemma UntouchedStep(m: Machine, aliases: Aliases, stmts: seq<Stmt>, i: nat, x: Place)
    requires stmts != [] && i < |stmts|
    ensures var n := |stmts| - 1;
            && (Untouched(m, aliases, stmts[..n], i, n, x) <==> Untouched(m, aliases, stmts, i, n, x))
            && (Untouched(m, aliases, stmts, i, |stmts|, x) <==>
                  Untouched(m, aliases, stmts, i, n, x) && !Writes(m, aliases, stmts[n], x))
  {
  }

  lemma NeededBack(m: Machine, aliases: Aliases, imarks: bool, stmts: seq<Stmt>, asked: Live, front: seq<nat>, indices: seq<nat>,
                   i: nat, x: Place)
    requires stmts != [] && i < |stmts|
    requires var v := BackStmt(m, aliases, imarks, stmts[|stmts| - 1], asked);
             IndicesSplit(indices, front, |stmts| - 1, v.inSlice)
    ensures var n := |stmts| - 1;
            Needed(m, aliases, stmts[..n], BackStmt(m, aliases, imarks, stmts[n], asked).live, front, i, x)
            ==> Needed(m, aliases, stmts, asked, indices, i, x)
  {
    var n := |stmts| - 1;
    var v := BackStmt(m, aliases, imarks, stmts[n], asked);
    LiveBeforeStmt(m, aliases, imarks, stmts[n], asked, x);
    UntouchedStep(m, aliases, stmts, i, x);
    if LiveAt(v.live, x) && Untouched(m, aliases, stmts[..n], i, n, x) {
      if !(LiveAt(asked, x) && !Writes(m, aliases, stmts[n], x)) { assert UsedBy(m, aliases, stmts, indices, i, n, x); }
    } else if j :| UsedBy(m, aliases, stmts[..n], front, i, j, x) {
      assert Untouched(m, aliases, stmts, i, j, x);
      assert UsedBy(m, aliases, stmts, indices, i, j, x);
    }
  }

  lemma NothingNeeded(m: Machine, aliases: Aliases, stmts: seq<Stmt>, asked: Live, i: nat, x: Place)
    requires asked.IsEmpty()
    ensures !Needed(m, aliases, stmts, asked, [], i, x)
  {
  }

  ghost predicate Exact(m: Machine, aliases: Aliases, imarks: bool, stmts: seq<Stmt>, asked: Live, s: Slice) {
    && InBlock(s.indices, |stmts|)
    && (forall i: nat :: i < |stmts| ==> (i in s.indices <==> Wanted(m, aliases, imarks, stmts, asked, s.indices, i)))
    && (forall x :: LiveAt(s.live, x) <==> Needed(m, aliases, stmts, asked, s.indices, 0, x))
  }

  /** A statement is in the slice if and only if it writes a place whose value after it is asked for or
      used by a sliced statement (instruction marks, on request, as long as anything is); and a place is
      live before the block if and only if the value it has there is. */
  lemma {:induction false} SliceIsExact(m: Machine, aliases: Aliases, imarks: bool, stmts: seq<Stmt>, asked: Live)
    ensures Exact(m, aliases, imarks, stmts, asked, SliceFrom(m, aliases, imarks, stmts, asked))
  {
    if stmts != [] {
      var n := |stmts| - 1;
      var v := BackStmt(m, aliases, imarks, stmts[n], asked);
      var s := SliceFrom(m, aliases, imarks, stmts, asked);
      if v.live.IsEmpty() {
        LastOnly(m, aliases, imarks, stmts, asked, s);
      } else {
        var t := SliceFrom(m, aliases, imarks, stmts[..n], v.live);
        SliceIsExact(m, aliases, imarks, stmts[..n], v.live);
        ExactStep(m, aliases, imarks, stmts, asked, t, s);
      }
    }
  }

  lemma LastWanted(m: Machine, aliases: Aliases, imarks: bool, stmts: seq<Stmt>, asked: Live, indices: seq<nat>)
    requires stmts != []
    ensures var n := |stmts| - 1;
            Wanted(m, aliases, imarks, stmts, asked, indices, n) <==> BackStmt(m, aliases, imarks, stmts[n], asked).inSlice
  {
    var n := |stmts| - 1;
    StmtPlaces(m, aliases, imarks, stmts[n], asked);
    forall x ensures Needed(m, aliases, stmts, asked, indices, n + 1, x) <==> LiveAt(asked, x) {
      NeededLast(m, aliases, stmts, asked, indices, x);
    }
  }

  /** Nothing is live before the last statement, so the loop stops there. */
  lemma LastOnly(m: Machine, aliases: Aliases, imarks: bool, stmts: seq<Stmt>, asked: Live, s: Slice)
    requires stmts != []
    requires var v := BackStmt(m, aliases, imarks, stmts[|stmts| - 1], asked);
             v.live.IsEmpty() && s == Slice(if v.inSlice then [|stmts| - 1] else [], v.live)
    ensures Exact(m, aliases, imarks, stmts, asked, s)
  {
    var n := |stmts| - 1;
    var v := BackStmt(m, aliases, imarks, stmts[n], asked);
    LastWanted(m, aliases, imarks, stmts, asked, s.indices);
    assert IndicesSplit(s.indices, [], n, v.inSlice);
    forall i: nat, x | i < |stmts| ensures !Needed(m, aliases, stmts, asked, s.indices, i, x) {
      NeededStep(m, aliases, imarks, stmts, asked, [], s.indices, i, x);
      NothingNeeded(m, aliases, stmts[..n], v.live, i, x);
    }
  }

  lemma WantedStep(m: Machine, aliases: Aliases, imarks: bool, stmts: seq<Stmt>, asked: Live, front: seq<nat>, indices: seq<nat>, i: nat)
    requires stmts != [] && i < |stmts| - 1
    requires var v := BackStmt(m, aliases, imarks, stmts[|stmts| - 1], asked);
             IndicesSplit(indices, front, |stmts| - 1, v.inSlice) && !v.live.IsEmpty()
    ensures var n := |stmts| - 1;
            Wanted(m, aliases, imarks, stmts, asked, indices, i)
            <==> Wanted(m, aliases, imarks, stmts[..n], BackStmt(m, aliases, imarks, stmts[n], asked).live, front, i)
  {
    var n := |stmts| - 1;
    var live := BackStmt(m, aliases, imarks, stmts[n], asked).live;
    var k := i + 1;
    forall x ensures Needed(m, aliases, stmts, asked, indices, k, x) <==> Needed(m, aliases, stmts[..n], live, front, k, x) {
      NeededStep(m, aliases, imarks, stmts, asked, front, indices, k, x);
    }
    if k == n {
      var x := SomethingLive(live);
      NeededLast(m, aliases, stmts[..n], live, front, x);
      assert AnyNeeded(m, aliases, stmts, asked, indices, k);
    }
  }

  lemma SomethingLive(l: Live) returns (x: Place)
    requires !l.IsEmpty()
    ensures LiveAt(l, x)
  {
    assert l.regs == {} ==> l.temps != {} || l.cells != {};
    assert (forall r :: r !in l.regs) ==> l.regs == {};
    assert (forall a :: a !in l.cells) ==> l.cells == {};
    if l.temps != {} {
      var t :| t in l.temps;
      x := Temp(t);
    } else if l.regs != {} {
      var r :| r in l.regs;
      x := Register(r);
    } else {
      var a :| a in l.cells;
      x := Cell(a);
    }
  }

  lemma ExactStep(m: Machine, aliases: Aliases, imarks: bool, stmts: seq<Stmt>, asked: Live, t: Slice, s: Slice)
    requires stmts != []
    requires var n := |stmts| - 1;
             var v := BackStmt(m, aliases, imarks, stmts[n], asked);
             && !v.live.IsEmpty() && Exact(m, aliases, imarks, stmts[..n], v.live, t)
             && s == Slice(t.indices + if v.inSlice then [n] else [], t.live)
    ensures Exact(m, aliases, imarks, stmts, asked, s)
  {
    var n := |stmts| - 1;
    var v := BackStmt(m, aliases, imarks, stmts[n], asked);
    assert IndicesSplit(s.indices, t.indices, n, v.inSlice);
    LastWanted(m, aliases, imarks, stmts, asked, s.indices);
    forall i: nat | i < n ensures i in s.indices <==> Wanted(m, aliases, imarks, stmts, asked, s.indices, i) {
      WantedStep(m, aliases, imarks, stmts, asked, t.indices, s.indices, i);
    }
    forall x ensures LiveAt(s.live, x) <==> Needed(m, aliases, stmts, asked, s.indices, 0, x) {
      NeededStep(m, aliases, imarks, stmts, asked, t.indices, s.indices, 0, x);
    }
  }

  /** What a caller asks for, registers standing for their base registers. */
  predicate AskedFor(m: Machine, temps: set<Tmp>, regs: set<Reg>, cells: set<Word>, x: Place) {
    match x
    case Temp(t) => t in temps
    case Register(r) => exists q :: q in regs && m.Base(q) == r
    case Cell(a) => a in cells
  }

  /** The slice of a block for the targets of a caller. */
  lemma BlockSliceExact(m: Machine, imarks: bool, stmts: seq<Stmt>, temps: set<Tmp>, regs: set<Reg>, cells: set<Word>)
    ensures var asked := Targets(m, temps, regs, cells);
            && (forall x :: LiveAt(asked, x) <==> AskedFor(m, temps, regs, cells, x))
            && Exact(m, AliasBlock(m, stmts), imarks, stmts, asked, SliceFrom(m, AliasBlock(m, stmts), imarks, stmts, asked))
  {
    SliceIsExact(m, AliasBlock(m, stmts), imarks, stmts, Targets(m, temps, regs, cells));
  }
}
