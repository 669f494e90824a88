/** Which temporaries the forward pass gives an alias, and which value, said without the pass. */
module AliasExact {
  import opened Wrappers
  import opened Vex
  import opened Slicer
  import opened SliceTheorems

  /** After these statements the expression has the alias `v`: it reads the stack or the frame pointer, is
      a constant, copies a temporary whose definition has that alias, or is a 32- or 64-bit addition of two
      expressions that have aliases. */
  ghost predicate Folds(m: Machine, stmts: seq<Stmt>, e: Expr, v: Word)
    decreases |stmts|, e
  {
    match e
    case Get(offset, _) =>
      if offset == m.bp then v == m.initialSp + 0x2000 else offset == m.sp && v == m.initialSp
    case Const(c) => v == c
    case RdTmp(t) =>
      exists j :: 0 <= j < |stmts| && stmts[j].WrTmp? && stmts[j].tmp == t && Folds(m, stmts[..j], stmts[j].data, v)
    case Binop(op, a, b) =>
      exists x, y :: Folds(m, stmts, a, x) && Folds(m, stmts, b, y) && Sums(op, x, y, v)
    case _ => false
  }

  /** The wrapped sums. */
  predicate Sums(op: string, x: Word, y: Word, v: Word) {
    || (op == "Iop_Add64" && v == (x + y) % 0x1_0000_0000_0000_0000)
    || (op == "Iop_Add32" && v == (x + y) % 0x1_0000_0000)
  }

  predicate Aliased(aliases: Aliases, t: Tmp, v: Word) { t in aliases && aliases[t] == v }

  /** Position `j` defines the temporary with an alias. */
  ghost predicate FoldedAt(m: Machine, stmts: seq<Stmt>, t: Tmp, v: Word, j: nat) {
    j < |stmts| && stmts[j].WrTmp? && stmts[j].tmp == t && Folds(m, stmts[..j], stmts[j].data, v)
  }

  lemma FoldedIs(m: Machine, stmts: seq<Stmt>, t: Tmp, v: Word)
    ensures Folds(m, stmts, RdTmp(t), v) <==> exists j :: FoldedAt(m, stmts, t, v, j)
  {
    if Folds(m, stmts, RdTmp(t), v) {
      var j :| 0 <= j < |stmts| && stmts[j].WrTmp? && stmts[j].tmp == t && Folds(m, stmts[..j], stmts[j].data, v);
      assert FoldedAt(m, stmts, t, v, j);
    }
  }

  lemma {:induction false} DefinedAt(stmts: seq<Stmt>, j: nat)
    requires j < |stmts| && stmts[j].WrTmp?
    ensures stmts[j].tmp in Defined(stmts)
  {
    var n := |stmts| - 1;
    if j < n { DefinedAt(stmts[..n], j); }
  }

  lemma {:induction false} AliasKeys(m: Machine, stmts: seq<Stmt>)
    ensures AliasBlock(m, stmts).Keys <= Defined(stmts)
  {
    if stmts != [] { AliasKeys(m, stmts[..|stmts| - 1]); }
  }

  lemma FoldedDefined(m: Machine, stmts: seq<Stmt>, t: Tmp, v: Word, j: nat)
    ensures FoldedAt(m, stmts, t, v, j) ==> t in Defined(stmts)
  {
    if FoldedAt(m, stmts, t, v, j) { DefinedAt(stmts, j); }
  }

  /** What the last statement adds to where a temporary is defined. */
  lemma FoldedLast(m: Machine, stmts: seq<Stmt>, t: Tmp, v: Word)
    requires stmts != []
    ensures var n := |stmts| - 1;
            (exists j :: FoldedAt(m, stmts, t, v, j)) <==>
              (exists j :: FoldedAt(m, stmts[..n], t, v, j)) || FoldedAt(m, stmts, t, v, n)
  {
    var n := |stmts| - 1;
    forall j: nat | j < n ensures stmts[..n][..j] == stmts[..j] {}
    forall j: nat ensures j < n ==> (FoldedAt(m, stmts, t, v, j) <==> FoldedAt(m, stmts[..n], t, v, j)) {
      if j < n { assert stmts[..n][j] == stmts[j]; }
    }
    if j: nat :| FoldedAt(m, stmts[..n], t, v, j) { assert FoldedAt(m, stmts, t, v, j); }
  }

  lemma {:induction false} ExprIff(m: Machine, stmts: seq<Stmt>, e: Expr, v: Word)
    requires SingleAssignment(stmts)
    ensures AliasExpr(m, AliasBlock(m, stmts), e) == Some(v) <==> Folds(m, stmts, e, v)
    decreases |stmts|, e
  {
    match e
    case RdTmp(t) =>
      TempIff(m, stmts, t, v);
      FoldedIs(m, stmts, t, v);
    case Binop(op, a, b) =>
      forall u ensures AliasExpr(m, AliasBlock(m, stmts), a) == Some(u) <==> Folds(m, stmts, a, u) { ExprIff(m, stmts, a, u); }
      forall u ensures AliasExpr(m, AliasBlock(m, stmts), b) == Some(u) <==> Folds(m, stmts, b, u) { ExprIff(m, stmts, b, u); }
      SumIff(m, stmts, op, a, b, v);
    case _ =>
  }

  lemma SumAlias(m: Machine, aliases: Aliases, op: string, a: Expr, b: Expr, v: Word)
    ensures AliasExpr(m, aliases, Binop(op, a, b)) == Some(v)
       <==> && AliasExpr(m, aliases, a).Some? && AliasExpr(m, aliases, b).Some?
            && Sums(op, AliasExpr(m, aliases, a).value, AliasExpr(m, aliases, b).value, v)
  {
  }

  lemma SumIff(m: Machine, stmts: seq<Stmt>, op: string, a: Expr, b: Expr, v: Word)
    requires forall u :: AliasExpr(m, AliasBlock(m, stmts), a) == Some(u) <==> Folds(m, stmts, a, u)
    requires forall u :: AliasExpr(m, AliasBlock(m, stmts), b) == Some(u) <==> Folds(m, stmts, b, u)
    ensures AliasExpr(m, AliasBlock(m, stmts), Binop(op, a, b)) == Some(v) <==> Folds(m, stmts, Binop(op, a, b), v)
  {
    var aliases := AliasBlock(m, stmts);
    SumAlias(m, aliases, op, a, b, v);
    var x, y := AliasExpr(m, aliases, a), AliasExpr(m, aliases, b);
    if x.Some? && y.Some? && Sums(op, x.value, y.value, v) {
      assert Folds(m, stmts, a, x.value) && Folds(m, stmts, b, y.value);
    }
    if x, y :| Folds(m, stmts, a, x) && Folds(m, stmts, b, y) && Sums(op, x, y, v) {
      assert AliasExpr(m, aliases, a) == Some(x) && AliasExpr(m, aliases, b) == Some(y);
    }
  }

  lemma {:induction false} TempIff(m: Machine, stmts: seq<Stmt>, t: Tmp, v: Word)
    requires SingleAssignment(stmts)
    ensures Aliased(AliasBlock(m, stmts), t, v) <==> exists j :: FoldedAt(m, stmts, t, v, j)
    decreases |stmts|, RdTmp(t), 0
  {
    if stmts != [] {
      var n := |stmts| - 1;
      FoldedLast(m, stmts, t, v);
      TempIff(m, stmts[..n], t, v);
      if stmts[n].WrTmp? && stmts[n].tmp == t {
        ExprIff(m, stmts[..n], stmts[n].data, v);
        AliasKeys(m, stmts[..n]);
        forall j: nat ensures !FoldedAt(m, stmts[..n], t, v, j) { FoldedDefined(m, stmts[..n], t, v, j); }
      }
    }
  }

  /** In a block that assigns every temporary once, the forward pass gives a temporary an alias if and only
      if its definition folds, and then the value it folds to. */
  lemma AliasIff(m: Machine, stmts: seq<Stmt>, t: Tmp, v: Word)
    requires SingleAssignment(stmts)
    ensures Aliased(AliasBlock(m, stmts), t, v) <==> Folds(m, stmts, RdTmp(t), v)
  {
    TempIff(m, stmts, t, v);
    FoldedIs(m, stmts, t, v);
  }

  // ------------------------------------------------- a store through the stack pointer

  /** A store eight bytes above the stack pointer. */
  function StackStore(m: Machine): seq<Stmt> {
    [WrTmp(0, Get(m.sp, 8)), WrTmp(1, Binop("Iop_Add64", RdTmp(0), Const(8))), Store(RdTmp(1), Const(7))]
  }

  lemma StackStoreAliases(m: Machine)
    requires m.sp != m.bp
    ensures AliasBlock(m, StackStore(m)) == map[0 := m.initialSp, 1 := (m.initialSp + 8) % 0x1_0000_0000_0000_0000]
  {
    var stmts := StackStore(m);
    assert stmts[..2][..1] == stmts[..1] == [stmts[0]] && stmts[..1][..0] == [];
    assert AliasExpr(m, map[], stmts[0].data) == Some(m.initialSp);
    assert AliasBlock(m, stmts[..1]) == map[0 := m.initialSp];
    assert AliasExpr(m, map[0 := m.initialSp], stmts[1].data) == Some((m.initialSp + 8) % 0x1_0000_0000_0000_0000);
    assert AliasBlock(m, stmts[..2]) == map[0 := m.initialSp, 1 := (m.initialSp + 8) % 0x1_0000_0000_0000_0000];
  }

  /** Sliced for the cell it writes, the whole block is in the slice and the cell is live no more. */
  lemma StackStoreSliced(m: Machine)
    requires m.sp != m.bp
    ensures var stmts, cell := StackStore(m), (m.initialSp + 8) % 0x1_0000_0000_0000_0000;
            SliceFrom(m, AliasBlock(m, stmts), false, stmts, Live({}, {}, {cell})) == Slice([0, 1, 2], Live({}, {m.Base(m.sp)}, {}))
  {
    var stmts, cell := StackStore(m), (m.initialSp + 8) % 0x1_0000_0000_0000_0000;
    var aliases := map[0 := m.initialSp, 1 := cell];
    StackStoreAliases(m);
    assert stmts[..2][..1] == stmts[..1] && stmts[..1][..0] == [];
    assert BackStmt(m, aliases, false, stmts[2], Live({}, {}, {cell})) == Verdict(true, Live({1}, {}, {}));
    assert BackStmt(m, aliases, false, stmts[1], Live({1}, {}, {})) == Verdict(true, Live({0}, {}, {}));
    assert BackStmt(m, aliases, false, stmts[0], Live({0}, {}, {})) == Verdict(true, Live({}, {m.Base(m.sp)}, {}));
    assert SliceFrom(m, aliases, false, [], Live({}, {m.Base(m.sp)}, {})) == Slice([], Live({}, {m.Base(m.sp)}, {}));
    assert SliceFrom(m, aliases, false, stmts[..1], Live({0}, {}, {})) == Slice([0], Live({}, {m.Base(m.sp)}, {}));
    assert SliceFrom(m, aliases, false, stmts[..2], Live({1}, {}, {})) == Slice([0, 1], Live({}, {m.Base(m.sp)}, {}));
  }
}
