/** `SimSlicer`: the forward alias pass and the backward slice of one block.

The light state of the source is a mutable object shared by all handlers; each handler
is a method on it, tied by its postcondition to a function on the value `Live`. */
module Slicer {
  import opened Wrappers
  import opened Vex

  datatype SlicerError = NoTargets

  type Aliases = map<Tmp, Word>

  /** What is still needed before a program point. */
  datatype Live = Live(temps: set<Tmp>, regs: set<Reg>, cells: set<Word>)
  {
    predicate IsEmpty() { temps == {} && regs == {} && cells == {} }
  }

  // ---------------------------------------------------------------- alias pass

  const ADD64 := "Iop_Add64"
  const ADD32 := "Iop_Add32"
  const TWO64: int := 0x1_0000_0000_0000_0000
  const TWO32: int := 0x1_0000_0000
  const BP_GAP: int := 0x2000

  /** The value the forward pass gives a stack register, whatever the block has written to it. */
  function Mocked(m: Machine, offset: Reg): Word {
    if offset == m.bp then m.initialSp + BP_GAP else m.initialSp
  }

  function AliasExpr(m: Machine, aliases: Aliases, e: Expr): Option<Word> {
    match e
    case Get(offset, _) =>
      if offset == m.sp || offset == m.bp then Some(Mocked(m, offset)) else None
    case RdTmp(t) => if t in aliases then Some(aliases[t]) else None
    case Const(v) => Some(v)
    case Binop(op, a, b) =>
      if op == ADD64 || op == ADD32 then
        var x := AliasExpr(m, aliases, a);
        var y := AliasExpr(m, aliases, b);
        if x.Some? && y.Some? then
          Some((x.value + y.value) % (if op == ADD64 then TWO64 else TWO32))
        else None
      else None
    case _ => None
  }

  function AliasStmt(m: Machine, aliases: Aliases, stmt: Stmt): Aliases {
    if stmt.WrTmp? then
      var v := AliasExpr(m, aliases, stmt.data);
      if v.Some? then aliases[stmt.tmp := v.value] else aliases
    else aliases
  }

  function AliasBlock(m: Machine, stmts: seq<Stmt>): Aliases {
    if stmts == [] then map[]
    else AliasStmt(m, AliasBlock(m, stmts[..|stmts| - 1]), stmts[|stmts| - 1])
  }

  method AliasAnalysis(m: Machine, stmts: seq<Stmt>) returns (aliases: Aliases)
    ensures aliases == AliasBlock(m, stmts)
  {
    aliases := map[];
    for i := 0 to |stmts|
      invariant aliases == AliasBlock(m, stmts[..i])
    {
      assert stmts[..i + 1][..i] == stmts[..i];
      if stmts[i].WrTmp? {
        var v := AliasExpr(m, aliases, stmts[i].data);
        if v.Some? {
          aliases := aliases[stmts[i].tmp := v.value];
        }
      }
    }
    assert stmts[..|stmts|] == stmts;
  }

  // ---------------------------------------------------------------- backward pass

  function BackTmp(e: Expr, l: Live): Live {
    if e.RdTmp? then l.(temps := l.temps + {e.tmp}) else l
  }

  function BackTmps(es: seq<Expr>, l: Live): Live {
    if es == [] then l else BackTmps(es[1..], BackTmp(es[0], l))
  }

  /** The dependencies an expression adds, handler by handler.  Operands of operators and
      helper calls are looked at only when they are temporaries; `Triop` has no handler. */
  function BackExpr(m: Machine, aliases: Aliases, e: Expr, l: Live): Live {
    match e
    case RdTmp(_) => BackTmp(e, l)
    case Get(offset, _) => l.(regs := l.regs + {m.Base(offset)})
    case Load(addr) =>
      if addr.RdTmp? then
        var l1 := BackTmp(addr, l);
        if addr.tmp in aliases then l1.(cells := l1.cells + {aliases[addr.tmp]}) else l1
      else l
    case Unop(_, a) => BackTmp(a, l)
    case Binop(_, a, b) => BackTmp(b, BackTmp(a, l))
    case CCall(_, args) => BackTmps(args, l)
    case ITE(c, a, b) => BackExpr(m, aliases, b, BackExpr(m, aliases, a, BackExpr(m, aliases, c, l)))
    case Const(_) => l
    case Triop(_, _, _, _) => l
  }

  datatype Verdict = Verdict(inSlice: bool, live: Live)

  function BackStmt(m: Machine, aliases: Aliases, imarks: bool, stmt: Stmt, l: Live): Verdict {
    match stmt
    case IMark => Verdict(imarks, l)
    case Exit(_, _) => Verdict(false, l)
    case Other => Verdict(false, l)
    case WrTmp(t, e) =>
      if t in l.temps then Verdict(true, BackExpr(m, aliases, e, l.(temps := l.temps - {t})))
      else Verdict(false, l)
    case Put(offset, _, e) =>
      var r := m.Base(offset);
      if r in l.regs then Verdict(true, BackExpr(m, aliases, e, l.(regs := l.regs - {r})))
      else Verdict(false, l)
    case Store(a, e) =>
      if a.RdTmp? && a.tmp in aliases && aliases[a.tmp] in l.cells then
        var l1 := l.(cells := l.cells - {aliases[a.tmp]});
        Verdict(true, BackExpr(m, aliases, e, BackExpr(m, aliases, a, l1)))
      else Verdict(false, l)
    case LoadG(t, a, alt, g) =>
      if t in l.temps then
        var l1 := l.(temps := l.temps - {t});
        Verdict(true, BackExpr(m, aliases, alt, BackExpr(m, aliases, a, BackExpr(m, aliases, g, l1))))
      else Verdict(false, l)
  }

  datatype Slice = Slice(indices: seq<nat>, live: Live)

  /** The slice of a block for `l`, last statement first, stopping as soon as nothing is live. */
  function SliceFrom(m: Machine, aliases: Aliases, imarks: bool, stmts: seq<Stmt>, l: Live): Slice {
    if stmts == [] then Slice([], l)
    else
      var n := |stmts| - 1;
      var v := BackStmt(m, aliases, imarks, stmts[n], l);
      var here: seq<nat> := if v.inSlice then [n] else [];
      if v.live.IsEmpty() then Slice(here, v.live)
      else
        var r := SliceFrom(m, aliases, imarks, stmts[..n], v.live);
        Slice(r.indices + here, r.live)
  }

  /** The targets as `SimSlicer` starts from them: registers replaced by their base registers. */
  function Targets(m: Machine, temps: set<Tmp>, regs: set<Reg>, cells: set<Word>): Live {
    Live(temps, set r | r in regs :: m.Base(r), cells)
  }

  class LightState {
    var temps: set<Tmp>
    var regs: set<Reg>
    var cells: set<Word>

    ghost function View(): Live
      reads this
    {
      Live(temps, regs, cells)
    }

    constructor (temps: set<Tmp>, regs: set<Reg>, cells: set<Word>)
      ensures View() == Live(temps, regs, cells)
    {
      this.temps, this.regs, this.cells := temps, regs, cells;
    }

    method BackwardExpr(m: Machine, aliases: Aliases, e: Expr)
      modifies this
      ensures View() == BackExpr(m, aliases, e, old(View()))
      decreases e
    {
      match e
      case RdTmp(t) => temps := temps + {t};
      case Get(offset, _) => regs := regs + {m.Base(offset)};
      case Load(addr) =>
        if addr.RdTmp? {
          BackwardExpr(m, aliases, addr);
          if addr.tmp in aliases {
            cells := cells + {aliases[addr.tmp]};
          }
        }
      case Unop(_, a) =>
        if a.RdTmp? { BackwardExpr(m, aliases, a); }
      case Binop(_, a, b) =>
        if a.RdTmp? { BackwardExpr(m, aliases, a); }
        if b.RdTmp? { BackwardExpr(m, aliases, b); }
      case CCall(_, args) =>
        for i := 0 to |args|
          invariant BackTmps(args[i..], View()) == BackTmps(args, old(View()))
        {
          if args[i].RdTmp? { BackwardExpr(m, aliases, args[i]); }
          assert args[i..][1..] == args[i + 1..];
        }
      case ITE(c, a, b) =>
        BackwardExpr(m, aliases, c);
        BackwardExpr(m, aliases, a);
        BackwardExpr(m, aliases, b);
      case Const(_) =>
      case Triop(_, _, _, _) =>
    }

    method BackwardStmt(m: Machine, aliases: Aliases, imarks: bool, stmt: Stmt) returns (inSlice: bool)
      modifies this
      ensures Verdict(inSlice, View()) == BackStmt(m, aliases, imarks, stmt, old(View()))
    {
      inSlice := false;
      match stmt
      case IMark => inSlice := imarks;
      case Exit(_, _) =>
      case Other =>
      case WrTmp(t, e) =>
        if t in temps {
          temps := temps - {t};
          BackwardExpr(m, aliases, e);
          inSlice := true;
        }
      case Put(offset, _, e) =>
        if m.Base(offset) in regs {
          regs := regs - {m.Base(offset)};
          BackwardExpr(m, aliases, e);
          inSlice := true;
        }
      case Store(a, e) =>
        if a.RdTmp? && a.tmp in aliases && aliases[a.tmp] in cells {
          cells := cells - {aliases[a.tmp]};
          BackwardExpr(m, aliases, a);
          BackwardExpr(m, aliases, e);
          inSlice := true;
        }
      case LoadG(t, a, alt, g) =>
        if t in temps {
          temps := temps - {t};
          BackwardExpr(m, aliases, g);
          BackwardExpr(m, aliases, a);
          BackwardExpr(m, aliases, alt);
          inSlice := true;
        }
    }
  }

  datatype SlicedBlock = SlicedBlock(stmts: seq<Stmt>, indices: seq<nat>, finalRegs: set<Reg>, finalCells: set<Word>)

  function Pick(stmts: seq<Stmt>, indices: seq<nat>): seq<Stmt>
    requires InBlock(indices, |stmts|)
  {
    seq(|indices|, i requires 0 <= i < |indices| => stmts[indices[i]])
  }

  predicate InBlock(indices: seq<nat>, n: nat) {
    forall i :: 0 <= i < |indices| ==> indices[i] < n
  }

  /** Positions of a block of `n` statements, in increasing order. */
  predicate Positions(indices: seq<nat>, n: nat) {
    && InBlock(indices, n)
    && (forall i, j :: 0 <= i < j < |indices| ==> indices[i] < indices[j])
  }

  lemma {:induction false} SliceIndicesOrdered(m: Machine, aliases: Aliases, imarks: bool, stmts: seq<Stmt>, l: Live)
    ensures Positions(SliceFrom(m, aliases, imarks, stmts, l).indices, |stmts|)
  {
    if stmts != [] {
      var n := |stmts| - 1;
      var v := BackStmt(m, aliases, imarks, stmts[n], l);
      if !v.live.IsEmpty() {
        SliceIndicesOrdered(m, aliases, imarks, stmts[..n], v.live);
      }
    }
  }

  /** One turn of the backward loop. */
  lemma SliceUnfold(m: Machine, aliases: Aliases, imarks: bool, stmts: seq<Stmt>, k: nat, l: Live)
    requires k < |stmts|
    ensures var v := BackStmt(m, aliases, imarks, stmts[k], l);
            var here: seq<nat> := if v.inSlice then [k] else [];
            SliceFrom(m, aliases, imarks, stmts[..k + 1], l) ==
              if v.live.IsEmpty() then Slice(here, v.live)
              else var r := SliceFrom(m, aliases, imarks, stmts[..k], v.live); Slice(r.indices + here, r.live)
  {
    assert stmts[..k + 1][..k] == stmts[..k];
  }

  lemma PickCons(stmts: seq<Stmt>, k: nat, indices: seq<nat>)
    requires k < |stmts| && InBlock(indices, |stmts|)
    ensures InBlock([k] + indices, |stmts|)
    ensures Pick(stmts, [k] + indices) == [stmts[k]] + Pick(stmts, indices)
  {
  }

  /** What is left to do, `rest`, and what was found, `done`, make up the whole slice. */
  predicate Completes(rest: Slice, done: seq<nat>, whole: Slice) {
    rest.indices + done == whole.indices && rest.live == whole.live
  }

  lemma LoopTurn(m: Machine, aliases: Aliases, imarks: bool, stmts: seq<Stmt>, k: nat, l: Live, done: seq<nat>, whole: Slice)
    requires k < |stmts| && Completes(SliceFrom(m, aliases, imarks, stmts[..k + 1], l), done, whole)
    ensures var v := BackStmt(m, aliases, imarks, stmts[k], l);
            var now := if v.inSlice then [k] + done else done;
            if v.live.IsEmpty() then whole == Slice(now, v.live)
            else Completes(SliceFrom(m, aliases, imarks, stmts[..k], v.live), now, whole)
  {
    SliceUnfold(m, aliases, imarks, stmts, k, l);
    var v := BackStmt(m, aliases, imarks, stmts[k], l);
    var here: seq<nat> := if v.inSlice then [k] else [];
    var before := SliceFrom(m, aliases, imarks, stmts[..k], v.live).indices;
    assert before + here + done == before + (here + done);
  }

  /** The backward loop: prepends every sliced statement, leaves `state` at the final live sets. */
  method SliceLoop(m: Machine, aliases: Aliases, imarks: bool, stmts: seq<Stmt>, state: LightState)
    returns (sliced: seq<Stmt>, indices: seq<nat>)
    modifies state
    ensures Slice(indices, state.View()) == SliceFrom(m, aliases, imarks, stmts, old(state.View()))
    ensures InBlock(indices, |stmts|)
    ensures sliced == Pick(stmts, indices)
  {
    sliced, indices := [], [];
    ghost var whole := SliceFrom(m, aliases, imarks, stmts, state.View());
    var k := |stmts|;
    assert stmts[..k] == stmts;
    while k > 0
      invariant 0 <= k <= |stmts|
      invariant InBlock(indices, |stmts|)
      invariant sliced == Pick(stmts, indices)
      invariant Completes(SliceFrom(m, aliases, imarks, stmts[..k], state.View()), indices, whole)
    {
      k := k - 1;
      LoopTurn(m, aliases, imarks, stmts, k, state.View(), indices, whole);
      var inSlice := state.BackwardStmt(m, aliases, imarks, stmts[k]);
      if inSlice {
        PickCons(stmts, k, indices);
        sliced := [stmts[k]] + sliced;
        indices := [k] + indices;
      }
      if state.temps == {} && state.regs == {} && state.cells == {} {
        return;
      }
    }
  }

  /** Constructing a slicer: refuses an empty target, then runs both passes. */
  method SliceBlock(m: Machine, stmts: seq<Stmt>, temps: set<Tmp>, regs: set<Reg>, cells: set<Word>, imarks: bool)
    returns (r: Result<SlicedBlock, SlicerError>)
    ensures r.Err? <==> temps == {} && regs == {} && cells == {}
    ensures r.Ok? ==>
              var s := SliceFrom(m, AliasBlock(m, stmts), imarks, stmts, Targets(m, temps, regs, cells));
              && r.value.indices == s.indices
              && Positions(s.indices, |stmts|)
              && r.value.stmts == Pick(stmts, s.indices)
              && r.value.finalRegs == s.live.regs
              && r.value.finalCells == s.live.cells
  {
    if temps == {} && regs == {} && cells == {} {
      return Err(NoTargets);
    }
    var aliases := AliasAnalysis(m, stmts);
    var state := new LightState(temps, set r | r in regs :: m.Base(r), cells);
    SliceIndicesOrdered(m, aliases, imarks, stmts, state.View());
    var sliced, indices := SliceLoop(m, aliases, imarks, stmts, state);
    r := Ok(SlicedBlock(sliced, indices, state.regs, state.cells));
  }
}
