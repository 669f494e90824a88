/** The part of VEX that the intra-block slicer looks at, with a concrete evaluator.

A block is a list of statements over temporaries, a register file and word-sized
memory cells.  Operators, helper calls and the sub-register structure are parameters
of the evaluator (`Machine`), so every theorem about blocks holds for all of them.
*/
module Vex {

  type Tmp = nat
  type Reg = int
  type Word = int

  datatype Expr =
    | Get(offset: Reg, size: nat)
    | RdTmp(tmp: Tmp)
    | Const(value: Word)
    | Unop(op: string, arg: Expr)
    | Binop(op: string, left: Expr, right: Expr)
    | Triop(op: string, first: Expr, second: Expr, third: Expr)
    | ITE(cond: Expr, iftrue: Expr, iffalse: Expr)
    | CCall(callee: string, args: seq<Expr>)
    | Load(addr: Expr)

  datatype Stmt =
    | IMark
    | WrTmp(tmp: Tmp, data: Expr)
    | Put(offset: Reg, size: nat, data: Expr)
    | Store(addr: Expr, data: Expr)
    | LoadG(dst: Tmp, addr: Expr, alt: Expr, guard: Expr)
    | Exit(guard: Expr, boring: bool)  // a conditional exit; a run that goes on did not take it
    | Other  // AbiHint, NoOp: no effect on the state

  /** Everything the architecture decides.  `baseFn` sends a register offset to the offset
      of its base register (to itself when the architecture names none), `viewFn` extracts
      a sub-register from the base value, `mergeFn` is the base value after a write of
      `size` bytes at `offset`. */
  datatype Machine = Machine(
    baseFn: Reg -> Reg,
    viewFn: (Reg, nat, Word) -> Word,
    mergeFn: (Reg, nat, Word, Word) -> Word,
    unopFn: (string, Word) -> Word,
    binopFn: (string, Word, Word) -> Word,
    triopFn: (string, Word, Word, Word) -> Word,
    ccallFn: (string, seq<Word>) -> Word,
    sp: Reg,
    bp: Reg,
    initialSp: Word)
  {
    function Base(offset: Reg): Reg { baseFn(offset) }
    function View(offset: Reg, size: nat, v: Word): Word { viewFn(offset, size, v) }
    function Merge(offset: Reg, size: nat, was: Word, v: Word): Word { mergeFn(offset, size, was, v) }
    function ApplyUnop(op: string, a: Word): Word { unopFn(op, a) }
    function ApplyBinop(op: string, a: Word, b: Word): Word { binopFn(op, a, b) }
    function ApplyTriop(op: string, a: Word, b: Word, c: Word): Word { triopFn(op, a, b, c) }
    function Call(f: string, args: seq<Word>): Word { ccallFn(f, args) }
  }

  datatype State = State(temps: Tmp -> Word, regs: Reg -> Word, mem: Word -> Word)
  {
    function Tmp(t: Tmp): Word { temps(t) }
    function Reg(r: Reg): Word { regs(r) }
    function Cell(a: Word): Word { mem(a) }

    function SetTmp(t: Tmp, v: Word): State {
      this.(temps := (x: Tmp) => if x == t then v else Tmp(x))
    }

    function SetReg(r: Reg, v: Word): State {
      this.(regs := x => if x == r then v else Reg(x))
    }

    function SetCell(a: Word, v: Word): State {
      this.(mem := x => if x == a then v else Cell(x))
    }
  }

  function Eval(m: Machine, e: Expr, s: State): Word {
    match e
    case Get(offset, size) => m.View(offset, size, s.Reg(m.Base(offset)))
    case RdTmp(t) => s.Tmp(t)
    case Const(v) => v
    case Unop(op, a) => m.ApplyUnop(op, Eval(m, a, s))
    case Binop(op, a, b) => m.ApplyBinop(op, Eval(m, a, s), Eval(m, b, s))
    case Triop(op, a, b, c) => m.ApplyTriop(op, Eval(m, a, s), Eval(m, b, s), Eval(m, c, s))
    case ITE(c, a, b) => if Eval(m, c, s) != 0 then Eval(m, a, s) else Eval(m, b, s)
    case CCall(f, args) => m.Call(f, EvalAll(m, args, s))
    case Load(a) => s.Cell(Eval(m, a, s))
  }

  function EvalAll(m: Machine, es: seq<Expr>, s: State): seq<Word> {
    if es == [] then [] else [Eval(m, es[0], s)] + EvalAll(m, es[1..], s)
  }

  function Step(m: Machine, stmt: Stmt, s: State): State {
    match stmt
    case IMark => s
    case Exit(_, _) => s
    case Other => s
    case WrTmp(t, e) => s.SetTmp(t, Eval(m, e, s))
    case Put(offset, size, e) =>
      var r := m.Base(offset);
      s.SetReg(r, m.Merge(offset, size, s.Reg(r), Eval(m, e, s)))
    case Store(a, e) => s.SetCell(Eval(m, a, s), Eval(m, e, s))
    case LoadG(t, a, alt, g) =>
      s.SetTmp(t, if Eval(m, g, s) != 0 then s.Cell(Eval(m, a, s)) else Eval(m, alt, s))
  }

  /** Executes a block from first to last statement. */
  function Run(m: Machine, stmts: seq<Stmt>, s: State): State {
    if stmts == [] then s
    else Step(m, stmts[|stmts| - 1], Run(m, stmts[..|stmts| - 1], s))
  }
}
