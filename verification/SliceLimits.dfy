/** Where the slicer's dependency collection falls short, and exactly when it does not.

All statements here have atomic operands, as flat VEX has them.  States are those in which the
recorded aliases hold, which `AliasesSound` proves of every disciplined block. */
module SliceLimits {
  import opened Wrappers
  import opened Vex
  import opened Slicer
  import opened SliceSoundness
  import opened SliceTheorems

  /** The dependencies collected for a statement determine what it does to `l`. */
  ghost predicate Adequate(m: Machine, aliases: Aliases, stmt: Stmt, l: Live) {
    forall s: State, t: State ::
      AliasesHold(aliases, s) && AliasesHold(aliases, t) && Agree(s, t, BackStmt(m, aliases, false, stmt, l).live) ==>
        Agree(Step(m, stmt, s), Step(m, stmt, t), l)
  }

  /** The value of an operand as far as the slicer knows it. */
  function Known(aliases: Aliases, e: Expr): Option<Word>
    requires Atom(e)
  {
    match e
    case Const(v) => Some(v)
    case RdTmp(t) => if t in aliases then Some(aliases[t]) else None
  }

  lemma KnownValue(m: Machine, aliases: Aliases, e: Expr, s: State)
    requires Atom(e) && AliasesHold(aliases, s) && Known(aliases, e).Some?
    ensures Eval(m, e, s) == Known(aliases, e).value
  {
  }

  /** The aliases hold, every other temporary is `v`; register `r` holds `w`, cell `a` holds `x`. */
  function Probe(aliases: Aliases, v: Word, r: Reg, w: Word, a: Word, x: Word): State {
    State((t: Tmp) => if t in aliases then aliases[t] else v, q => if q == r then w else 0, b => if b == a then x else 0)
  }

  lemma ProbeValue(m: Machine, aliases: Aliases, e: Expr, v: Word, r: Reg, w: Word, a: Word, x: Word)
    requires Atom(e)
    ensures AliasesHold(aliases, Probe(aliases, v, r, w, a, x))
    ensures Eval(m, e, Probe(aliases, v, r, w, a, x)) == if Known(aliases, e).Some? then Known(aliases, e).value else v
  {
  }

  // ------------------------------------------------- sub-register writes

  /** For every value the operand can have, the write leaves nothing of the base register. */
  ghost predicate Overwrites(m: Machine, aliases: Aliases, offset: Reg, size: nat, data: Expr)
    requires Atom(data)
  {
    forall old1, old2, v :: Known(aliases, data) == None || Known(aliases, data) == Some(v) ==>
      m.Merge(offset, size, old1, v) == m.Merge(offset, size, old2, v)
  }

  /** A Put drops its base register from the live set although a sub-register write keeps part of
      it: adequate exactly when the write covers the base register. */
  lemma PutAdequateIffFullWidth(m: Machine, aliases: Aliases, offset: Reg, size: nat, data: Expr, l: Live)
    requires Atom(data) && m.Base(offset) in l.regs
    ensures Adequate(m, aliases, Put(offset, size, data), l) <==> Overwrites(m, aliases, offset, size, data)
    ensures Known(aliases, data) == None ==> (Overwrites(m, aliases, offset, size, data) <==> FullWidth(m, offset, size))
  {
    var stmt, r := Put(offset, size, data), m.Base(offset);
    var deps := BackStmt(m, aliases, false, stmt, l).live;
    assert deps == BackTmp(data, l.(regs := l.regs - {r}));
    if Adequate(m, aliases, stmt, l) {
      forall old1, old2, v | Known(aliases, data) == None || Known(aliases, data) == Some(v)
        ensures m.Merge(offset, size, old1, v) == m.Merge(offset, size, old2, v)
      {
        var s, t := Probe(aliases, v, r, old1, 0, 0), Probe(aliases, v, r, old2, 0, 0);
        ProbeValue(m, aliases, data, v, r, old1, 0, 0);
        ProbeValue(m, aliases, data, v, r, old2, 0, 0);
        assert Agree(s, t, deps);
        assert Agree(Step(m, stmt, s), Step(m, stmt, t), l);
        assert Step(m, stmt, s).Reg(r) == m.Merge(offset, size, old1, v);
        assert Step(m, stmt, t).Reg(r) == m.Merge(offset, size, old2, v);
      }
    }
    if Overwrites(m, aliases, offset, size, data) {
      forall s: State, t: State | AliasesHold(aliases, s) && AliasesHold(aliases, t) && Agree(s, t, deps)
        ensures Agree(Step(m, stmt, s), Step(m, stmt, t), l)
      {
        PutKeeps(m, aliases, offset, size, data, l, s, t);
      }
    }
  }

  lemma PutKeeps(m: Machine, aliases: Aliases, offset: Reg, size: nat, data: Expr, l: Live, s: State, t: State)
    requires Atom(data) && m.Base(offset) in l.regs && Overwrites(m, aliases, offset, size, data)
    requires AliasesHold(aliases, s) && AliasesHold(aliases, t)
    requires Agree(s, t, BackTmp(data, l.(regs := l.regs - {m.Base(offset)})))
    ensures Agree(Step(m, Put(offset, size, data), s), Step(m, Put(offset, size, data), t), l)
  {
    var v := Eval(m, data, s);
    assert Eval(m, data, t) == v;
    if Known(aliases, data).Some? { KnownValue(m, aliases, data, s); }
    var r := m.Base(offset);
    assert m.Merge(offset, size, s.Reg(r), v) == m.Merge(offset, size, t.Reg(r), v);
  }

  // ------------------------------------------------- operations with three operands

  datatype Words = Words(first: Word, second: Word, third: Word)

  /** Values that the three operands can have together. */
  predicate Possible(aliases: Aliases, a: Expr, b: Expr, c: Expr, u: Words)
    requires Atom(a) && Atom(b) && Atom(c)
  {
    && (Known(aliases, a).Some? ==> u.first == Known(aliases, a).value)
    && (Known(aliases, b).Some? ==> u.second == Known(aliases, b).value)
    && (Known(aliases, c).Some? ==> u.third == Known(aliases, c).value)
    && (a == b ==> u.first == u.second) && (a == c ==> u.first == u.third) && (b == c ==> u.second == u.third)
  }

  /** Values that agree on the operands kept live for another reason. */
  predicate Indistinct(aliases: Aliases, a: Expr, b: Expr, c: Expr, kept: set<Tmp>, u: Words, v: Words)
    requires Atom(a) && Atom(b) && Atom(c)
  {
    && Possible(aliases, a, b, c, u) && Possible(aliases, a, b, c, v)
    && (a.RdTmp? && a.tmp in kept ==> u.first == v.first)
    && (b.RdTmp? && b.tmp in kept ==> u.second == v.second)
    && (c.RdTmp? && c.tmp in kept ==> u.third == v.third)
  }

  /** The operation does not depend on operands other than those kept live for another reason. */
  ghost predicate IgnoresDropped(m: Machine, aliases: Aliases, op: string, a: Expr, b: Expr, c: Expr, kept: set<Tmp>)
    requires Atom(a) && Atom(b) && Atom(c)
  {
    forall u: Words, v: Words :: Indistinct(aliases, a, b, c, kept, u, v) ==>
      m.ApplyTriop(op, u.first, u.second, u.third) == m.ApplyTriop(op, v.first, v.second, v.third)
  }

  function Spread(aliases: Aliases, a: Expr, b: Expr, c: Expr, u: Words): State {
    State((t: Tmp) => if t in aliases then aliases[t] else if a == RdTmp(t) then u.first
                      else if b == RdTmp(t) then u.second else if c == RdTmp(t) then u.third else 0,
          q => 0, x => 0)
  }

  lemma SpreadValues(m: Machine, aliases: Aliases, a: Expr, b: Expr, c: Expr, u: Words)
    requires Atom(a) && Atom(b) && Atom(c) && Possible(aliases, a, b, c, u)
    ensures AliasesHold(aliases, Spread(aliases, a, b, c, u))
    ensures Eval(m, a, Spread(aliases, a, b, c, u)) == u.first
    ensures Eval(m, b, Spread(aliases, a, b, c, u)) == u.second
    ensures Eval(m, c, Spread(aliases, a, b, c, u)) == u.third
  {
  }

  /** A three-operand operation has no handler: adequate exactly when its result does not depend on
      the operands that the slicer drops. */
  lemma TriopAdequateIffConstant(m: Machine, aliases: Aliases, op: string, a: Expr, b: Expr, c: Expr, d: Tmp, l: Live)
    requires Atom(a) && Atom(b) && Atom(c) && d in l.temps
    ensures Adequate(m, aliases, WrTmp(d, Triop(op, a, b, c)), l)
       <==> IgnoresDropped(m, aliases, op, a, b, c, l.temps - {d})
  {
    var stmt, kept := WrTmp(d, Triop(op, a, b, c)), l.temps - {d};
    assert BackStmt(m, aliases, false, stmt, l).live == l.(temps := kept);
    if Adequate(m, aliases, stmt, l) {
      forall u: Words, v: Words | Indistinct(aliases, a, b, c, kept, u, v)
        ensures m.ApplyTriop(op, u.first, u.second, u.third) == m.ApplyTriop(op, v.first, v.second, v.third)
      {
        TriopShows(m, aliases, op, a, b, c, d, l, u, v);
      }
    }
    if IgnoresDropped(m, aliases, op, a, b, c, kept) {
      forall s: State, t: State | AliasesHold(aliases, s) && AliasesHold(aliases, t) && Agree(s, t, l.(temps := kept))
        ensures Agree(Step(m, stmt, s), Step(m, stmt, t), l)
      {
        TriopKeeps(m, aliases, op, a, b, c, d, l, s, t);
      }
    }
  }

  lemma TriopShows(m: Machine, aliases: Aliases, op: string, a: Expr, b: Expr, c: Expr, d: Tmp, l: Live, u: Words, v: Words)
    requires Atom(a) && Atom(b) && Atom(c) && d in l.temps && Adequate(m, aliases, WrTmp(d, Triop(op, a, b, c)), l)
    requires Indistinct(aliases, a, b, c, l.temps - {d}, u, v)
    ensures m.ApplyTriop(op, u.first, u.second, u.third) == m.ApplyTriop(op, v.first, v.second, v.third)
  {
    var stmt, deps := WrTmp(d, Triop(op, a, b, c)), l.(temps := l.temps - {d});
    assert BackStmt(m, aliases, false, stmt, l).live == deps;
    var s, t := Spread(aliases, a, b, c, u), Spread(aliases, a, b, c, v);
    SpreadValues(m, aliases, a, b, c, u);
    SpreadValues(m, aliases, a, b, c, v);
    assert Agree(s, t, deps);
    assert Agree(Step(m, stmt, s), Step(m, stmt, t), l);
    TriopStep(m, op, a, b, c, d, s);
    TriopStep(m, op, a, b, c, d, t);
  }

  lemma TriopStep(m: Machine, op: string, a: Expr, b: Expr, c: Expr, d: Tmp, s: State)
    ensures Step(m, WrTmp(d, Triop(op, a, b, c)), s).Tmp(d) == m.ApplyTriop(op, Eval(m, a, s), Eval(m, b, s), Eval(m, c, s))
  {
  }

  lemma TriopKeeps(m: Machine, aliases: Aliases, op: string, a: Expr, b: Expr, c: Expr, d: Tmp, l: Live, s: State, t: State)
    requires Atom(a) && Atom(b) && Atom(c) && d in l.temps && IgnoresDropped(m, aliases, op, a, b, c, l.temps - {d})
    requires AliasesHold(aliases, s) && AliasesHold(aliases, t) && Agree(s, t, l.(temps := l.temps - {d}))
    ensures Agree(Step(m, WrTmp(d, Triop(op, a, b, c)), s), Step(m, WrTmp(d, Triop(op, a, b, c)), t), l)
  {
    var u := Words(Eval(m, a, s), Eval(m, b, s), Eval(m, c, s));
    var v := Words(Eval(m, a, t), Eval(m, b, t), Eval(m, c, t));
    assert Possible(aliases, a, b, c, u) && Possible(aliases, a, b, c, v);
    assert m.ApplyTriop(op, u.first, u.second, u.third) == m.ApplyTriop(op, v.first, v.second, v.third);
  }

  // ------------------------------------------------- loads

  /** An address that is known and whose cell is live anyway. */
  predicate LiveAddress(aliases: Aliases, a: Expr, cells: set<Word>)
    requires Atom(a)
  {
    Known(aliases, a).Some? && Known(aliases, a).value in cells
  }

  lemma {:induction false} SomeOutside(cells: set<Word>) returns (w: Word)
    ensures w != 0 && forall c :: c in cells ==> c < w
    decreases cells
  {
    if cells == {} {
      w := 1;
    } else {
      assert (forall x :: x !in cells) ==> cells == {};
      var c :| c in cells;
      w := SomeOutside(cells - {c});
      w := if w <= c then c + 1 else w;
      if w == 0 { w := 1; }
      forall x | x in cells ensures x < w {
        if x != c { assert x in cells - {c}; }
      }
    }
  }

  /** Two states that differ in the addressed cell only, which is not live. */
  lemma Apart(m: Machine, aliases: Aliases, a: Expr, cells: set<Word>) returns (s: State, t: State, v: Word)
    requires Atom(a) && !LiveAddress(aliases, a, cells)
    ensures v != 0 && AliasesHold(aliases, s) && AliasesHold(aliases, t)
    ensures forall e :: Atom(e) ==> Eval(m, e, s) == Eval(m, e, t)
    ensures forall e :: Atom(e) ==> Eval(m, e, s) == if Known(aliases, e).Some? then Known(aliases, e).value else v
    ensures (forall x :: s.Tmp(x) == t.Tmp(x)) && (forall r :: s.Reg(r) == t.Reg(r))
    ensures forall c :: c in cells ==> s.Cell(c) == t.Cell(c)
    ensures s.Cell(Eval(m, a, s)) == 0 && t.Cell(Eval(m, a, s)) == 1
  {
    v := SomeOutside(cells);
    var w := if Known(aliases, a).Some? then Known(aliases, a).value else v;
    s, t := Probe(aliases, v, 0, 0, w, 0), Probe(aliases, v, 0, 0, w, 1);
    forall e | Atom(e)
      ensures Eval(m, e, s) == Eval(m, e, t)
      ensures Eval(m, e, s) == if Known(aliases, e).Some? then Known(aliases, e).value else v
    {
      ProbeValue(m, aliases, e, v, 0, 0, w, 0);
      ProbeValue(m, aliases, e, v, 0, 0, w, 1);
    }
    ProbeValue(m, aliases, a, v, 0, 0, w, 0);
    assert w !in cells;
  }

  /** Only a load through an aliased temporary makes its cell live: a load is adequate exactly when its
      address is one, or a constant whose cell is live already.  In particular no load through a
      temporary without an alias is. */
  lemma LoadAdequateIff(m: Machine, aliases: Aliases, d: Tmp, a: Expr, l: Live)
    requires Atom(a) && d in l.temps
    ensures Adequate(m, aliases, WrTmp(d, Load(a)), l)
       <==> (a.RdTmp? && a.tmp in aliases) || LiveAddress(aliases, a, l.cells)
  {
    var stmt := WrTmp(d, Load(a));
    var deps := BackStmt(m, aliases, false, stmt, l).live;
    assert l.temps - {d} <= deps.temps && l.regs == deps.regs && l.cells <= deps.cells;
    if (a.RdTmp? && a.tmp in aliases) || LiveAddress(aliases, a, l.cells) {
      forall s: State, t: State | AliasesHold(aliases, s) && AliasesHold(aliases, t) && Agree(s, t, deps)
        ensures Agree(Step(m, stmt, s), Step(m, stmt, t), l)
      {
        var w := Known(aliases, a).value;
        KnownValue(m, aliases, a, s);
        KnownValue(m, aliases, a, t);
        assert w in deps.cells && s.Cell(w) == t.Cell(w);
        assert Eval(m, Load(a), s) == Eval(m, Load(a), t);
      }
    } else {
      var s, t, v := Apart(m, aliases, a, l.cells);
      assert deps.cells == l.cells && Agree(s, t, deps);
      assert Step(m, stmt, s).Tmp(d) == 0 && Step(m, stmt, t).Tmp(d) == 1;
    }
  }

  /** A guarded load keeps its address but not the cell behind it, even when the address is aliased:
      adequate exactly when the guard is known to be false, or the cell is live already. */
  lemma GuardedLoadAdequateIff(m: Machine, aliases: Aliases, d: Tmp, a: Expr, alt: Expr, g: Expr, l: Live)
    requires Atom(a) && Atom(alt) && Atom(g) && d in l.temps
    ensures Adequate(m, aliases, LoadG(d, a, alt, g), l)
       <==> Known(aliases, g) == Some(0) || LiveAddress(aliases, a, l.cells)
  {
    var stmt := LoadG(d, a, alt, g);
    var deps := BackStmt(m, aliases, false, stmt, l).live;
    assert deps.cells == l.cells && deps.regs == l.regs && l.temps - {d} <= deps.temps;
    if Known(aliases, g) == Some(0) || LiveAddress(aliases, a, l.cells) {
      forall s: State, t: State | AliasesHold(aliases, s) && AliasesHold(aliases, t) && Agree(s, t, deps)
        ensures Agree(Step(m, stmt, s), Step(m, stmt, t), l)
      {
        GuardedLoadKeeps(m, aliases, d, a, alt, g, l, s, t);
      }
    } else {
      var s, t, v := Apart(m, aliases, a, l.cells);
      assert Agree(s, t, deps);
      assert Eval(m, g, s) != 0 && Eval(m, g, t) != 0;
      assert Step(m, stmt, s).Tmp(d) == 0 && Step(m, stmt, t).Tmp(d) == 1;
    }
  }

  lemma GuardedLoadKeeps(m: Machine, aliases: Aliases, d: Tmp, a: Expr, alt: Expr, g: Expr, l: Live, s: State, t: State)
    requires Atom(a) && Atom(alt) && Atom(g) && d in l.temps
    requires Known(aliases, g) == Some(0) || LiveAddress(aliases, a, l.cells)
    requires AliasesHold(aliases, s) && AliasesHold(aliases, t)
    requires Agree(s, t, BackStmt(m, aliases, false, LoadG(d, a, alt, g), l).live)
    ensures Agree(Step(m, LoadG(d, a, alt, g), s), Step(m, LoadG(d, a, alt, g), t), l)
  {
    assert Eval(m, g, s) == Eval(m, g, t) && Eval(m, a, s) == Eval(m, a, t) && Eval(m, alt, s) == Eval(m, alt, t);
    if Known(aliases, g) == Some(0) {
      KnownValue(m, aliases, g, s);
    } else {
      KnownValue(m, aliases, a, s);
      assert s.Cell(Eval(m, a, s)) == t.Cell(Eval(m, a, s));
    }
  }

  // ------------------------------------------------- stores

  /** The cell a store writes may be live: it is known and live, or it is not known and some are. */
  predicate MayHit(aliases: Aliases, a: Expr, cells: set<Word>)
    requires Atom(a)
  {
    if Known(aliases, a).Some? then Known(aliases, a).value in cells else cells != {}
  }

  /** Only a store through an aliased temporary is ever in the slice.  Leaving one out is harmless
      exactly when it cannot hit a live cell: never for a constant address whose cell is live, and for
      an unknown address only when no cell is live. */
  lemma SkippedStoreHarmlessIff(m: Machine, aliases: Aliases, a: Expr, data: Expr, l: Live)
    requires Atom(a) && Atom(data)
    ensures BackStmt(m, aliases, false, Store(a, data), l).inSlice <==> a.RdTmp? && LiveAddress(aliases, a, l.cells)
    ensures (forall s: State :: AliasesHold(aliases, s) ==> Agree(Step(m, Store(a, data), s), s, l))
       <==> !MayHit(aliases, a, l.cells)
  {
    var stmt := Store(a, data);
    if MayHit(aliases, a, l.cells) {
      assert (forall x :: x !in l.cells) ==> l.cells == {};
      var c :| c in l.cells && (Known(aliases, a).Some? ==> c == Known(aliases, a).value);
      var v := if Known(aliases, data).Some? then Known(aliases, data).value else c;
      var s := Probe(aliases, c, 0, 0, c, v + 1);
      ProbeValue(m, aliases, a, c, 0, 0, c, v + 1);
      ProbeValue(m, aliases, data, c, 0, 0, c, v + 1);
      assert Step(m, stmt, s).Cell(c) == v && s.Cell(c) == v + 1;
      assert !Agree(Step(m, stmt, s), s, l);
    } else {
      forall s: State | AliasesHold(aliases, s) ensures Agree(Step(m, stmt, s), s, l) {
        if Known(aliases, a).Some? { KnownValue(m, aliases, a, s); }
      }
    }
  }

  // ------------------------------------------------- whole blocks

  lemma RunOne(m: Machine, a: Stmt, s: State)
    ensures Run(m, [a], s) == Step(m, a, s)
  {
    assert [] + [a] == [a];
    RunAppend(m, [], a, s);
  }

  lemma RunTwo(m: Machine, a: Stmt, b: Stmt, s: State)
    ensures Run(m, [a, b], s) == Step(m, b, Step(m, a, s))
  {
    assert [a] + [b] == [a, b];
    RunAppend(m, [a], b, s);
    RunOne(m, a, s);
  }

  lemma RunThree(m: Machine, a: Stmt, b: Stmt, c: Stmt, s: State)
    ensures Run(m, [a, b, c], s) == Step(m, c, Step(m, b, Step(m, a, s)))
  {
    assert [a, b] + [c] == [a, b, c];
    RunAppend(m, [a, b], c, s);
    RunTwo(m, a, b, s);
  }

  lemma RunFour(m: Machine, a: Stmt, b: Stmt, c: Stmt, d: Stmt, s: State)
    ensures Run(m, [a, b, c, d], s) == Step(m, d, Step(m, c, Step(m, b, Step(m, a, s))))
  {
    assert [a, b, c] + [d] == [a, b, c, d];
    RunAppend(m, [a, b, c], d, s);
    RunThree(m, a, b, c, s);
  }

  /** The slice of a block by its last statement and the slice of the rest. */
  lemma KeptLast(m: Machine, aliases: Aliases, front: seq<Stmt>, last: Stmt, l: Live)
    ensures var v := BackStmt(m, aliases, false, last, l);
            Kept(m, aliases, false, front + [last], l)
            == (if v.live.IsEmpty() then [] else Kept(m, aliases, false, front, v.live)) + (if v.inSlice then [last] else [])
  {
    assert (front + [last])[..|front|] == front;
    KeptUnfold(m, aliases, false, front + [last], l);
  }

  lemma AliasLast(m: Machine, front: seq<Stmt>, last: Stmt)
    ensures AliasBlock(m, front + [last]) == AliasStmt(m, AliasBlock(m, front), last)
  {
    assert (front + [last])[..|front|] == front;
  }

  /** A full write of a register followed by a partial one: the slice for the register keeps only the
      second, so the bytes that the first wrote are those of the entry state. */
  lemma PartialPutMissesWrite(m: Machine, aliases: Aliases, r: Reg, v: Word, w: Word, s: State)
    requires m.Base(r) == r
    ensures var full, part := Put(r, 8, Const(v)), Put(r, 1, Const(w));
            && Kept(m, aliases, false, [full, part], Live({}, {r}, {})) == [part]
            && Run(m, [full, part], s).Reg(r) == m.Merge(r, 1, m.Merge(r, 8, s.Reg(r), v), w)
            && Run(m, [part], s).Reg(r) == m.Merge(r, 1, s.Reg(r), w)
  {
    var full, part := Put(r, 8, Const(v)), Put(r, 1, Const(w));
    assert [full] + [part] == [full, part];
    KeptLast(m, aliases, [full], part, Live({}, {r}, {}));
    RunTwo(m, full, part, s);
    RunOne(m, part, s);
  }

  /** The operands of a three-operand operation are not computed by its slice. */
  lemma TriopMissesOperand(m: Machine, aliases: Aliases, op: string, v: Word, s: State)
    ensures var def, use := WrTmp(0, Const(v)), WrTmp(1, Triop(op, Const(0), RdTmp(0), RdTmp(0)));
            && Kept(m, aliases, false, [def, use], Live({1}, {}, {})) == [use]
            && Run(m, [def, use], s).Tmp(1) == m.ApplyTriop(op, 0, v, v)
            && Run(m, [use], s).Tmp(1) == m.ApplyTriop(op, 0, s.Tmp(0), s.Tmp(0))
  {
    var def, use := WrTmp(0, Const(v)), WrTmp(1, Triop(op, Const(0), RdTmp(0), RdTmp(0)));
    assert [def] + [use] == [def, use];
    KeptLast(m, aliases, [def], use, Live({1}, {}, {}));
    RunTwo(m, def, use, s);
    RunOne(m, use, s);
    TriopStep(m, op, Const(0), RdTmp(0), RdTmp(0), 1, s);
    TriopStep(m, op, Const(0), RdTmp(0), RdTmp(0), 1, Step(m, def, s));
    assert Eval(m, RdTmp(0), s) == s.Tmp(0) && Eval(m, RdTmp(0), Step(m, def, s)) == v;
  }

  /** Registers of eight bytes, partial writes of the lowest byte, sums of three operands. */
  const PLAIN: Machine := Machine(
    o => o, (o, size, v) => v, (o, size, was, v) => if size == 8 then v else was - was % 256 + v,
    (op, a) => a, (op, a, b) => a + b, (op, a, b, c) => a + b + c, (f, args) => 0, 48, 56, 0)

  const ZERO: State := State((t: Tmp) => 0, r => 0, a => 0)

  /** On a plain machine both slices give a wrong value. */
  lemma WrongOnPlainMachine()
    ensures Run(PLAIN, [Put(16, 8, Const(512)), Put(16, 1, Const(7))], ZERO).Reg(16) == 519
    ensures Run(PLAIN, [Put(16, 1, Const(7))], ZERO).Reg(16) == 7
    ensures Run(PLAIN, [WrTmp(0, Const(5)), WrTmp(1, Triop("op", Const(0), RdTmp(0), RdTmp(0)))], ZERO).Tmp(1) == 10
    ensures Run(PLAIN, [WrTmp(1, Triop("op", Const(0), RdTmp(0), RdTmp(0)))], ZERO).Tmp(1) == 0
  {
    PartialPutMissesWrite(PLAIN, map[], 16, 512, 7, ZERO);
    TriopMissesOperand(PLAIN, map[], "op", 5, ZERO);
  }

  const POINT: Stmt := WrTmp(0, Const(100))
  const FILL: Stmt := Store(RdTmp(0), Const(7))

  lemma FilledCell(m: Machine, s: State)
    ensures AliasBlock(m, [POINT, FILL]) == map[0 := 100]
    ensures Run(m, [POINT, FILL], s).Cell(100) == 7
  {
    AliasLast(m, [], POINT);
    AliasLast(m, [POINT], FILL);
    assert [] + [POINT] == [POINT] && [POINT] + [FILL] == [POINT, FILL];
    RunTwo(m, POINT, FILL, s);
  }

  /** The store that fills a cell is left out when a guarded load reads it, so the slice loads what
      the cell held before. */
  lemma GuardedLoadMissesStore(m: Machine, s: State)
    ensures var load := LoadG(1, RdTmp(0), Const(0), Const(1));
            var b := [POINT, FILL, load];
            && Kept(m, AliasBlock(m, b), false, b, Live({1}, {}, {})) == [POINT, load]
            && Run(m, b, s).Tmp(1) == 7
            && Run(m, [POINT, load], s).Tmp(1) == s.Cell(100)
  {
    var load := LoadG(1, RdTmp(0), Const(0), Const(1));
    var aliases, l, l2 := map[0 := 100], Live({1}, {}, {}), Live({0}, {}, {});
    FilledCell(m, s);
    AliasLast(m, [POINT, FILL], load);
    assert [POINT, FILL] + [load] == [POINT, FILL, load] && [POINT] + [FILL] == [POINT, FILL] && [] + [POINT] == [POINT];
    KeptLast(m, aliases, [POINT, FILL], load, l);
    assert BackStmt(m, aliases, false, load, l) == Verdict(true, l2);
    KeptLast(m, aliases, [POINT], FILL, l2);
    KeptLast(m, aliases, [], POINT, l2);
    RunThree(m, POINT, FILL, load, s);
    RunTwo(m, POINT, FILL, s);
    RunTwo(m, POINT, load, s);
  }

  lemma LoadStep(m: Machine, d: Tmp, a: Expr, s: State)
    ensures Step(m, WrTmp(d, Load(a)), s).Tmp(d) == s.Cell(Eval(m, a, s))
  {
  }

  /** The same with a plain load from the constant address. */
  lemma ConstantLoadMissesStore(m: Machine, s: State)
    ensures var load := WrTmp(1, Load(Const(100)));
            var b := [POINT, FILL, load];
            && Kept(m, AliasBlock(m, b), false, b, Live({1}, {}, {})) == [load]
            && Run(m, b, s).Tmp(1) == 7
            && Run(m, [load], s).Tmp(1) == s.Cell(100)
  {
    var load := WrTmp(1, Load(Const(100)));
    FilledCell(m, s);
    AliasLast(m, [POINT, FILL], load);
    assert [POINT, FILL] + [load] == [POINT, FILL, load];
    KeptLast(m, map[0 := 100], [POINT, FILL], load, Live({1}, {}, {}));
    RunThree(m, POINT, FILL, load, s);
    RunTwo(m, POINT, FILL, s);
    RunOne(m, load, s);
    LoadStep(m, 1, Const(100), s);
    LoadStep(m, 1, Const(100), Run(m, [POINT, FILL], s));
  }

  /** A store to a constant address is left out although its cell is the target. */
  lemma ConstantStoreDropped(m: Machine, s: State)
    ensures var b := [Store(Const(100), Const(7))];
            && Kept(m, AliasBlock(m, b), false, b, Live({}, {}, {100})) == []
            && Run(m, b, s).Cell(100) == 7
  {
    var store := Store(Const(100), Const(7));
    assert [] + [store] == [store];
    AliasLast(m, [], store);
    KeptLast(m, map[], [], store, Live({}, {}, {100}));
    RunOne(m, store, s);
  }

  /** A whole block that overwrites the cell asked for through an unknown address: its slice is empty. */
  lemma UnknownStoreDropped(m: Machine, s: State, r: Reg, size: nat)
    requires r != m.sp && r != m.bp
    requires m.View(r, size, s.Reg(m.Base(r))) == 100
    ensures var block := [WrTmp(0, Get(r, size)), FILL];
            && Kept(m, AliasBlock(m, block), false, block, Live({}, {}, {100})) == []
            && Run(m, block, s).Cell(100) == 7
  {
    var get, l := WrTmp(0, Get(r, size)), Live({}, {}, {100});
    assert [] + [get] == [get] && [get] + [FILL] == [get, FILL];
    AliasLast(m, [], get);
    AliasLast(m, [get], FILL);
    KeptLast(m, map[], [get], FILL, l);
    KeptLast(m, map[], [], get, l);
    RunTwo(m, get, FILL, s);
  }

  /** A load through an unknown address that happens to be the cell filled before: the slice has the
      load and its address, but not the store. */
  lemma UnknownLoadMissesStore(m: Machine, s: State, r: Reg, size: nat)
    requires r != m.sp && r != m.bp
    requires m.View(r, size, s.Reg(m.Base(r))) == 100
    ensures var get, load := WrTmp(1, Get(r, size)), WrTmp(2, Load(RdTmp(1)));
            var b := [POINT, FILL, get, load];
            && Kept(m, AliasBlock(m, b), false, b, Live({2}, {}, {})) == [get, load]
            && Run(m, b, s).Tmp(2) == 7
            && Run(m, [get, load], s).Tmp(2) == s.Cell(100)
  {
    UnknownLoadSlice(m, r, size);
    UnknownLoadRun(m, s, r, size);
  }

  lemma UnknownLoadSlice(m: Machine, r: Reg, size: nat)
    requires r != m.sp && r != m.bp
    ensures var get, load := WrTmp(1, Get(r, size)), WrTmp(2, Load(RdTmp(1)));
            var b := [POINT, FILL, get, load];
            Kept(m, AliasBlock(m, b), false, b, Live({2}, {}, {})) == [get, load]
  {
    var get, load := WrTmp(1, Get(r, size)), WrTmp(2, Load(RdTmp(1)));
    var aliases, q := map[0 := 100], m.Base(r);
    FilledCell(m, ZERO);
    AliasLast(m, [POINT, FILL], get);
    AliasLast(m, [POINT, FILL, get], load);
    assert [POINT, FILL] + [get] == [POINT, FILL, get] && [POINT, FILL, get] + [load] == [POINT, FILL, get, load];
    KeptLast(m, aliases, [POINT, FILL, get], load, Live({2}, {}, {}));
    assert BackStmt(m, aliases, false, load, Live({2}, {}, {})) == Verdict(true, Live({1}, {}, {}));
    KeptLast(m, aliases, [POINT, FILL], get, Live({1}, {}, {}));
    assert BackStmt(m, aliases, false, get, Live({1}, {}, {})) == Verdict(true, Live({}, {q}, {}));
    NothingKept(m, aliases, q);
  }

  lemma UnknownLoadRun(m: Machine, s: State, r: Reg, size: nat)
    requires m.View(r, size, s.Reg(m.Base(r))) == 100
    ensures var get, load := WrTmp(1, Get(r, size)), WrTmp(2, Load(RdTmp(1)));
            Run(m, [POINT, FILL, get, load], s).Tmp(2) == 7 && Run(m, [get, load], s).Tmp(2) == s.Cell(100)
  {
    var get, load := WrTmp(1, Get(r, size)), WrTmp(2, Load(RdTmp(1)));
    var filled := Run(m, [POINT, FILL], s);
    RunFour(m, POINT, FILL, get, load, s);
    RunTwo(m, POINT, FILL, s);
    FilledCell(m, s);
    RunTwo(m, get, load, s);
    LoadStep(m, 2, RdTmp(1), Step(m, get, s));
    LoadStep(m, 2, RdTmp(1), Step(m, get, filled));
    assert Step(m, get, s).Tmp(1) == 100 && Step(m, get, filled).Tmp(1) == 100;
    assert Step(m, get, filled).Cell(100) == 7;
  }

  lemma NothingKept(m: Machine, aliases: Aliases, q: Reg)
    requires aliases == map[0 := 100]
    ensures Kept(m, aliases, false, [POINT, FILL], Live({}, {q}, {})) == []
  {
    var l := Live({}, {q}, {});
    assert [POINT] + [FILL] == [POINT, FILL] && [] + [POINT] == [POINT];
    KeptLast(m, aliases, [POINT], FILL, l);
    KeptLast(m, aliases, [], POINT, l);
  }
}
