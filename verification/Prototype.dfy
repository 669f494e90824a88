/** `arg_locs` of a System V AMD64 prototype: every argument of every call, end to end. */
module Prototype {
  import opened Wrappers
  import opened TypeLayout
  import opened Leaves
  import opened Locations
  import opened Classify
  import opened ArgSession

  // ------------------------------------------------- the classes of a type, as a function

  function MergedClass(ls: seq<Leaf>, c: nat): Class
    requires ScalarLeaves(ls)
  {
    if ls == [] then NoClass
    else
      var n := |ls| - 1;
      Combine(MergedClass(ls[..n], c), if Overlaps(ls[n], c) then ScalarClass(ls[n].ty) else NoClass)
  }

  lemma {:induction false} MergedClassIs(ls: seq<Leaf>, c: nat)
    requires ScalarLeaves(ls)
    ensures IsMergedClass(ls, c, MergedClass(ls, c))
  {
    if ls != [] {
      var n := |ls| - 1;
      MergedClassIs(ls[..n], c);
      var before, after := MergedClass(ls[..n], c), MergedClass(ls, c);
      if after == before && after != NoClass {
        var i :| 0 <= i < |ls[..n]| && Overlaps(ls[..n][i], c) && ScalarClass(ls[..n][i].ty) == before;
        assert ls[i] == ls[..n][i];
      }
      forall i | 0 <= i < |ls| && Overlaps(ls[i], c) ensures Rank(ScalarClass(ls[i].ty)) <= Rank(after) {
        if i < n { assert ls[i] == ls[..n][i]; }
      }
    }
  }

  function ClassesOf(t: SimType): seq<Class>
    requires Wf(t)
  {
    var n := Chunks(Size(t), WORD);
    if Scalar(t) then Repeat(ScalarClass(t), n)
    else if Size(t) > MAX_AGGREGATE || AnyPacked(t) then Repeat(Memory, n)
    else
      LeavesContained(t, 0);
      Finish(seq(n, c requires 0 <= c < n => MergedClass(LeavesAt(t, 0), c)))
  }

  lemma ClassesOfClassified(t: SimType)
    requires Wf(t)
    ensures Classified(t, ClassesOf(t))
    ensures forall i :: 0 <= i < |ClassesOf(t)| ==> ClassesOf(t)[i] in {Sse, Integer, Memory}
    ensures Memory !in ClassesOf(t) || forall i :: 0 <= i < |ClassesOf(t)| ==> ClassesOf(t)[i] == Memory
    ensures |ClassesOf(t)| * WORD >= Size(t)
  {
    if !(Scalar(t) || Size(t) > MAX_AGGREGATE || AnyPacked(t)) {
      LeavesContained(t, 0);
      var n, ls := Chunks(Size(t), WORD), LeavesAt(t, 0);
      var merged := seq(n, c requires 0 <= c < n => MergedClass(ls, c));
      forall c | 0 <= c < n ensures IsMergedClass(ls, c, merged[c]) { MergedClassIs(ls, c); }
      FinishClassified(t, merged);
    }
  }

  // ------------------------------------------------- one argument

  /** Arrays are passed as pointers. */
  function Decay(t: SimType): SimType { if t.Array? then Num(WORD) else t }

  datatype Placed = Placed(loc: Loc, slots: seq<Loc>, cursor: Cursor)

  ghost predicate GoodSlots(slots: seq<Loc>, t: SimType)
    requires Wf(t)
  {
    WordSlots(slots) && Size(t) <= WORD * |slots|
  }

  lemma AssignGood(c: Cursor, t: SimType)
    requires Wf(t) && ValidCursor(c)
    ensures forall i :: 0 <= i < |ClassesOf(t)| ==> ClassesOf(t)[i] in {Sse, Integer, Memory}
    ensures GoodSlots(Assign(c, ClassesOf(t)).slots, t) && ValidCursor(Assign(c, ClassesOf(t)).cursor)
  {
    ClassesOfClassified(t);
    AssignFresh(c, ClassesOf(t));
  }

  function NextArg(c: Cursor, t: SimType): Placed
    requires Wf(t) && ValidCursor(c)
  {
    var a := Decay(t);
    AssignGood(c, a);
    var l := Assign(c, ClassesOf(a));
    Placed(Refine(l.slots, a, 0), l.slots, l.cursor)
  }

  /** One argument: its location holds each of its bytes once, in the slot byte of the same
      position; the slots are fresh, and all registers or all stack. */
  lemma NextArgPlacement(c: Cursor, t: SimType)
    requires Wf(t) && ValidCursor(c)
    ensures var p := NextArg(c, t);
            && FreshSlots(p.slots, c, p.cursor) && ValidCursor(p.cursor)
            && (AllRegs(p.slots) || (AllStack(p.slots) && p.cursor.fp == c.fp && p.cursor.ints == c.ints))
            && RefinesTo(p.slots, LocBytes(p.loc), BytesAt(Decay(t), 0))
            && NoRepeats(LocBytes(p.loc))
            && Between(LocBytes(p.loc), c, p.cursor)
  {
    var a := Decay(t);
    AssignGood(c, a);
    ClassesOfClassified(a);
    AssignFresh(c, ClassesOf(a));
    var p := NextArg(c, t);
    RefineBytes(p.slots, a, 0);
    RefineNoRepeats(p.slots, a);
    var ps, bs := BytesAt(a, 0), LocBytes(p.loc);
    forall i | 0 <= i < |bs| ensures Free(bs[i], c) && Taken(bs[i], p.cursor) {
      assert bs[i] == ByteOf(p.slots, ps[i]);
      assert 0 <= ps[i] / WORD < |p.slots| && 0 <= ps[i] % WORD < WORD;
    }
  }

  /** Bytes handed out between two positions of the session. */
  predicate Between(bs: seq<ByteLoc>, c: Cursor, d: Cursor) {
    Advances(c, d) && forall i :: 0 <= i < |bs| ==> Free(bs[i], c) && Taken(bs[i], d)
  }

  // ------------------------------------------------- all arguments

  predicate ValidArgs(ts: seq<SimType>) { forall i :: 0 <= i < |ts| ==> Wf(ts[i]) }

  function ArgLocs(c: Cursor, ts: seq<SimType>): seq<Loc>
    requires ValidArgs(ts) && ValidCursor(c)
    decreases ts
  {
    if ts == [] then []
    else
      var p := NextArg(c, ts[0]);
      NextArgPlacement(c, ts[0]);
      [p.loc] + ArgLocs(p.cursor, ts[1..])
  }

  function CursorAfter(c: Cursor, ts: seq<SimType>): Cursor
    requires ValidArgs(ts) && ValidCursor(c)
    decreases ts
  {
    if ts == [] then c
    else
      NextArgPlacement(c, ts[0]);
      CursorAfter(NextArg(c, ts[0]).cursor, ts[1..])
  }

  lemma NoRepeatsConcat(a: seq<ByteLoc>, b: seq<ByteLoc>, c: Cursor, d: Cursor, e: Cursor)
    requires NoRepeats(a) && NoRepeats(b) && Between(a, c, d) && Between(b, d, e)
    ensures NoRepeats(a + b) && Between(a + b, c, e)
  {
    forall i, j | 0 <= i < j < |a + b| ensures (a + b)[i] != (a + b)[j] {
      if i < |a| <= j { assert Taken(a[i], d) && Free(b[j - |a|], d); }
    }
    forall i | 0 <= i < |a + b| ensures Free((a + b)[i], c) && Taken((a + b)[i], e) {
      if i < |a| { assert Taken(a[i], d); } else { assert Free(b[i - |a|], d) && Taken(b[i - |a|], e); }
    }
  }

  /** For every list of arguments no byte of a location is used twice, within an argument or
      across arguments, and none that the session had handed out before. */
  lemma {:induction false} ArgLocsApart(c: Cursor, ts: seq<SimType>)
    requires ValidArgs(ts) && ValidCursor(c)
    ensures |ArgLocs(c, ts)| == |ts|
    ensures NoRepeats(ConcatBytes(ArgLocs(c, ts)))
    ensures Between(ConcatBytes(ArgLocs(c, ts)), c, CursorAfter(c, ts))
    decreases ts
  {
    if ts != [] {
      NextArgPlacement(c, ts[0]);
      var p := NextArg(c, ts[0]);
      ArgLocsApart(p.cursor, ts[1..]);
      var tail := ArgLocs(p.cursor, ts[1..]);
      NoRepeatsConcat(LocBytes(p.loc), ConcatBytes(tail), c, p.cursor, CursorAfter(c, ts));
      assert ([p.loc] + tail)[1..] == tail;
    }
  }

  // ------------------------------------------------- the whole prototype

  /** A MEMORY-class result is written through a hidden pointer. */
  predicate ReturnsInMemory(ret: Option<SimType>)
    requires ret.Some? ==> Wf(ret.value)
  {
    ret.Some? && Memory in ClassesOf(ret.value)
  }

  /** Scalars wider than two registers have no return location. */
  predicate Returnable(ret: Option<SimType>)
    requires ret.Some? ==> Wf(ret.value)
  {
    ret.Some? ==> Classifiable(ret.value) && !(ret.value.Num? && ret.value.bytes > 2 * WORD)
  }

  function StartCursor(ret: Option<SimType>): Cursor
    requires ret.Some? ==> Wf(ret.value)
  {
    if ReturnsInMemory(ret) then Cursor(0, 1, STACK_START) else START
  }

  function Locs(ret: Option<SimType>, ts: seq<SimType>): seq<Loc>
    requires (ret.Some? ==> Wf(ret.value)) && ValidArgs(ts)
  {
    ArgLocs(StartCursor(ret), ts)
  }

  /** The layout of a prototype: no location byte is shared, none is the return address, and rdi
      is untouched when it carries the address of a MEMORY-class result. */
  lemma PrototypeLayout(ret: Option<SimType>, ts: seq<SimType>)
    requires (ret.Some? ==> Wf(ret.value)) && ValidArgs(ts)
    ensures |Locs(ret, ts)| == |ts| && NoRepeats(ConcatBytes(Locs(ret, ts)))
    ensures forall b :: b in ConcatBytes(Locs(ret, ts)) ==>
              match b
              case RegByte(fp, i, _) => i < (if fp then FP_REGS else INT_REGS) && (ReturnsInMemory(ret) && !fp ==> i != 0)
              case StackByte(p) => p >= STACK_START
  {
    var c := StartCursor(ret);
    ArgLocsApart(c, ts);
    CursorStaysValid(c, ts);
    var bs := ConcatBytes(Locs(ret, ts));
    assert forall i :: 0 <= i < |bs| ==> Free(bs[i], c) && Taken(bs[i], CursorAfter(c, ts));
  }

  lemma {:induction false} CursorStaysValid(c: Cursor, ts: seq<SimType>)
    requires ValidArgs(ts) && ValidCursor(c)
    ensures ValidCursor(CursorAfter(c, ts))
    decreases ts
  {
    if ts != [] {
      NextArgPlacement(c, ts[0]);
      CursorStaysValid(NextArg(c, ts[0]).cursor, ts[1..]);
    }
  }

  // ------------------------------------------------- the imperative layout

  /** `SimCCSystemVAMD64.next_arg`: fails exactly when classification does, leaving the session as
      it was. */
  method NextArgLoc(session: Session, t: SimType) returns (r: Result<Loc, LayoutError>)
    requires Wf(t) && ValidCursor(session.View())
    modifies session
    ensures r.Ok? <==> Classifiable(Decay(t))
    ensures r.Ok? ==> r.value == NextArg(old(session.View()), t).loc
                      && session.View() == NextArg(old(session.View()), t).cursor
    ensures r.Err? ==> session.View() == old(session.View())
  {
    var a := Decay(t);
    var classes := ClassifyType(a);
    if classes.Err? {
      return Err(IndexError);
    }
    ClassesOfClassified(a);
    ClassifiedUnique(a, classes.value, ClassesOf(a));
    AssignGood(session.View(), a);
    var slots := session.NextSlots(classes.value);
    r := Ok(Refine(slots, a, 0));
  }

  /** The first integer argument takes rdi. */
  lemma PointerTakesRdi()
    ensures NextArg(START, Num(WORD)).cursor == Cursor(0, 1, STACK_START)
    ensures Classifiable(Num(WORD))
  {
    assert ClassesOf(Num(WORD)) == [Integer];
    assert [Integer][..0] == [];
    assert Draw(START, [Integer]) == Mapped(Layout([] + [RegLoc(false, 0, 0, WORD)], Cursor(0, 1, STACK_START)));
  }

  lemma ManyAreMemory(t: SimType, cs: seq<Class>)
    requires Wf(t) && !Scalar(t) && Classified(t, cs) && |cs| > 2
    ensures Memory in cs
  {
    assert cs[0] == Memory;
  }

  /** Whether the result is written through a hidden pointer.  Asking for its location fails when it
      cannot be classified, and when it is a scalar that needs more than the two return registers. */
  method ReturnInOutparam(ret: Option<SimType>) returns (r: Result<bool, LayoutError>)
    requires ret.Some? ==> Wf(ret.value)
    ensures r.Ok? <==> Returnable(ret)
    ensures r.Ok? ==> r.value == ReturnsInMemory(ret)
    ensures r.Err? ==> (r.error == IndexError <==> ret.Some? && !Classifiable(ret.value))
  {
    if ret.None? { return Ok(false); }
    var classes := ClassifyType(ret.value);
    if classes.Err? { return Err(IndexError); }
    ClassesOfClassified(ret.value);
    ClassifiedUnique(ret.value, classes.value, ClassesOf(ret.value));
    if Memory in classes.value { return Ok(true); }
    if |classes.value| > 2 {
      if !Scalar(ret.value) { ManyAreMemory(ret.value, classes.value); }
      return Err(NoReturnRegister);
    }
    r := Ok(false);
  }

  /** `SimCC.arg_session`. */
  method OpenSession(ret: Option<SimType>) returns (r: Result<Session, LayoutError>)
    requires ret.Some? ==> Wf(ret.value)
    ensures r.Ok? <==> Returnable(ret)
    ensures r.Ok? ==> fresh(r.value) && r.value.View() == StartCursor(ret)
    ensures r.Err? ==> (r.error == IndexError <==> ret.Some? && !Classifiable(ret.value))
  {
    var outparam := ReturnInOutparam(ret);
    if outparam.Err? { return Err(outparam.error); }
    var session := new Session();
    if outparam.value {
      PointerTakesRdi();
      var hidden := NextArgLoc(session, Num(WORD));
    }
    r := Ok(session);
  }

  lemma ArgLocsStep(c: Cursor, ts: seq<SimType>, i: nat)
    requires ValidArgs(ts) && ValidCursor(c) && i < |ts|
    ensures ValidArgs(ts[i..]) && ValidArgs(ts[i + 1..])
    ensures ValidCursor(NextArg(c, ts[i]).cursor)
    ensures ArgLocs(c, ts[i..]) == [NextArg(c, ts[i]).loc] + ArgLocs(NextArg(c, ts[i]).cursor, ts[i + 1..])
  {
    NextArgPlacement(c, ts[i]);
    assert ts[i..][0] == ts[i] && ts[i..][1..] == ts[i + 1..];
  }

  /** `SimCC.arg_locs`. */
  method LayOut(ret: Option<SimType>, ts: seq<SimType>) returns (r: Result<seq<Loc>, LayoutError>)
    requires (ret.Some? ==> Wf(ret.value)) && ValidArgs(ts)
    ensures r.Ok? <==> Returnable(ret) && forall i :: 0 <= i < |ts| ==> Classifiable(Decay(ts[i]))
    ensures r.Ok? ==> r.value == Locs(ret, ts)
  {
    var session := OpenSession(ret);
    if session.Err? { return Err(session.error); }
    r := LayOutArgs(session.value, ret, ts);
  }

  /** The loop over the arguments. */
  method LayOutArgs(session: Session, ret: Option<SimType>, ts: seq<SimType>) returns (r: Result<seq<Loc>, LayoutError>)
    requires (ret.Some? ==> Wf(ret.value)) && ValidArgs(ts) && session.View() == StartCursor(ret)
    modifies session
    ensures r.Ok? <==> forall i :: 0 <= i < |ts| ==> Classifiable(Decay(ts[i]))
    ensures r.Ok? ==> r.value == Locs(ret, ts)
  {
    var locs: seq<Loc> := [];
    ghost var goal := Locs(ret, ts);
    assert ts[0..] == ts;
    ghost var rest := goal;
    for i := 0 to |ts|
      invariant ValidCursor(session.View())
      invariant forall j :: 0 <= j < i ==> Classifiable(Decay(ts[j]))
      invariant ValidArgs(ts[i..]) && rest == ArgLocs(session.View(), ts[i..])
      invariant locs + rest == goal
    {
      ArgLocsStep(session.View(), ts, i);
      var loc := NextArgLoc(session, ts[i]);
      if loc.Err? {
        return Err(IndexError);
      }
      locs := locs + [loc.value];
      rest := rest[1..];
    }
    r := Ok(locs);
  }
}
