/** Laying out the arguments of a System V AMD64 call (section 3.2.3 of the psABI): a session of
    register and stack iterators, rolled back when an argument does not fit in registers. */
module ArgSession {
  import opened Wrappers
  import opened TypeLayout
  import opened Leaves
  import opened Locations
  import opened Classify

  const INT_REGS: nat := 6   // rdi, rsi, rdx, rcx, r8, r9
  const FP_REGS: nat := 8    // xmm0 .. xmm7
  const STACK_START: nat := 8  // the return address comes first

  /** The positions of the three iterators, as `getstate` returns them. */
  datatype Cursor = Cursor(fp: nat, ints: nat, both: nat)

  const START := Cursor(0, 0, STACK_START)

  predicate ValidCursor(c: Cursor) { c.fp <= FP_REGS && c.ints <= INT_REGS }

  datatype Layout = Layout(slots: seq<Loc>, cursor: Cursor)
  datatype Attempt = Mapped(layout: Layout) | StopIteration

  /** One slot per class, in order; fails when a register list is exhausted. */
  function Draw(c: Cursor, classes: seq<Class>): Attempt
    requires forall i :: 0 <= i < |classes| ==> classes[i] in {Sse, Integer, Memory}
  {
    if classes == [] then Mapped(Layout([], c))
    else
      var n := |classes| - 1;
      var front := Draw(c, classes[..n]);
      if front.StopIteration? then StopIteration
      else
        var slots, at := front.layout.slots, front.layout.cursor;
        match classes[n]
        case Memory => Mapped(Layout(slots + [StackLoc(at.both, WORD)], at.(both := at.both + WORD)))
        case Integer =>
          if at.ints >= INT_REGS then StopIteration
          else Mapped(Layout(slots + [RegLoc(false, at.ints, 0, WORD)], at.(ints := at.ints + 1)))
        case _ =>
          if at.fp >= FP_REGS then StopIteration
          else Mapped(Layout(slots + [RegLoc(true, at.fp, 0, WORD)], at.(fp := at.fp + 1)))
  }

  /** `n` consecutive stack words. */
  function StackSlots(from: nat, n: nat): seq<Loc> { seq(n, i requires 0 <= i < n => StackLoc(from + WORD * i, WORD)) }

  function Assign(c: Cursor, classes: seq<Class>): Layout
    requires forall i :: 0 <= i < |classes| ==> classes[i] in {Sse, Integer, Memory}
  {
    var a := Draw(c, classes);
    if a.Mapped? then a.layout
    else Layout(StackSlots(c.both, |classes|), c.(both := c.both + WORD * |classes|))
  }

  /** The mutable session: list iterators for the registers, a counter for the stack. */
  class Session {
    var fp: nat
    var ints: nat
    var both: nat

    ghost function View(): Cursor
      reads this
    {
      Cursor(fp, ints, both)
    }

    constructor ()
      ensures View() == START
    {
      fp, ints, both := 0, 0, STACK_START;
    }

    method GetState() returns (c: Cursor)
      ensures c == View()
    {
      c := Cursor(fp, ints, both);
    }

    method SetState(c: Cursor)
      modifies this
      ensures View() == c
    {
      fp, ints, both := c.fp, c.ints, c.both;
    }

    method NextInt() returns (slot: Option<Loc>)
      modifies this`ints
      ensures old(ints) >= INT_REGS ==> slot == None && ints == old(ints)
      ensures old(ints) < INT_REGS ==> slot == Some(RegLoc(false, old(ints), 0, WORD)) && ints == old(ints) + 1
    {
      if ints >= INT_REGS { return None; }
      slot := Some(RegLoc(false, ints, 0, WORD));
      ints := ints + 1;
    }

    method NextFp() returns (slot: Option<Loc>)
      modifies this`fp
      ensures old(fp) >= FP_REGS ==> slot == None && fp == old(fp)
      ensures old(fp) < FP_REGS ==> slot == Some(RegLoc(true, old(fp), 0, WORD)) && fp == old(fp) + 1
    {
      if fp >= FP_REGS { return None; }
      slot := Some(RegLoc(true, fp, 0, WORD));
      fp := fp + 1;
    }

    method NextBoth() returns (slot: Loc)
      modifies this`both
      ensures slot == StackLoc(old(both), WORD) && both == old(both) + WORD
    {
      slot := StackLoc(both, WORD);
      both := both + WORD;
    }

    /** The slots of one argument.  When a register list runs out half way, every iterator goes
        back to where it was and the whole argument takes stack words. */
    method NextSlots(classes: seq<Class>) returns (slots: seq<Loc>)
      requires forall i :: 0 <= i < |classes| ==> classes[i] in {Sse, Integer, Memory}
      modifies this
      ensures Layout(slots, View()) == Assign(old(View()), classes)
    {
      var saved := GetState();
      slots := [];
      var exhausted := false;
      var i := 0;
      while i < |classes| && !exhausted
        invariant 0 <= i <= |classes|
        invariant !exhausted ==> Draw(saved, classes[..i]) == Mapped(Layout(slots, View()))
        invariant exhausted ==> i < |classes| && Draw(saved, classes[..i + 1]) == StopIteration
        decreases |classes| - i, !exhausted
      {
        assert classes[..i + 1][..i] == classes[..i];
        if classes[i] == Memory {
          var slot := NextBoth();
          slots := slots + [slot];
        } else {
          var slot: Option<Loc>;
          if classes[i] == Integer { slot := NextInt(); } else { slot := NextFp(); }
          if slot.None? { exhausted := true; } else { slots := slots + [slot.value]; }
        }
        if !exhausted { i := i + 1; }
      }
      if exhausted {
        StopStays(saved, classes, i + 1);
        SetState(saved);
        slots := [];
        for k := 0 to |classes|
          invariant View() == saved.(both := saved.both + WORD * k)
          invariant slots == StackSlots(saved.both, k)
        {
          var slot := NextBoth();
          slots := slots + [slot];
        }
      } else {
        assert classes[..|classes|] == classes;
      }
    }
  }

  lemma {:induction false} StopStays(c: Cursor, classes: seq<Class>, n: nat)
    requires n <= |classes|
    requires forall i :: 0 <= i < |classes| ==> classes[i] in {Sse, Integer, Memory}
    requires Draw(c, classes[..n]) == StopIteration
    ensures Draw(c, classes) == StopIteration
  {
    if n == |classes| {
      assert classes[..n] == classes;
    } else {
      var k := |classes| - 1;
      assert classes[..k][..n] == classes[..n];
      StopStays(c, classes[..k], n);
    }
  }

  // ------------------------------------------------- what one argument takes

  /** A byte that lies behind every iterator, and one that lies in front of every iterator. */
  predicate Taken(b: ByteLoc, c: Cursor) {
    match b
    case RegByte(fp, i, _) => i < if fp then c.fp else c.ints
    case StackByte(p) => p < c.both
  }

  predicate Free(b: ByteLoc, c: Cursor) { !Taken(b, c) }

  predicate Advances(c: Cursor, d: Cursor) { c.fp <= d.fp && c.ints <= d.ints && c.both <= d.both }

  predicate AllRegs(slots: seq<Loc>) { forall i :: 0 <= i < |slots| ==> slots[i].RegLoc? }
  predicate AllStack(slots: seq<Loc>) { forall i :: 0 <= i < |slots| ==> slots[i].StackLoc? }

  /** Fresh word slots between two positions of the session. */
  ghost predicate FreshSlots(slots: seq<Loc>, c: Cursor, d: Cursor) {
    && WordSlots(slots) && SlotsApart(slots) && Advances(c, d)
    && forall i, x :: 0 <= i < |slots| && 0 <= x < WORD ==>
         Free(PlainByte(slots[i], x), c) && Taken(PlainByte(slots[i], x), d)
  }

  lemma FreshAppend(slots: seq<Loc>, s: Loc, c: Cursor, d: Cursor, e: Cursor)
    requires FreshSlots(slots, c, d) && FreshSlots([s], d, e)
    ensures FreshSlots(slots + [s], c, e)
  {
    var all := slots + [s];
    assert [s][0] == s;
    forall i, x | 0 <= i < |all| && 0 <= x < WORD
      ensures Free(PlainByte(all[i], x), c) && Taken(PlainByte(all[i], x), e)
    {
      if i < |slots| {
        assert all[i] == slots[i] && Taken(PlainByte(slots[i], x), d);
      } else {
        assert all[i] == [s][0] && Free(PlainByte([s][0], x), d);
      }
    }
    forall i, j, x, y | 0 <= i < j < |all| && 0 <= x < WORD && 0 <= y < WORD
      ensures PlainByte(all[i], x) != PlainByte(all[j], y)
    {
      if j < |slots| {
        assert PlainByte(slots[i], x) != PlainByte(slots[j], y);
      } else {
        assert Taken(PlainByte(slots[i], x), d) && Free(PlainByte([s][0], y), d);
      }
    }
  }

  lemma {:induction false} DrawFresh(c: Cursor, classes: seq<Class>)
    requires forall i :: 0 <= i < |classes| ==> classes[i] in {Sse, Integer, Memory}
    requires Draw(c, classes).Mapped?
    ensures var l := Draw(c, classes).layout;
            FreshSlots(l.slots, c, l.cursor) && |l.slots| == |classes| && (ValidCursor(c) ==> ValidCursor(l.cursor))
    ensures Memory !in classes ==> AllRegs(Draw(c, classes).layout.slots)
    ensures (forall i :: 0 <= i < |classes| ==> classes[i] == Memory) ==> AllStack(Draw(c, classes).layout.slots)
  {
    if classes != [] {
      var n := |classes| - 1;
      DrawFresh(c, classes[..n]);
      var front, all := Draw(c, classes[..n]).layout, Draw(c, classes).layout;
      var s := all.slots[n];
      assert all.slots == front.slots + [s];
      assert FreshSlots([s], front.cursor, all.cursor);
      FreshAppend(front.slots, s, c, front.cursor, all.cursor);
    }
  }

  lemma {:induction false} StackSlotsFresh(c: Cursor, n: nat)
    ensures FreshSlots(StackSlots(c.both, n), c, c.(both := c.both + WORD * n))
  {
    if n > 0 {
      var k := n - 1;
      StackSlotsFresh(c, k);
      var s, d := StackLoc(c.both + WORD * k, WORD), c.(both := c.both + WORD * k);
      assert StackSlots(c.both, n) == StackSlots(c.both, k) + [s];
      FreshAppend(StackSlots(c.both, k), s, c, d, c.(both := c.both + WORD * n));
    }
  }

  /** An argument takes fresh slots, one per eightbyte, all of them registers or all of them stack
      words; one that ends on the stack has used up no register. */
  lemma AssignFresh(c: Cursor, classes: seq<Class>)
    requires forall i :: 0 <= i < |classes| ==> classes[i] in {Sse, Integer, Memory}
    requires Memory !in classes || forall i :: 0 <= i < |classes| ==> classes[i] == Memory
    requires ValidCursor(c)
    ensures var l := Assign(c, classes);
            FreshSlots(l.slots, c, l.cursor) && |l.slots| == |classes| && ValidCursor(l.cursor)
    ensures var l := Assign(c, classes);
            (AllRegs(l.slots) && l.cursor.both == c.both)
            || (AllStack(l.slots) && l.cursor.fp == c.fp && l.cursor.ints == c.ints)
  {
    if Draw(c, classes).Mapped? {
      DrawFresh(c, classes);
      DrawMoves(c, classes);
    } else {
      StackSlotsFresh(c, |classes|);
    }
  }

  lemma {:induction false} DrawMoves(c: Cursor, classes: seq<Class>)
    requires forall i :: 0 <= i < |classes| ==> classes[i] in {Sse, Integer, Memory}
    requires Draw(c, classes).Mapped?
    ensures Memory !in classes ==> Draw(c, classes).layout.cursor.both == c.both
    ensures (forall i :: 0 <= i < |classes| ==> classes[i] == Memory) ==>
              Draw(c, classes).layout.cursor.fp == c.fp && Draw(c, classes).layout.cursor.ints == c.ints
  {
    if classes != [] { DrawMoves(c, classes[..|classes| - 1]); }
  }
}
