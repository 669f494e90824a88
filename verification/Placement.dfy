/** Which registers and stack words the arguments of a System V AMD64 call take (section 3.2.3 of the
    psABI): exactly, for any argument, and counted out for lists of scalars. */
module Placement {
  import opened Wrappers
  import opened TypeLayout
  import opened Leaves
  import opened Locations
  import opened Classify
  import opened ArgSession
  import opened Prototype
  import opened TypeFacts

  // ------------------------------------------------- which slots exactly

  /** How many of the first `i` eightbytes are of a class. */
  function Before(classes: seq<Class>, i: nat, which: Class): nat
    requires i <= |classes|
  {
    if i == 0 then 0 else Before(classes, i - 1, which) + if classes[i - 1] == which then 1 else 0
  }

  function Count(classes: seq<Class>, which: Class): nat { Before(classes, |classes|, which) }

  /** The six integer and the eight vector registers suffice for the INTEGER and the SSE eightbytes. */
  predicate Suffice(c: Cursor, classes: seq<Class>) {
    c.ints + Count(classes, Integer) <= 6 && c.fp + Count(classes, Sse) <= 8
  }

  /** The register for eightbyte `i`: the next of its own kind. */
  function RegisterFor(c: Cursor, classes: seq<Class>, i: nat): Loc
    requires i < |classes|
  {
    if classes[i] == Integer then RegLoc(false, c.ints + Before(classes, i, Integer), 0, 8)
    else RegLoc(true, c.fp + Before(classes, i, Sse), 0, 8)
  }

  /** INTEGER eightbytes are in the next integer registers, SSE eightbytes in the next vector
      registers, each file in order; the session has moved past them. */
  predicate InRegisters(c: Cursor, classes: seq<Class>, slots: seq<Loc>, d: Cursor) {
    && |slots| == |classes|
    && (forall i :: 0 <= i < |slots| ==> slots[i] == RegisterFor(c, classes, i))
    && d == Cursor(c.fp + Count(classes, Sse), c.ints + Count(classes, Integer), c.both)
  }

  /** Eightbyte `i` is the `i`-th of the next stack words; no register is used up. */
  predicate OnStack(c: Cursor, n: nat, slots: seq<Loc>, d: Cursor) {
    && |slots| == n && (forall i :: 0 <= i < n ==> slots[i] == StackLoc(c.both + 8 * i, 8))
    && d == c.(both := c.both + 8 * n)
  }

  lemma {:induction false} BeforePrefix(classes: seq<Class>, n: nat, i: nat, which: Class)
    requires i <= n <= |classes|
    ensures Before(classes[..n], i, which) == Before(classes, i, which)
  {
    if i > 0 { BeforePrefix(classes, n, i - 1, which); }
  }

  lemma CountLast(classes: seq<Class>, which: Class)
    requires classes != []
    ensures var n := |classes| - 1;
            Count(classes, which) == Count(classes[..n], which) + (if classes[n] == which then 1 else 0)
            && Before(classes, n, which) == Count(classes[..n], which)
  {
    BeforePrefix(classes, |classes| - 1, |classes| - 1, which);
  }

  /** One more eightbyte in a register. */
  lemma OneMoreRegister(c: Cursor, classes: seq<Class>, slots: seq<Loc>, d: Cursor, s: Loc, e: Cursor)
    requires classes != [] && InRegisters(c, classes[..|classes| - 1], slots, d)
    requires classes[|classes| - 1] in {Sse, Integer}
    requires if classes[|classes| - 1] == Integer then s == RegLoc(false, d.ints, 0, WORD) && e == d.(ints := d.ints + 1)
             else s == RegLoc(true, d.fp, 0, WORD) && e == d.(fp := d.fp + 1)
    ensures InRegisters(c, classes, slots + [s], e)
  {
    var n := |classes| - 1;
    CountLast(classes, Integer);
    CountLast(classes, Sse);
    forall i: nat | i < n ensures slots[i] == RegisterFor(c, classes, i) {
      BeforePrefix(classes, n, i, Integer);
      BeforePrefix(classes, n, i, Sse);
      assert slots[i] == RegisterFor(c, classes[..n], i);
    }
  }

  lemma {:induction false} DrawExact(c: Cursor, classes: seq<Class>)
    requires ValidCursor(c) && forall i :: 0 <= i < |classes| ==> classes[i] in {Sse, Integer}
    ensures Draw(c, classes).Mapped? <==> Suffice(c, classes)
    ensures Suffice(c, classes) ==> InRegisters(c, classes, Draw(c, classes).layout.slots, Draw(c, classes).layout.cursor)
  {
    if classes != [] {
      var n := |classes| - 1;
      DrawExact(c, classes[..n]);
      CountLast(classes, Integer);
      CountLast(classes, Sse);
      if Suffice(c, classes) {
        var front, all := Draw(c, classes[..n]).layout, Draw(c, classes).layout;
        OneMoreRegister(c, classes, front.slots, front.cursor, all.slots[n], all.cursor);
      }
    }
  }

  lemma {:induction false} DrawMemory(c: Cursor, classes: seq<Class>)
    requires forall i :: 0 <= i < |classes| ==> classes[i] == Memory
    ensures Draw(c, classes) == Mapped(Layout(StackSlots(c.both, |classes|), c.(both := c.both + WORD * |classes|)))
  {
    if classes != [] {
      var n := |classes| - 1;
      DrawMemory(c, classes[..n]);
      assert StackSlots(c.both, n + 1) == StackSlots(c.both, n) + [StackLoc(c.both + WORD * n, WORD)];
    }
  }

  /** An argument that is not of class MEMORY goes to registers if and only if there are enough of
      both kinds, and then INTEGER eightbytes take integer registers and SSE eightbytes vector
      registers; otherwise it takes the next stack words. */
  lemma AssignExact(c: Cursor, classes: seq<Class>)
    requires ValidCursor(c) && forall i :: 0 <= i < |classes| ==> classes[i] in {Sse, Integer, Memory}
    requires Memory !in classes || forall i :: 0 <= i < |classes| ==> classes[i] == Memory
    ensures var l := Assign(c, classes);
            if Memory !in classes && Suffice(c, classes) then InRegisters(c, classes, l.slots, l.cursor)
            else OnStack(c, |classes|, l.slots, l.cursor)
  {
    if Memory !in classes { DrawExact(c, classes); } else { DrawMemory(c, classes); }
  }

  /** The classes that an argument is placed by: those of its type, or one INTEGER eightbyte for an
      array, which is passed as a pointer. */
  ghost predicate PlacedBy(t: SimType, cs: seq<Class>)
    requires Wf(t)
  {
    if t.Array? then cs == [Integer] else Classified(t, cs)
  }

  /** Which slots one argument takes: registers if and only if it is not of class MEMORY and there are
      enough left of both kinds, INTEGER eightbytes in integer registers and SSE eightbytes in vector
      registers; otherwise the next stack words. */
  lemma NextArgExact(c: Cursor, t: SimType, cs: seq<Class>)
    requires Wf(t) && ValidCursor(c) && PlacedBy(t, cs)
    ensures var p := NextArg(c, t);
            if Memory !in cs && Suffice(c, cs) then InRegisters(c, cs, p.slots, p.cursor)
            else OnStack(c, |cs|, p.slots, p.cursor)
  {
    var a := Decay(t);
    ClassesOfClassified(a);
    if t.Array? {
      assert Chunks(WORD, WORD) == 1;
      assert ClassesOf(Num(WORD)) == [Integer];
    } else {
      ClassifiedUnique(t, cs, ClassesOf(t));
    }
    AssignExact(c, ClassesOf(a));
  }

  // ------------------------------------------------- lists of scalars

  /** A scalar of one eightbyte. */
  predicate Simple(t: SimType) { (t.Num? && 0 < t.bytes <= 8) || t.Float? || t.Double? }

  predicate AllSimple(ts: seq<SimType>) { forall i :: 0 <= i < |ts| ==> Simple(ts[i]) }

  /** How many of the first `j` arguments are integers or pointers, and how many are floating-point. */
  function Integers(ts: seq<SimType>, j: nat): nat
    requires j <= |ts|
  {
    if j == 0 then 0 else Integers(ts, j - 1) + if ts[j - 1].Num? then 1 else 0
  }

  function Floats(ts: seq<SimType>, j: nat): nat
    requires j <= |ts|
  {
    if j == 0 then 0 else Floats(ts, j - 1) + if ts[j - 1].Num? then 0 else 1
  }

  function Excess(n: nat, limit: nat): nat { if n > limit then n - limit else 0 }

  function Bytes(t: SimType): nat { if t.Num? then t.bytes else if t.Float? then 4 else 8 }

  /** Where a scalar goes after `i` integer and `f` floating-point ones. */
  function ScalarSlot(t: SimType, i: nat, f: nat, stack: nat): Loc {
    if t.Num? && i < 6 then RegLoc(false, i, 0, Bytes(t))
    else if !t.Num? && f < 8 then RegLoc(true, f, 0, Bytes(t))
    else StackLoc(stack, Bytes(t))
  }

  lemma SimpleClasses(t: SimType)
    requires Simple(t)
    ensures Wf(t) && Decay(t) == t && Size(t) == Bytes(t) && ClassesOf(t) == [if t.Num? then Integer else Sse]
  {
    assert Chunks(Size(t), WORD) == 1;
  }

  lemma SimpleLoc(s: Loc, t: SimType)
    requires Simple(t) && Wf(t) && Plain(s) && WordSlots([s]) && Size(t) <= WORD * |[s]|
    ensures Refine([s], t, 0) == RefineLoc(s, Size(t), 0)
  {
    var n := Size(t);
    assert Pieces([s], n, 0, n) == [];
    assert Pieces([s], n, 0, 0) == [RefineLoc(s, n, 0)] + Pieces([s], n, 0, n);
  }

  lemma CountOne(cls: Class, which: Class)
    ensures Count([cls], which) == (if cls == which then 1 else 0) && Before([cls], 0, which) == 0
  {
    assert Before([cls], 0, which) == 0;
  }

  lemma SimpleSlot(c: Cursor, t: SimType)
    requires ValidCursor(c) && Simple(t) && Wf(t)
    ensures var p := NextArg(c, t);
            && p.loc == ScalarSlot(t, c.ints, c.fp, c.both)
            && p.cursor == if p.loc.StackLoc? then c.(both := c.both + 8)
                           else if t.Num? then c.(ints := c.ints + 1) else c.(fp := c.fp + 1)
  {
    SimpleClasses(t);
    ClassesOfClassified(t);
    var cs := ClassesOf(t);
    CountOne(cs[0], Integer);
    CountOne(cs[0], Sse);
    NextArgExact(c, t, cs);
    var p := NextArg(c, t);
    assert p.slots == [p.slots[0]];
    AssignGood(c, t);
    assert WordSlots(p.slots) && p.slots[0].size == WORD;
    SimpleLoc(p.slots[0], t);
  }

  lemma {:induction false} CountsFrom(ts: seq<SimType>, j: nat)
    requires 0 < j <= |ts|
    ensures Integers(ts, j) == Integers(ts[1..], j - 1) + if ts[0].Num? then 1 else 0
    ensures Floats(ts, j) == Floats(ts[1..], j - 1) + if ts[0].Num? then 0 else 1
  {
    if j == 1 {
      assert Integers(ts, 0) == 0 && Floats(ts, 0) == 0;
    } else {
      CountsFrom(ts, j - 1);
      assert ts[1..][j - 2] == ts[j - 1];
    }
  }

  /** The place of a scalar after `i` integers and `f` floating-point arguments, when what did not fit in
      registers went to stack words in order. */
  predicate IsScalarSlot(l: Loc, t: SimType, i: nat, f: nat, stack: nat) {
    l == ScalarSlot(t, i, f, stack + 8 * (Excess(i, 6) + Excess(f, 8)))
  }

  lemma FirstScalar(c: Cursor, ts: seq<SimType>) returns (l: Loc, d: Cursor)
    requires ValidArgs(ts) && ValidCursor(c) && ts != [] && Simple(ts[0])
    ensures ValidCursor(d) && ArgLocs(c, ts) == [l] + ArgLocs(d, ts[1..]) && |ArgLocs(c, ts)| == |ts|
    ensures l == ScalarSlot(ts[0], c.ints, c.fp, c.both)
    ensures d == if l.StackLoc? then c.(both := c.both + 8) else if ts[0].Num? then c.(ints := c.ints + 1) else c.(fp := c.fp + 1)
  {
    ArgLocsApart(c, ts);
    NextArgPlacement(c, ts[0]);
    SimpleSlot(c, ts[0]);
    l, d := NextArg(c, ts[0]).loc, NextArg(c, ts[0]).cursor;
  }

  /** Going past a first argument that took slot `l`. */
  lemma PastFirst(l: Loc, t: SimType, u: SimType, c: Cursor, d: Cursor, i: nat, f: nat, at: Loc)
    requires ValidCursor(c) && l == ScalarSlot(t, c.ints, c.fp, c.both)
    requires d == if l.StackLoc? then c.(both := c.both + 8) else if t.Num? then c.(ints := c.ints + 1) else c.(fp := c.fp + 1)
    requires IsScalarSlot(at, u, d.ints + i, d.fp + f, d.both)
    ensures IsScalarSlot(at, u, c.ints + i + (if t.Num? then 1 else 0), c.fp + f + (if t.Num? then 0 else 1), c.both)
  {
  }

  /** Where each of a list of scalars goes, counted from the front: an integer takes the next of six
      integer registers, a floating-point argument the next of eight vector registers, and what does
      not fit takes stack words in order. */
  lemma {:induction false} ScalarArgsFrom(c: Cursor, ts: seq<SimType>, j: nat)
    requires ValidCursor(c) && AllSimple(ts) && ValidArgs(ts) && j < |ts|
    ensures |ArgLocs(c, ts)| == |ts|
    ensures IsScalarSlot(ArgLocs(c, ts)[j], ts[j], c.ints + Integers(ts, j), c.fp + Floats(ts, j), c.both)
    decreases j
  {
    var l, d := FirstScalar(c, ts);
    if j == 0 {
      assert Integers(ts, 0) == 0 && Floats(ts, 0) == 0;
    } else {
      ScalarArgsFrom(d, ts[1..], j - 1);
      CountsFrom(ts, j);
      PastFirst(l, ts[0], ts[j], c, d, Integers(ts[1..], j - 1), Floats(ts[1..], j - 1), ArgLocs(c, ts)[j]);
    }
  }

  /** The locations of a call whose arguments are all scalars: after the hidden pointer of a result in
      memory, if there is one, and above the return address. */
  lemma ScalarArgs(ret: Option<SimType>, ts: seq<SimType>, j: nat)
    requires (ret.Some? ==> Wf(ret.value)) && AllSimple(ts) && ValidArgs(ts) && j < |ts|
    ensures |Locs(ret, ts)| == |ts|
    ensures IsScalarSlot(Locs(ret, ts)[j], ts[j], Integers(ts, j) + (if ReturnsInMemory(ret) then 1 else 0), Floats(ts, j), 8)
  {
    var c := StartCursor(ret);
    assert c == Cursor(0, if ReturnsInMemory(ret) then 1 else 0, 8);
    ScalarArgsFrom(c, ts, j);
  }

  // ------------------------------------------------- results

  /** A result goes through a hidden pointer exactly if it is an aggregate of more than two eightbytes, or
      one that is not empty and has a packed struct inside; asking where it goes fails exactly for what
      cannot be classified and for a scalar of more than two eightbytes. */
  lemma ReturnPlace(t: SimType)
    requires Wf(t)
    ensures ReturnsInMemory(Some(t)) <==> !Scalar(t) && (Size(t) > 16 || (Size(t) > 0 && PackedInside(t)))
    ensures Returnable(Some(t)) <==> Classifiable(t) && (Scalar(t) ==> Size(t) <= 16)
  {
    var cs := ClassesOf(t);
    ClassesOfClassified(t);
    PackedIff(t);
    if cs != [] { EightbyteClass(t, cs, 0); }
    if Memory in cs {
      var c: nat :| c < |cs| && cs[c] == Memory;
      EightbyteClass(t, cs, c);
    }
  }
}
