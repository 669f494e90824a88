/** `setup_callsite` with neither `stack_base` nor `alloc_base`: the frame of a call. */
module Callsite {
  import opened Wrappers
  import opened TypeLayout
  import opened Leaves
  import opened Locations
  import opened Classify
  import opened ArgSession
  import opened Prototype
  import opened Placement

  const SP_DIFF: nat := 8          // STACKARG_SP_DIFF, the return address
  const STACK_ALIGNMENT: nat := 16

  // ------------------------------------------------- the bump allocator

  datatype Block = Block(at: nat, size: nat)

  /** `AllocHelper`: pointers are offsets from a base that is chosen later. */
  class AllocHelper {
    var ptr: nat
    var blocks: seq<Block>

    ghost predicate Valid()
      reads this
    {
      Stacked(blocks, ptr)
    }

    constructor ()
      ensures Valid() && ptr == 0 && blocks == []
    {
      ptr, blocks := 0, [];
    }

    method Alloc(size: nat) returns (out: nat)
      requires Valid()
      modifies this
      ensures Valid() && out == old(ptr) && ptr == old(ptr) + size
      ensures blocks == old(blocks) + [Block(out, size)]
    {
      out := ptr;
      blocks := blocks + [Block(out, size)];
      ptr := ptr + size;
    }
  }

  /** Blocks follow each other without gap or overlap from 0 to `top`. */
  ghost predicate Stacked(blocks: seq<Block>, top: nat) {
    if blocks == [] then top == 0
    else
      var last := blocks[|blocks| - 1];
      last.at + last.size == top && Stacked(blocks[..|blocks| - 1], last.at)
  }

  lemma {:induction false} StackedApart(blocks: seq<Block>, top: nat)
    requires Stacked(blocks, top)
    ensures forall i :: 0 <= i < |blocks| ==> blocks[i].at + blocks[i].size <= top
    ensures forall i, j :: 0 <= i < j < |blocks| ==> blocks[i].at + blocks[i].size <= blocks[j].at
  {
    if blocks != [] { StackedApart(blocks[..|blocks| - 1], blocks[|blocks| - 1].at); }
  }

  // ------------------------------------------------- stack space

  function SpaceFrom(locs: seq<Loc>, init: nat): nat {
    if locs == [] then init
    else SpaceFrom(locs[1..], if locs[0].StackLoc? then Max(init, locs[0].offset + WORD) else init)
  }

  /** `stack_space`: looks only at arguments that are a single stack slot. */
  method StackSpace(locs: seq<Loc>) returns (out: nat)
    ensures out == SpaceFrom(locs, SP_DIFF)
  {
    out := SP_DIFF;
    for i := 0 to |locs|
      invariant SpaceFrom(locs[i..], out) == SpaceFrom(locs, SP_DIFF)
    {
      if locs[i].StackLoc? {
        out := Max(out, locs[i].offset + WORD);
      }
      assert i < |locs| && locs[i..][1..] == locs[i + 1..];
    }
  }

  /** The space is the greatest of the return slot and the ends of the arguments that are one slot. */
  lemma {:induction false} SpaceGreatest(locs: seq<Loc>, init: nat)
    ensures var space := SpaceFrom(locs, init);
            && init <= space && (forall k :: 0 <= k < |locs| && locs[k].StackLoc? ==> locs[k].offset + 8 <= space)
            && (space == init || exists k :: 0 <= k < |locs| && locs[k].StackLoc? && locs[k].offset + 8 == space)
    decreases |locs|
  {
    if locs != [] {
      var next := if locs[0].StackLoc? then Max(init, locs[0].offset + WORD) else init;
      var rest, space := locs[1..], SpaceFrom(locs, init);
      SpaceGreatest(rest, next);
      assert forall k :: 0 < k < |locs| ==> locs[k] == rest[k - 1];
      if space != init && space != next {
        var k :| 0 <= k < |rest| && rest[k].StackLoc? && rest[k].offset + 8 == space;
        assert locs[k + 1] == rest[k];
      }
    }
  }

  predicate HasStack(l: Loc) { exists i :: 0 <= i < |LocBytes(l)| && LocBytes(l)[i].StackByte? }

  /** The last argument that lies on the stack is a single slot. */
  predicate LastStackPlain(locs: seq<Loc>) {
    forall k :: 0 <= k < |locs| && HasStack(locs[k]) && (forall j :: k < j < |locs| ==> !HasStack(locs[j])) ==>
      locs[k].StackLoc?
  }

  predicate BytesBelow(bs: seq<ByteLoc>, bound: nat) {
    forall i :: 0 <= i < |bs| && bs[i].StackByte? ==> bs[i].at < bound
  }

  predicate StackBelow(locs: seq<Loc>, bound: nat) { BytesBelow(ConcatBytes(locs), bound) }

  lemma PiecesOfMany(slots: seq<Loc>, size: nat)
    requires WordSlots(slots) && size <= WORD * |slots|
    ensures size > WORD ==> |Pieces(slots, size, 0, 0)| >= 2
  {
    if size > WORD {
      assert Pieces(slots, size, 0, 0) == [RefineLoc(slots[0], WORD, 0)] + Pieces(slots, size, 0, WORD);
      assert |Pieces(slots, size, 0, WORD)| > 0;
    }
  }

  /** An argument refined to one stack location is a single whole slot. */
  lemma {:induction false} PlainIsOneSlot(slots: seq<Loc>, t: SimType)
    requires Wf(t) && WordSlots(slots) && |slots| == Chunks(Size(t), WORD) && Refine(slots, t, 0).StackLoc?
    ensures |slots| == 1 && slots[0].StackLoc? && Refine(slots, t, 0).offset == slots[0].offset
    ensures Refine(slots, t, 0).size > 0
  {
    match t
    case Union(ms) =>
      MaxSizeReached(ms);
      PlainIsOneSlot(slots, ms[FullMember(ms, MaxSize(ms))]);
    case Array(_, _) =>
    case Struct(_, _, _) =>
    case _ =>
      var size := Size(t);
      var ps := Pieces(slots, size, 0, 0);
      PiecesOfMany(slots, size);
      assert |ps| == 1;
  }

  lemma StackArgCursor(c: Cursor, t: SimType)
    requires Wf(t) && ValidCursor(c)
    ensures var p := NextArg(c, t);
            p.loc.StackLoc? ==> p.loc.offset == c.both && p.cursor.both == c.both + WORD && HasStack(p.loc)
  {
    var a := Decay(t);
    AssignGood(c, a);
    ClassesOfClassified(a);
    AssignFresh(c, ClassesOf(a));
    var p := NextArg(c, t);
    if p.loc.StackLoc? {
      PlainIsOneSlot(p.slots, a);
      assert LocBytes(p.loc)[0].StackByte?;
      var cs := ClassesOf(a);
      assert |cs| == 1;
      assert cs[..0] == [];
      assert Draw(c, cs[..0]) == Mapped(Layout([], c));
    }
  }

  ghost predicate SpaceExact(locs: seq<Loc>, init: nat, top: nat) {
    && init <= SpaceFrom(locs, init) <= top
    && (StackBelow(locs, SpaceFrom(locs, init)) <==> LastStackPlain(locs))
    && (NoStack(locs) ==> SpaceFrom(locs, init) == init)
  }

  predicate NoStack(locs: seq<Loc>) { forall k :: 0 <= k < |locs| ==> !HasStack(locs[k]) }

  /** The space reserved for a System V argument list covers every stack byte of the arguments
      exactly when the last stack-resident argument is a single slot: aggregates and wide scalars
      are not counted. */
  lemma {:induction false} SpaceCoversIff(c: Cursor, ts: seq<SimType>, init: nat)
    requires ValidArgs(ts) && ValidCursor(c) && init <= c.both
    ensures SpaceExact(ArgLocs(c, ts), init, CursorAfter(c, ts).both)
    decreases ts
  {
    if ts != [] {
      NextArgPlacement(c, ts[0]);
      StackArgCursor(c, ts[0]);
      var p := NextArg(c, ts[0]);
      var rest := ArgLocs(p.cursor, ts[1..]);
      var next := if p.loc.StackLoc? then Max(init, p.loc.offset + WORD) else init;
      SpaceCoversIff(p.cursor, ts[1..], next);
      ArgLocsApart(p.cursor, ts[1..]);
      SpaceStep(p.loc, rest, c, p.cursor, CursorAfter(c, ts), next, init);
    }
  }

  lemma StackBytesOf(locs: seq<Loc>)
    ensures (exists k :: 0 <= k < |locs| && HasStack(locs[k])) <==>
            (exists i :: 0 <= i < |ConcatBytes(locs)| && ConcatBytes(locs)[i].StackByte?)
  {
    if locs != [] {
      var a, b := LocBytes(locs[0]), ConcatBytes(locs[1..]);
      StackBytesOf(locs[1..]);
      assert ConcatBytes(locs) == a + b;
      if HasStack(locs[0]) {
        var i :| 0 <= i < |a| && a[i].StackByte?;
        assert (a + b)[i] == a[i];
      } else if k :| 0 <= k < |locs| && HasStack(locs[k]) {
        assert locs[1..][k - 1] == locs[k];
        var i :| 0 <= i < |b| && b[i].StackByte?;
        assert (a + b)[|a| + i] == b[i];
      } else {
        forall i | 0 <= i < |a + b| ensures !(a + b)[i].StackByte? {
          if i < |a| {
            assert LocBytes(locs[0])[i] == a[i];
          } else {
            assert forall k :: 0 <= k < |locs[1..]| ==> locs[1..][k] == locs[k + 1];
            assert (a + b)[i] == b[i - |a|];
          }
        }
      }
    }
  }

  lemma SpaceStep(l: Loc, rest: seq<Loc>, c: Cursor, d: Cursor, e: Cursor, next: nat, init: nat)
    requires Between(LocBytes(l), c, d) && Between(ConcatBytes(rest), d, e) && init <= c.both
    requires l.StackLoc? ==> l.offset == c.both && d.both == c.both + WORD && HasStack(l)
    requires next == if l.StackLoc? then Max(init, l.offset + WORD) else init
    requires SpaceExact(rest, next, e.both)
    ensures SpaceExact([l] + rest, init, e.both)
  {
    var space := SpaceFrom(rest, next);
    assert ([l] + rest)[1..] == rest && SpaceFrom([l] + rest, init) == space;
    BelowStep(l, rest, c, d, e, space, init);
    if NoStack([l] + rest) {
      assert !HasStack(([l] + rest)[0]) && forall k :: 0 <= k < |rest| ==> rest[k] == ([l] + rest)[k + 1];
    }
  }

  lemma BelowStep(l: Loc, rest: seq<Loc>, c: Cursor, d: Cursor, e: Cursor, space: nat, init: nat)
    requires Between(LocBytes(l), c, d) && Between(ConcatBytes(rest), d, e) && init <= c.both
    requires l.StackLoc? ==> d.both == c.both + WORD && HasStack(l)
    requires space >= if l.StackLoc? then d.both else init
    requires StackBelow(rest, space) <==> LastStackPlain(rest)
    requires NoStack(rest) ==> space == if l.StackLoc? then d.both else init
    ensures StackBelow([l] + rest, space) <==> LastStackPlain([l] + rest)
  {
    var all, a, b := [l] + rest, LocBytes(l), ConcatBytes(rest);
    assert all[1..] == rest && ConcatBytes(all) == a + b;
    assert forall k :: 0 <= k < |rest| ==> all[k + 1] == rest[k];
    StackBytesOf(rest);
    BelowSplit(a, b, space);
    if exists k :: 0 <= k < |rest| && HasStack(rest[k]) {
      assert LastStackPlain(all) <==> LastStackPlain(rest) by { LastInRest(l, rest); }
      if StackBelow(rest, space) {
        var i :| 0 <= i < |b| && b[i].StackByte?;
        assert Free(b[i], d) && b[i].at < space;
        assert forall j :: 0 <= j < |a| && a[j].StackByte? ==> Taken(a[j], d);
      }
    } else {
      assert LastStackPlain(all) <==> (HasStack(l) ==> l.StackLoc?) by { LastIsFirst(l, rest); }
      assert StackBelow(rest, space);
      assert forall j :: 0 <= j < |a| && a[j].StackByte? ==> Taken(a[j], d) && Free(a[j], c);
    }
  }

  lemma BelowSplit(a: seq<ByteLoc>, b: seq<ByteLoc>, space: nat)
    ensures BytesBelow(a + b, space) <==> BytesBelow(a, space) && BytesBelow(b, space)
  {
    assert forall i :: 0 <= i < |a| ==> (a + b)[i] == a[i];
    assert forall i :: 0 <= i < |b| ==> (a + b)[|a| + i] == b[i];
  }

  lemma LastInRest(l: Loc, rest: seq<Loc>)
    requires exists k :: 0 <= k < |rest| && HasStack(rest[k])
    ensures LastStackPlain([l] + rest) <==> LastStackPlain(rest)
  {
    var all := [l] + rest;
    assert forall k :: 0 <= k < |rest| ==> all[k + 1] == rest[k];
    if LastStackPlain(all) {
      forall k | 0 <= k < |rest| && HasStack(rest[k]) && (forall j :: k < j < |rest| ==> !HasStack(rest[j]))
        ensures rest[k].StackLoc?
      {
        assert forall j :: k + 1 < j < |all| ==> all[j] == rest[j - 1];
        assert HasStack(all[k + 1]);
      }
    }
    if LastStackPlain(rest) {
      forall k | 0 <= k < |all| && HasStack(all[k]) && (forall j :: k < j < |all| ==> !HasStack(all[j]))
        ensures all[k].StackLoc?
      {
        assert forall j :: 0 <= j < |rest| ==> rest[j] == all[j + 1];
        var m :| 0 <= m < |rest| && HasStack(rest[m]);
        assert HasStack(all[m + 1]);
        assert k > 0 && all[k] == rest[k - 1];
      }
    }
  }

  lemma LastIsFirst(l: Loc, rest: seq<Loc>)
    requires forall k :: 0 <= k < |rest| ==> !HasStack(rest[k])
    ensures LastStackPlain([l] + rest) <==> (HasStack(l) ==> l.StackLoc?)
  {
    var all := [l] + rest;
    assert all[0] == l && forall k :: 0 < k < |all| ==> all[k] == rest[k - 1];
    if LastStackPlain(all) && HasStack(l) {
      assert HasStack(all[0]) && all[0].StackLoc?;
    }
  }

  // ------------------------------------------------- the frame

  datatype Frame = Frame(sp: nat, allocBase: nat)

  /** Lowers the stack pointer past the allocations, the arguments and the alignment padding. */
  method PlaceFrame(sp: nat, allocSize: nat, locs: seq<Loc>) returns (f: Frame)
    requires sp >= allocSize + SpaceFrom(locs, SP_DIFF) + STACK_ALIGNMENT
    ensures (f.sp + 8) % 16 == 0 && f.allocBase + allocSize == sp
    ensures f.sp + SpaceFrom(locs, 8) <= f.allocBase < f.sp + SpaceFrom(locs, 8) + 16
  {
    var low := sp - allocSize;
    var space := StackSpace(locs);
    var at := low - space;
    f := Frame(at - (at + SP_DIFF) % STACK_ALIGNMENT, low);
  }

  /** A call frame for a System V prototype.  The stack pointer is aligned at the call; the return
      address lies below every argument byte, no two argument bytes coincide, and the allocations
      are disjoint and end at the old stack pointer.  When the last stack-resident argument is a
      single slot the arguments also stay below the allocations, inside the frame. */
  lemma CallFrame(ret: Option<SimType>, ts: seq<SimType>, sp: nat, f: Frame, blocks: seq<Block>, top: nat)
    requires (ret.Some? ==> Wf(ret.value)) && ValidArgs(ts) && Stacked(blocks, top)
    requires f.allocBase + top == sp && f.sp + SpaceFrom(Locs(ret, ts), SP_DIFF) <= f.allocBase
    ensures NoRepeats(ConcatBytes(Locs(ret, ts)))
    ensures forall i, j :: 0 <= i < j < |blocks| ==>
              f.allocBase + blocks[i].at + blocks[i].size <= f.allocBase + blocks[j].at
    ensures forall i :: 0 <= i < |blocks| ==> f.sp + SP_DIFF <= f.allocBase + blocks[i].at <= sp - blocks[i].size
    ensures forall p :: StackByte(p) in ConcatBytes(Locs(ret, ts)) ==> f.sp + SP_DIFF <= f.sp + p
    ensures LastStackPlain(Locs(ret, ts)) ==>
              forall p :: StackByte(p) in ConcatBytes(Locs(ret, ts)) ==> f.sp + p < f.allocBase
  {
    var c, locs := StartCursor(ret), Locs(ret, ts);
    PrototypeLayout(ret, ts);
    StackedApart(blocks, top);
    SpaceCoversIff(c, ts, SP_DIFF);
  }

  /** What a call frame owes its caller: the stack pointer is aligned at the call, the return slot and
      the argument bytes are distinct, the allocations are pairwise disjoint, and everything is inside
      the new frame, arguments below allocations, when the last stack argument is a single slot. */
  ghost predicate GoodFrame(locs: seq<Loc>, sp: nat, f: Frame, blocks: seq<Block>) {
    && (f.sp + 8) % 16 == 0 && f.sp + 8 <= f.allocBase <= sp
    && NoRepeats(ConcatBytes(locs))
    && (forall p: nat :: StackByte(p) in ConcatBytes(locs) ==> p >= 8)
    && (forall i :: 0 <= i < |blocks| ==> f.allocBase <= f.allocBase + blocks[i].at <= sp - blocks[i].size)
    && (forall i, j :: 0 <= i < j < |blocks| ==> blocks[i].at + blocks[i].size <= blocks[j].at)
    && (LastStackPlain(locs) ==> forall p: nat :: StackByte(p) in ConcatBytes(locs) ==> f.sp + p < f.allocBase)
  }

  function Sum(sizes: seq<nat>): nat { if sizes == [] then 0 else Sum(sizes[..|sizes| - 1]) + sizes[|sizes| - 1] }

  /** The allocations of the values that are passed by reference. */
  method AllocAll(sizes: seq<nat>) returns (a: AllocHelper)
    ensures fresh(a) && a.Valid() && a.ptr == Sum(sizes) && |a.blocks| == |sizes|
    ensures forall i :: 0 <= i < |sizes| ==> a.blocks[i].size == sizes[i]
  {
    a := new AllocHelper();
    for i := 0 to |sizes|
      invariant fresh(a) && a.Valid() && a.ptr == Sum(sizes[..i]) && |a.blocks| == i
      invariant forall j :: 0 <= j < i ==> a.blocks[j].size == sizes[j]
    {
      assert sizes[..i + 1][..i] == sizes[..i];
      var at := a.Alloc(sizes[i]);
    }
    assert sizes[..|sizes|] == sizes;
  }

  datatype Call = Call(locs: seq<Loc>, frame: Frame, blocks: seq<Block>)

  /** `setup_callsite`: lays the arguments out, makes room for what is passed by reference and lowers
      the stack pointer.  Fails exactly when the prototype cannot be laid out. */
  method SetupCallsite(ret: Option<SimType>, ts: seq<SimType>, sizes: seq<nat>, sp: nat) returns (r: Result<Call, LayoutError>)
    requires (ret.Some? ==> Wf(ret.value)) && ValidArgs(ts)
    requires sp >= Sum(sizes) + SpaceFrom(Locs(ret, ts), SP_DIFF) + STACK_ALIGNMENT
    ensures r.Ok? <==> Returnable(ret) && forall i :: 0 <= i < |ts| ==> Classifiable(Decay(ts[i]))
    ensures r.Ok? ==> r.value.locs == Locs(ret, ts) && GoodFrame(r.value.locs, sp, r.value.frame, r.value.blocks)
    ensures r.Ok? ==> |r.value.blocks| == |sizes| && forall i :: 0 <= i < |sizes| ==> r.value.blocks[i].size == sizes[i]
  {
    var locs := LayOut(ret, ts);
    if locs.Err? { return Err(locs.error); }
    var a := AllocAll(sizes);
    var f := PlaceFrame(sp, a.ptr, locs.value);
    FrameIsGood(ret, ts, sp, f, a.blocks, a.ptr);
    r := Ok(Call(locs.value, f, a.blocks));
  }

  lemma FrameIsGood(ret: Option<SimType>, ts: seq<SimType>, sp: nat, f: Frame, blocks: seq<Block>, top: nat)
    requires (ret.Some? ==> Wf(ret.value)) && ValidArgs(ts) && Stacked(blocks, top)
    requires (f.sp + 8) % 16 == 0
    requires f.allocBase + top == sp && f.sp + SpaceFrom(Locs(ret, ts), SP_DIFF) <= f.allocBase
    ensures GoodFrame(Locs(ret, ts), sp, f, blocks)
  {
    SpaceGreatest(Locs(ret, ts), SP_DIFF);
    CallFrame(ret, ts, sp, f, blocks, top);
  }

  /** A three-word struct goes to the stack, `stack_space` reserves nothing for it, and with no
      allocation its last word lands at or above the old stack pointer, in the caller's frame. */
  lemma StructOverrunsFrame(sp: nat, f: Frame)
    requires f.allocBase == sp < f.sp + SpaceFrom(Locs(None, [BigStruct()]), SP_DIFF) + STACK_ALIGNMENT
    ensures SpaceFrom(Locs(None, [BigStruct()]), SP_DIFF) == SP_DIFF
    ensures StackByte(31) in ConcatBytes(Locs(None, [BigStruct()])) && f.sp + 31 >= sp
  {
    BigStructSize();
    var loc := Refine(StackSlots(8, 3), BigStruct(), 0);
    BigStructPlace();
    BigStructBytes();
    assert [loc][1..] == [] && ConcatBytes([loc]) == LocBytes(loc) + [];
    assert ConcatBytes([loc])[23] == StackByte(31);
  }

  lemma BigStructPlace()
    ensures ValidArgs([BigStruct()]) && Locs(None, [BigStruct()]) == [Refine(StackSlots(8, 3), BigStruct(), 0)]
  {
    var t := BigStruct();
    BigStructSize();
    ClassesOfClassified(t);
    var cs := ClassesOf(t);
    assert cs == [Memory, Memory, Memory];
    DrawMemory(START, cs);
    assert ValidArgs([t]);
    assert ArgLocs(NextArg(START, t).cursor, [t][1..]) == [];
  }

  lemma BigStructBytes()
    ensures var bytes := LocBytes(Refine(StackSlots(8, 3), BigStruct(), 0)); |bytes| > 23 && bytes[23] == StackByte(31)
  {
    var t := BigStruct();
    BigStructSize();
    RefineBytes(StackSlots(8, 3), t, 0);
    assert BytesAt(t, 0)[23] == 23;
    assert ByteOf(StackSlots(8, 3), 23) == StackByte(31);
  }

  function BigStruct(): (t: SimType)
    ensures Wf(t)
    ensures Size(t) <= WORD * 3
  {
    var t := Struct([Num(8), Num(8), Num(8)], false, None);
    BigStructSize();
    t
  }

  lemma BigStructSize()
    ensures var t := Struct([Num(8), Num(8), Num(8)], false, None);
            Wf(t) && Size(t) == 24 && BytesAt(t, 0) == Range(0, 24)
  {
    var fs := [Num(8), Num(8), Num(8)];
    assert End(fs, false, 0) == 0 && Offset(fs, false, 0) == 0;
    assert End(fs, false, 1) == 8 && Offset(fs, false, 1) == 8;
    assert End(fs, false, 2) == 16 && Offset(fs, false, 2) == 16;
    assert End(fs, false, 3) == 24;
    assert FieldBytes(fs, false, 0, 0) == [];
    assert FieldBytes(fs, false, 1, 0) == Range(0, 8);
    assert FieldBytes(fs, false, 2, 0) == Range(0, 8) + Range(8, 8) == Range(0, 16);
    assert FieldBytes(fs, false, 3, 0) == Range(0, 16) + Range(16, 8) == Range(0, 24);
  }
}
