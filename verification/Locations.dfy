/** Argument locations, and the refinement of word-sized slots by a type. */
module Locations {
  import opened TypeLayout
  import opened Leaves


  /** `RegLoc` is the `index`-th register of the integer or floating-point argument list. */
  datatype Loc =
    | RegLoc(fp: bool, index: nat, offset: nat, size: nat)
    | StackLoc(offset: nat, size: nat)
    | Combo(parts: seq<Loc>)
    | ArrayLoc(elems: seq<Loc>)
    | StructLoc(fields: seq<Loc>)

  /** One byte of a register or of the stack, relative to the stack base. */
  datatype ByteLoc = RegByte(fp: bool, index: nat, at: nat) | StackByte(at: nat)

  predicate Plain(l: Loc) { l.RegLoc? || l.StackLoc? }

  function PlainByte(l: Loc, i: nat): ByteLoc
    requires Plain(l)
  {
    if l.RegLoc? then RegByte(l.fp, l.index, l.offset + i) else StackByte(l.offset + i)
  }

  function PlainBytes(l: Loc): seq<ByteLoc>
    requires Plain(l)
  {
    seq(l.size, i requires 0 <= i < l.size => PlainByte(l, i))
  }

  /** The bytes behind a location, least significant first, in the order of its parts. */
  function LocBytes(l: Loc): seq<ByteLoc>
    decreases l, 0
  {
    match l
    case RegLoc(_, _, _, _) => PlainBytes(l)
    case StackLoc(_, _) => PlainBytes(l)
    case Combo(ps) => ConcatBytes(ps)
    case ArrayLoc(es) => ConcatBytes(es)
    case StructLoc(fs) => ConcatBytes(fs)
  }

  function ConcatBytes(ls: seq<Loc>): seq<ByteLoc>
    decreases ls, 0
  {
    if ls == [] then [] else LocBytes(ls[0]) + ConcatBytes(ls[1..])
  }

  lemma Reassociate<X>(a: seq<X>, b: seq<X>, c: seq<X>)
    ensures a + b + c == a + (b + c)
  {
  }

  lemma ConcatBytesCons(head: Loc, tail: seq<Loc>)
    ensures ConcatBytes([head] + tail) == LocBytes(head) + ConcatBytes(tail)
  {
    assert ([head] + tail)[1..] == tail;
  }

  lemma {:induction false} ConcatBytesSplit(a: seq<Loc>, b: seq<Loc>)
    ensures ConcatBytes(a + b) == ConcatBytes(a) + ConcatBytes(b)
  {
    if a == [] {
      assert a + b == b;
    } else {
      ConcatBytesSplit(a[1..], b);
      assert a + b == [a[0]] + (a[1..] + b);
      ConcatBytesCons(a[0], a[1..] + b);
      Reassociate(LocBytes(a[0]), ConcatBytes(a[1..]), ConcatBytes(b));
    }
  }

  // ------------------------------------------------- refinement

  function RefineLoc(l: Loc, size: nat, offset: nat): Loc
    requires Plain(l)
  {
    if l.RegLoc? then RegLoc(l.fp, l.index, l.offset + offset, size) else StackLoc(l.offset + offset, size)
  }

  /** Word-sized slots, the only thing refinement accepts. */
  predicate WordSlots(slots: seq<Loc>) {
    forall i :: 0 <= i < |slots| ==> Plain(slots[i]) && slots[i].size == WORD
  }

  function Min(a: nat, b: nat): nat { if a < b then a else b }

  function Wrap(pieces: seq<Loc>): Loc { if |pieces| == 1 then pieces[0] else Combo(pieces) }

  /** The byte of the slots that holds byte `p` of the value. */
  function ByteOf(slots: seq<Loc>, p: nat): ByteLoc
    requires WordSlots(slots) && p < WORD * |slots|
  {
    PlainByte(slots[p / WORD], p % WORD)
  }

  predicate InSlots(slots: seq<Loc>, ps: seq<nat>) { forall i :: 0 <= i < |ps| ==> ps[i] < WORD * |slots| }

  function MapBytes(slots: seq<Loc>, ps: seq<nat>): seq<ByteLoc>
    requires WordSlots(slots) && InSlots(slots, ps)
  {
    seq(|ps|, i requires 0 <= i < |ps| => ByteOf(slots, ps[i]))
  }

  /** The loop that cuts a scalar of `size` bytes at `offset` into pieces of single slots: the
      pieces hold exactly those bytes, in order, whatever slots they fall into. */
  method RefineScalar(slots: seq<Loc>, size: nat, offset: nat) returns (loc: Loc)
    requires WordSlots(slots) && offset + size <= WORD * |slots|
    ensures loc == ScalarLoc(slots, size, offset)
    ensures InSlots(slots, Range(offset, size))
    ensures LocBytes(loc) == MapBytes(slots, Range(offset, size))
  {
    var seen := 0;
    var pieces := [];
    while seen < size
      invariant seen <= size
      invariant pieces + Pieces(slots, size, offset, seen) == Pieces(slots, size, offset, 0)
    {
      var start := offset + seen;
      var chunk, chunkOffset := start / WORD, start % WORD;
      var use := Min(WORD - chunkOffset, size - seen);
      var piece := RefineLoc(slots[chunk], use, chunkOffset);
      Reassociate(pieces, [piece], Pieces(slots, size, offset, seen + use));
      pieces := pieces + [piece];
      seen := seen + use;
    }
    loc := Wrap(pieces);
    assert pieces + [] == pieces;
    ScalarLocBytes(slots, size, offset);
  }

  function Pieces(slots: seq<Loc>, size: nat, offset: nat, seen: nat): (r: seq<Loc>)
    requires WordSlots(slots) && seen <= size && offset + size <= WORD * |slots|
    decreases size - seen
  {
    if seen == size then []
    else
      var start := offset + seen;
      var use := Min(WORD - start % WORD, size - seen);
      [RefineLoc(slots[start / WORD], use, start % WORD)] + Pieces(slots, size, offset, seen + use)
  }

  function ScalarLoc(slots: seq<Loc>, size: nat, offset: nat): Loc
    requires WordSlots(slots) && offset + size <= WORD * |slots|
  {
    Wrap(Pieces(slots, size, offset, 0))
  }

  lemma RangeSplit(lo: nat, k: nat, n: nat)
    requires k <= n
    ensures Range(lo, n) == Range(lo, k) + Range(lo + k, n - k)
  {
  }

  /** One piece stays inside one slot. */
  lemma PieceBytes(slots: seq<Loc>, start: nat, use: nat)
    requires WordSlots(slots) && start % WORD + use <= WORD && start / WORD < |slots|
    ensures InSlots(slots, Range(start, use))
    ensures PlainBytes(RefineLoc(slots[start / WORD], use, start % WORD)) == MapBytes(slots, Range(start, use))
  {
    var c := start / WORD;
    var head := RefineLoc(slots[c], use, start % WORD);
    forall i | 0 <= i < use
      ensures start + i < WORD * |slots| && PlainByte(head, i) == ByteOf(slots, start + i)
    {
      assert (start + i) / WORD == c && (start + i) % WORD == start % WORD + i;
    }
  }

  /** The first piece and the rest. */
  lemma PiecesStep(slots: seq<Loc>, size: nat, offset: nat, seen: nat) returns (use: nat)
    requires WordSlots(slots) && seen < size && offset + size <= WORD * |slots|
    ensures 0 < use <= size - seen
    ensures (offset + seen) % WORD + use <= WORD && (offset + seen) / WORD < |slots|
    ensures Pieces(slots, size, offset, seen)
         == [RefineLoc(slots[(offset + seen) / WORD], use, (offset + seen) % WORD)] + Pieces(slots, size, offset, seen + use)
  {
    use := Min(WORD - (offset + seen) % WORD, size - seen);
  }

  lemma {:induction false} PiecesBytes(slots: seq<Loc>, size: nat, offset: nat, seen: nat)
    requires WordSlots(slots) && seen <= size && offset + size <= WORD * |slots|
    ensures InSlots(slots, Range(offset + seen, size - seen))
    ensures ConcatBytes(Pieces(slots, size, offset, seen)) == MapBytes(slots, Range(offset + seen, size - seen))
    decreases size - seen
  {
    if seen < size {
      var use := PiecesStep(slots, size, offset, seen);
      PiecesBytes(slots, size, offset, seen + use);
      var start, left := offset + seen, size - seen - use;
      assert offset + (seen + use) == start + use && size - (seen + use) == left && use + left == size - seen;
      FirstPiece(slots, start, use, left, Pieces(slots, size, offset, seen + use));
    }
  }

  /** A piece in front of pieces that hold the following bytes. */
  lemma FirstPiece(slots: seq<Loc>, start: nat, use: nat, left: nat, tail: seq<Loc>)
    requires WordSlots(slots) && start % WORD + use <= WORD && start / WORD < |slots|
    requires InSlots(slots, Range(start + use, left))
    requires ConcatBytes(tail) == MapBytes(slots, Range(start + use, left))
    ensures InSlots(slots, Range(start, use + left))
    ensures ConcatBytes([RefineLoc(slots[start / WORD], use, start % WORD)] + tail) == MapBytes(slots, Range(start, use + left))
  {
    PieceBytes(slots, start, use);
    RangeSplit(start, use, use + left);
    MapBytesConcat(slots, Range(start, use), Range(start + use, left));
    ConcatBytesCons(RefineLoc(slots[start / WORD], use, start % WORD), tail);
  }

  lemma ScalarLocBytes(slots: seq<Loc>, size: nat, offset: nat)
    requires WordSlots(slots) && offset + size <= WORD * |slots|
    ensures InSlots(slots, Range(offset, size))
    ensures LocBytes(ScalarLoc(slots, size, offset)) == MapBytes(slots, Range(offset, size))
  {
    PiecesBytes(slots, size, offset, 0);
    var ps := Pieces(slots, size, offset, 0);
    if |ps| == 1 {
      assert ps[1..] == [];
      assert ConcatBytes(ps) == LocBytes(ps[0]) + [];
    }
  }

  /** `refine_locs_with_struct_type`. */
  function Refine(slots: seq<Loc>, t: SimType, offset: nat): Loc
    requires Wf(t) && WordSlots(slots) && offset + Size(t) <= WORD * |slots|
    decreases t, 0, 0
  {
    match t
    case Array(e, n) => ArrayLoc(RefineElems(slots, e, n, offset))
    case Struct(fs, packed, _) => StructLoc(RefineFields(slots, fs, packed, |fs|, offset))
    case Union(ms) =>
      MaxSizeReached(ms);
      Refine(slots, ms[FullMember(ms, MaxSize(ms))], offset)
    case _ => ScalarLoc(slots, Size(t), offset)
  }

  function RefineElems(slots: seq<Loc>, e: SimType, n: nat, offset: nat): seq<Loc>
    requires Wf(e) && WordSlots(slots) && offset + n * Size(e) <= WORD * |slots|
    decreases e, 1, n
  {
    if n == 0 then []
    else
      MulStep(n, Size(e));
      [Refine(slots, e, offset)] + RefineElems(slots, e, n - 1, offset + Size(e))
  }

  function RefineFields(slots: seq<Loc>, fs: seq<SimType>, packed: bool, k: nat, offset: nat): seq<Loc>
    requires AllWf(fs) && k <= |fs| && WordSlots(slots) && offset + End(fs, packed, k) <= WORD * |slots|
    decreases fs, 0, k
  {
    if k == 0 then []
    else
      FieldBounds(fs, packed, k - 1);
      RefineFields(slots, fs, packed, k - 1, offset)
        + [Refine(slots, fs[k - 1], offset + Offset(fs, packed, k - 1))]
  }

  lemma MapBytesConcat(slots: seq<Loc>, a: seq<nat>, b: seq<nat>)
    requires WordSlots(slots) && InSlots(slots, a) && InSlots(slots, b)
    ensures InSlots(slots, a + b)
    ensures MapBytes(slots, a + b) == MapBytes(slots, a) + MapBytes(slots, b)
  {
  }

  ghost predicate RefinesTo(slots: seq<Loc>, bytes: seq<ByteLoc>, ps: seq<nat>)
    requires WordSlots(slots)
  {
    InSlots(slots, ps) && bytes == MapBytes(slots, ps)
  }

  lemma ConcatBytesSnoc(front: seq<Loc>, last: Loc)
    ensures ConcatBytes(front + [last]) == ConcatBytes(front) + LocBytes(last)
  {
    ConcatBytesSplit(front, [last]);
    assert [last][1..] == [];
    assert ConcatBytes([last]) == LocBytes(last) + [];
  }

  lemma RefinesConcat(slots: seq<Loc>, xs: seq<ByteLoc>, ps: seq<nat>, ys: seq<ByteLoc>, qs: seq<nat>)
    requires WordSlots(slots) && RefinesTo(slots, xs, ps) && RefinesTo(slots, ys, qs)
    ensures RefinesTo(slots, xs + ys, ps + qs)
  {
    MapBytesConcat(slots, ps, qs);
  }

  /** The location tree of a value covers exactly the value's bytes, each by the slot byte at its
      own position: nothing is dropped, duplicated or moved. */
  lemma {:induction false} RefineBytes(slots: seq<Loc>, t: SimType, offset: nat)
    requires Wf(t) && WordSlots(slots) && offset + Size(t) <= WORD * |slots|
    ensures RefinesTo(slots, LocBytes(Refine(slots, t, offset)), BytesAt(t, offset))
    decreases t, 0, 0
  {
    match t
    case Array(e, n) => RefineElemsBytes(slots, e, n, offset);
    case Struct(fs, packed, _) => RefineFieldsBytes(slots, fs, packed, |fs|, offset);
    case Union(ms) =>
      MaxSizeReached(ms);
      RefineBytes(slots, ms[FullMember(ms, MaxSize(ms))], offset);
    case _ => ScalarLocBytes(slots, Size(t), offset);
  }

  lemma {:induction false} RefineElemsBytes(slots: seq<Loc>, e: SimType, n: nat, offset: nat)
    requires Wf(e) && WordSlots(slots) && offset + n * Size(e) <= WORD * |slots|
    ensures RefinesTo(slots, ConcatBytes(RefineElems(slots, e, n, offset)), ArrayBytes(e, n, offset))
    decreases e, 1, n
  {
    if n > 0 {
      var s := Size(e);
      MulStep(n, s);
      assert offset + s + (n - 1) * s <= WORD * |slots|;
      RefineBytes(slots, e, offset);
      RefineElemsBytes(slots, e, n - 1, offset + s);
      ElemsStep(slots, e, n, offset);
    }
  }

  lemma ElemsStep(slots: seq<Loc>, e: SimType, n: nat, offset: nat)
    requires Wf(e) && WordSlots(slots) && n > 0 && offset + Size(e) <= WORD * |slots|
    requires offset + n * Size(e) <= WORD * |slots| && offset + Size(e) + (n - 1) * Size(e) <= WORD * |slots|
    requires RefinesTo(slots, LocBytes(Refine(slots, e, offset)), BytesAt(e, offset))
    requires RefinesTo(slots, ConcatBytes(RefineElems(slots, e, n - 1, offset + Size(e))), ArrayBytes(e, n - 1, offset + Size(e)))
    ensures RefinesTo(slots, ConcatBytes(RefineElems(slots, e, n, offset)), ArrayBytes(e, n, offset))
  {
    var head, tail := Refine(slots, e, offset), RefineElems(slots, e, n - 1, offset + Size(e));
    RefinesConcat(slots, LocBytes(head), BytesAt(e, offset), ConcatBytes(tail), ArrayBytes(e, n - 1, offset + Size(e)));
    ConcatBytesCons(head, tail);
  }

  lemma {:induction false} RefineFieldsBytes(slots: seq<Loc>, fs: seq<SimType>, packed: bool, k: nat, offset: nat)
    requires AllWf(fs) && k <= |fs| && WordSlots(slots) && offset + End(fs, packed, k) <= WORD * |slots|
    ensures RefinesTo(slots, ConcatBytes(RefineFields(slots, fs, packed, k, offset)), FieldBytes(fs, packed, k, offset))
    decreases fs, 0, k
  {
    if k > 0 {
      FieldBounds(fs, packed, k - 1);
      var at := offset + Offset(fs, packed, k - 1);
      RefineFieldsBytes(slots, fs, packed, k - 1, offset);
      RefineBytes(slots, fs[k - 1], at);
      var front, last := RefineFields(slots, fs, packed, k - 1, offset), Refine(slots, fs[k - 1], at);
      RefinesConcat(slots, ConcatBytes(front), FieldBytes(fs, packed, k - 1, offset), LocBytes(last), BytesAt(fs[k - 1], at));
      ConcatBytesSnoc(front, last);
    }
  }

  // ------------------------------------------------- distinctness

  predicate NoRepeats(bs: seq<ByteLoc>) { forall i, j :: 0 <= i < j < |bs| ==> bs[i] != bs[j] }

  /** The slots share no byte. */
  predicate SlotsApart(slots: seq<Loc>)
    requires WordSlots(slots)
  {
    forall i, j, x, y :: 0 <= i < j < |slots| && 0 <= x < WORD && 0 <= y < WORD ==>
      PlainByte(slots[i], x) != PlainByte(slots[j], y)
  }

  lemma ByteOfInjective(slots: seq<Loc>, p: nat, q: nat)
    requires WordSlots(slots) && SlotsApart(slots) && p < q < WORD * |slots|
    ensures ByteOf(slots, p) != ByteOf(slots, q)
  {
    assert p == p / WORD * WORD + p % WORD && q == q / WORD * WORD + q % WORD;
    if p / WORD < q / WORD {
      assert PlainByte(slots[p / WORD], p % WORD) != PlainByte(slots[q / WORD], q % WORD);
    }
  }

  lemma RefineNoRepeats(slots: seq<Loc>, t: SimType)
    requires Wf(t) && WordSlots(slots) && SlotsApart(slots) && Size(t) <= WORD * |slots|
    ensures NoRepeats(LocBytes(Refine(slots, t, 0)))
  {
    RefineBytes(slots, t, 0);
    BytesIncreasing(t, 0);
    var ps := BytesAt(t, 0);
    forall i, j | 0 <= i < j < |ps|
      ensures MapBytes(slots, ps)[i] != MapBytes(slots, ps)[j]
    {
      ByteOfInjective(slots, ps[i], ps[j]);
    }
  }
}
