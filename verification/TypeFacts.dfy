/** Sizes, alignments, leaves, bytes and classes of a type, said over the type itself: which sizes and
    alignments there are, what flattening finds, which bytes a value has, and the class of each
    eightbyte (section 3.2.3 of the System V AMD64 psABI). */
module TypeFacts {
  import opened Wrappers
  import opened TypeLayout
  import opened Leaves
  import opened Classify
  import opened Locations

  // ------------------------------------------------- sizes and alignments

  /** Integers and pointers are aligned to their size, floats to four bytes, doubles to eight or four. */
  lemma ScalarLayout(n: nat, eight: bool)
    ensures Size(Num(n)) == n && Align(Num(n)) == if n == 0 then 1 else n
    ensures Size(Float) == 4 && Align(Float) == 4
    ensures Size(Double(eight)) == 8 && Align(Double(eight)) == if eight then 8 else 4
  {
  }

  /** The greatest alignment of the types, one if there are none. */
  ghost predicate GreatestAlign(ts: seq<SimType>, a: nat)
    requires AllWf(ts)
  {
    && (forall i :: 0 <= i < |ts| ==> Align(ts[i]) <= a)
    && (if ts == [] then a == 1 else exists i :: 0 <= i < |ts| && Align(ts[i]) == a)
  }

  lemma {:induction false} MaxAlignGreatest(ts: seq<SimType>)
    requires AllWf(ts)
    ensures GreatestAlign(ts, MaxAlign(ts))
  {
    if ts != [] {
      MaxAlignGreatest(ts[1..]);
      var a, rest := MaxAlign(ts), ts[1..];
      if a == Align(ts[0]) {
        assert Align(ts[0]) == a;
      } else {
        var i :| 0 <= i < |rest| && Align(rest[i]) == a;
        assert Align(ts[i + 1]) == a;
      }
      forall i | 0 <= i < |ts| ensures Align(ts[i]) <= a {
        if i > 0 { assert ts[i] == rest[i - 1]; }
      }
    }
  }

  ghost predicate GreatestSize(ts: seq<SimType>, n: nat)
    requires AllWf(ts)
  {
    (forall i :: 0 <= i < |ts| ==> Size(ts[i]) <= n) && exists i :: 0 <= i < |ts| && Size(ts[i]) == n
  }

  lemma MaxSizeGreatest(ts: seq<SimType>)
    requires AllWf(ts) && ts != []
    ensures GreatestSize(ts, MaxSize(ts))
  {
    MaxSizeReached(ts);
    forall i | 0 <= i < |ts| ensures Size(ts[i]) <= MaxSize(ts) { MaxSizeBound(ts, i); }
  }

  /** What aggregates make of their parts. */
  lemma AggregateLayout(t: SimType)
    requires Wf(t)
    ensures match t
            case Array(e, n) => Size(t) == n * Size(e) && Align(t) == Align(e)
            case Struct(fs, packed, a) =>
              && (a.Some? ==> Align(t) == a.value) && (a.None? ==> GreatestAlign(fs, Align(t)))
              && Size(t) == if fs == [] then 0 else Offset(fs, packed, |fs| - 1) + Size(fs[|fs| - 1])
            case Union(ms) => GreatestAlign(ms, Align(t)) && GreatestSize(ms, Size(t))
            case _ => true
  {
    match t
    case Struct(fs, packed, _) =>
      MaxAlignGreatest(fs);
      if fs != [] { FieldBounds(fs, packed, |fs| - 1); }
    case Union(ms) =>
      MaxAlignGreatest(ms);
      MaxSizeGreatest(ms);
    case _ =>
  }

  /** Where a field starts: at the end of the one before it, if the struct is packed or the field empty;
      otherwise at the next multiple of its alignment. */
  lemma FieldStart(fs: seq<SimType>, packed: bool, k: nat)
    requires k < |fs| && AllWf(fs)
    ensures var before := if k == 0 then 0 else Offset(fs, packed, k - 1) + Size(fs[k - 1]);
            var at := Offset(fs, packed, k);
            if packed || Size(fs[k]) == 0 then at == before
            else at % Align(fs[k]) == 0 && before <= at < before + Align(fs[k])
  {
    FieldPlacement(fs, packed, k);
    if k > 0 { FieldPlacement(fs, packed, k - 1); }
  }

  // ------------------------------------------------- access paths

  /** The first of the greatest members, which stands for a union. */
  predicate Stands(ms: seq<SimType>, k: nat)
    requires AllWf(ms) && k < |ms|
  {
    (forall j :: 0 <= j < |ms| ==> Size(ms[j]) <= Size(ms[k])) && forall j :: 0 <= j < k ==> Size(ms[j]) < Size(ms[k])
  }

  /** The scalar that an access path leads to in a value at `off`: array indices, field numbers and member
      numbers; with `full` only through members that stand for their union. */
  function ScalarAt(t: SimType, off: nat, path: seq<nat>, full: bool): Option<Leaf>
    requires Wf(t)
    decreases t
  {
    match t
    case Array(e, n) =>
      if path == [] || path[0] >= n then None else ScalarAt(e, off + path[0] * Size(e), path[1..], full)
    case Struct(fs, packed, _) =>
      if path == [] || path[0] >= |fs| then None
      else ScalarAt(fs[path[0]], off + Offset(fs, packed, path[0]), path[1..], full)
    case Union(ms) =>
      if path == [] || path[0] >= |ms| || (full && !Stands(ms, path[0])) then None
      else ScalarAt(ms[path[0]], off, path[1..], full)
    case _ => if path == [] then Some(Leaf(off, t)) else None
  }

  /** A scalar of the value. */
  ghost predicate LeafOf(t: SimType, off: nat, l: Leaf)
    requires Wf(t)
  {
    exists path :: ScalarAt(t, off, path, false) == Some(l)
  }

  lemma Step(k: nat, rest: seq<nat>)
    ensures var path := [k] + rest; path != [] && path[0] == k && path[1..] == rest
  {
  }

  // ------------------------------------------------- leaves

  lemma {:induction false} PathOf(t: SimType, off: nat, l: Leaf) returns (path: seq<nat>)
    requires Wf(t) && l in LeavesAt(t, off)
    ensures ScalarAt(t, off, path, false) == Some(l)
    decreases t, 0, 0
  {
    match t
    case Array(e, n) =>
      var i, at, rest := PathOfElem(e, n, off, l);
      Step(i, rest);
      path := [i] + rest;
    case Struct(fs, packed, _) =>
      var k, rest := PathOfField(fs, packed, |fs|, off, l);
      Step(k, rest);
      path := [k] + rest;
    case Union(ms) =>
      var k, rest := PathOfMember(ms, off, l);
      Step(k, rest);
      path := [k] + rest;
    case _ => path := [];
  }

  lemma {:induction false} PathOfElem(e: SimType, n: nat, off: nat, l: Leaf) returns (i: nat, at: nat, rest: seq<nat>)
    requires Wf(e) && l in ArrayLeaves(e, n, off)
    ensures i < n && at == off + i * Size(e) && ScalarAt(e, at, rest, false) == Some(l)
    decreases e, 1, n
  {
    if l in LeavesAt(e, off) {
      i, at := 0, off;
      rest := PathOf(e, off, l);
    } else {
      i, at, rest := PathOfElem(e, n - 1, off + Size(e), l);
      MulStep(i + 1, Size(e));
      i := i + 1;
    }
  }

  lemma {:induction false} PathOfField(fs: seq<SimType>, packed: bool, k: nat, off: nat, l: Leaf) returns (i: nat, rest: seq<nat>)
    requires AllWf(fs) && k <= |fs| && l in FieldLeaves(fs, packed, k, off)
    ensures i < k && ScalarAt(fs[i], off + Offset(fs, packed, i), rest, false) == Some(l)
    decreases fs, 0, k
  {
    if l in FieldLeaves(fs, packed, k - 1, off) {
      i, rest := PathOfField(fs, packed, k - 1, off, l);
    } else {
      i := k - 1;
      rest := PathOf(fs[i], off + Offset(fs, packed, i), l);
    }
  }

  lemma {:induction false} PathOfMember(ms: seq<SimType>, off: nat, l: Leaf) returns (i: nat, rest: seq<nat>)
    requires AllWf(ms) && l in MemberLeaves(ms, off)
    ensures i < |ms| && ScalarAt(ms[i], off, rest, false) == Some(l)
    decreases ms, 0, 0
  {
    if l in LeavesAt(ms[0], off) {
      i := 0;
      rest := PathOf(ms[0], off, l);
    } else {
      i, rest := PathOfMember(ms[1..], off, l);
      i := i + 1;
    }
  }

  lemma {:induction false} PathFlattened(t: SimType, off: nat, path: seq<nat>)
    requires Wf(t) && ScalarAt(t, off, path, false).Some?
    ensures ScalarAt(t, off, path, false).value in LeavesAt(t, off)
    decreases t
  {
    match t
    case Array(e, n) =>
      PathFlattened(e, off + path[0] * Size(e), path[1..]);
      ElemFlattened(e, n, off, path[0], off + path[0] * Size(e), ScalarAt(t, off, path, false).value);
    case Struct(fs, packed, _) =>
      PathFlattened(fs[path[0]], off + Offset(fs, packed, path[0]), path[1..]);
      FieldFlattened(fs, packed, |fs|, off, path[0], ScalarAt(t, off, path, false).value);
    case Union(ms) =>
      PathFlattened(ms[path[0]], off, path[1..]);
      MemberFlattened(ms, off, path[0], ScalarAt(t, off, path, false).value);
    case _ =>
  }

  lemma {:induction false} ElemFlattened(e: SimType, n: nat, off: nat, i: nat, at: nat, l: Leaf)
    requires Wf(e) && i < n && at == off + i * Size(e) && l in LeavesAt(e, at)
    ensures l in ArrayLeaves(e, n, off)
    decreases n
  {
    if i > 0 {
      MulStep(i, Size(e));
      ElemFlattened(e, n - 1, off + Size(e), i - 1, at, l);
    }
  }

  lemma {:induction false} FieldFlattened(fs: seq<SimType>, packed: bool, k: nat, off: nat, i: nat, l: Leaf)
    requires AllWf(fs) && i < k <= |fs| && l in LeavesAt(fs[i], off + Offset(fs, packed, i))
    ensures l in FieldLeaves(fs, packed, k, off)
    decreases k
  {
    if i < k - 1 { FieldFlattened(fs, packed, k - 1, off, i, l); }
  }

  lemma {:induction false} MemberFlattened(ms: seq<SimType>, off: nat, i: nat, l: Leaf)
    requires AllWf(ms) && i < |ms| && l in LeavesAt(ms[i], off)
    ensures l in MemberLeaves(ms, off)
  {
    if i > 0 { MemberFlattened(ms[1..], off, i - 1, l); }
  }

  /** Flattening finds exactly the scalars that access paths lead to. */
  lemma LeavesExact(t: SimType, off: nat, l: Leaf)
    requires Wf(t)
    ensures l in LeavesAt(t, off) <==> LeafOf(t, off, l)
  {
    if l in LeavesAt(t, off) { var path := PathOf(t, off, l); }
    if path :| ScalarAt(t, off, path, false) == Some(l) { PathFlattened(t, off, path); }
  }

  /** The type is part of another, at any depth. */
  ghost predicate Inside(u: SimType, t: SimType) {
    u == t ||
    match t
    case Array(e, _) => Inside(u, e)
    case Struct(fs, _, _) => exists k :: 0 <= k < |fs| && Inside(u, fs[k])
    case Union(ms) => exists k :: 0 <= k < |ms| && Inside(u, ms[k])
    case _ => false
  }

  ghost predicate PackedInside(t: SimType) { exists u :: Inside(u, t) && u.Struct? && u.packed }

  /** Flattening gives up exactly if some struct inside is packed. */
  lemma {:induction false} PackedIff(t: SimType)
    ensures AnyPacked(t) <==> PackedInside(t)
  {
    match t
    case Array(e, _) =>
      PackedIff(e);
      if u :| Inside(u, e) && u.Struct? && u.packed { assert Inside(u, t); }
    case Struct(fs, packed, _) =>
      forall k | 0 <= k < |fs| ensures AnyPacked(fs[k]) <==> PackedInside(fs[k]) { PackedIff(fs[k]); }
      PackedPart(t, fs);
      assert Inside(t, t);
    case Union(ms) =>
      forall k | 0 <= k < |ms| ensures AnyPacked(ms[k]) <==> PackedInside(ms[k]) { PackedIff(ms[k]); }
      PackedPart(t, ms);
    case _ =>
  }

  lemma PackedPart(t: SimType, ts: seq<SimType>)
    requires (t.Struct? && t.fields == ts) || (t.Union? && t.members == ts)
    ensures (exists k :: 0 <= k < |ts| && PackedInside(ts[k])) <==> exists u :: u != t && Inside(u, t) && u.Struct? && u.packed
  {
    if k :| 0 <= k < |ts| && PackedInside(ts[k]) {
      var u :| Inside(u, ts[k]) && u.Struct? && u.packed;
      InsideSmaller(u, ts[k]);
      assert Inside(u, t);
      PartSmaller(t, ts, k);
    }
  }

  function Depth(t: SimType): nat {
    match t
    case Array(e, _) => 1 + Depth(e)
    case Struct(fs, _, _) => 1 + DepthOf(fs)
    case Union(ms) => 1 + DepthOf(ms)
    case _ => 0
  }

  function DepthOf(ts: seq<SimType>): nat { if ts == [] then 0 else Max(Depth(ts[0]), DepthOf(ts[1..])) }

  lemma {:induction false} DepthBound(ts: seq<SimType>, k: nat)
    requires k < |ts|
    ensures Depth(ts[k]) <= DepthOf(ts)
  {
    if k > 0 { DepthBound(ts[1..], k - 1); }
  }

  lemma PartSmaller(t: SimType, ts: seq<SimType>, k: nat)
    requires ((t.Struct? && t.fields == ts) || (t.Union? && t.members == ts)) && k < |ts|
    ensures Depth(ts[k]) < Depth(t)
  {
    DepthBound(ts, k);
  }

  lemma {:induction false} InsideSmaller(u: SimType, t: SimType)
    requires Inside(u, t)
    ensures Depth(u) <= Depth(t)
  {
    if u != t {
      match t
      case Array(e, _) => InsideSmaller(u, e);
      case Struct(fs, _, _) =>
        var k :| 0 <= k < |fs| && Inside(u, fs[k]);
        InsideSmaller(u, fs[k]);
        PartSmaller(t, fs, k);
      case Union(ms) =>
        var k :| 0 <= k < |ms| && Inside(u, ms[k]);
        InsideSmaller(u, ms[k]);
        PartSmaller(t, ms, k);
      case _ =>
    }
  }

  // ------------------------------------------------- bytes

  lemma FullStands(ms: seq<SimType>)
    requires AllWf(ms) && ms != []
    ensures exists i :: 0 <= i < |ms| && Size(ms[i]) == MaxSize(ms)
    ensures Stands(ms, FullMember(ms, MaxSize(ms)))
    ensures forall k :: 0 <= k < |ms| && Stands(ms, k) ==> k == FullMember(ms, MaxSize(ms))
  {
    MaxSizeReached(ms);
    var m := FullMember(ms, MaxSize(ms));
    forall j | 0 <= j < |ms| ensures Size(ms[j]) <= Size(ms[m]) { MaxSizeBound(ms, j); }
  }

  predicate Holds(l: Leaf, p: nat)
    requires Wf(l.ty)
  {
    l.offset <= p < l.offset + Size(l.ty)
  }

  predicate PathHolds(t: SimType, off: nat, path: seq<nat>, p: nat)
    requires Wf(t)
  {
    match ScalarAt(t, off, path, true)
    case Some(l) => Wf(l.ty) && Holds(l, p)
    case None => false
  }

  /** Byte `p` belongs to the value of type `t` at `off`: some access path, through the members that stand
      for their unions, leads to a scalar that has it. */
  ghost predicate ByteOfValue(t: SimType, off: nat, p: nat)
    requires Wf(t)
  {
    exists path :: PathHolds(t, off, path, p)
  }

  lemma {:induction false} PathOfByte(t: SimType, off: nat, p: nat) returns (path: seq<nat>)
    requires Wf(t) && p in BytesAt(t, off)
    ensures PathHolds(t, off, path, p)
    decreases t, 0, 0
  {
    match t
    case Array(e, n) =>
      var i, at, rest := PathOfElemByte(e, n, off, p);
      Step(i, rest);
      path := [i] + rest;
    case Struct(fs, packed, _) =>
      var k, rest := PathOfFieldByte(fs, packed, |fs|, off, p);
      Step(k, rest);
      path := [k] + rest;
    case Union(ms) =>
      FullStands(ms);
      var k := FullMember(ms, MaxSize(ms));
      var rest := PathOfByte(ms[k], off, p);
      Step(k, rest);
      path := [k] + rest;
    case _ =>
      var i :| 0 <= i < |BytesAt(t, off)| && BytesAt(t, off)[i] == p;
      path := [];
  }

  lemma {:induction false} PathOfElemByte(e: SimType, n: nat, off: nat, p: nat) returns (i: nat, at: nat, rest: seq<nat>)
    requires Wf(e) && p in ArrayBytes(e, n, off)
    ensures i < n && at == off + i * Size(e) && PathHolds(e, at, rest, p)
    decreases e, 1, n
  {
    if p in BytesAt(e, off) {
      i, at := 0, off;
      rest := PathOfByte(e, off, p);
    } else {
      i, at, rest := PathOfElemByte(e, n - 1, off + Size(e), p);
      MulStep(i + 1, Size(e));
      i := i + 1;
    }
  }

  lemma {:induction false} PathOfFieldByte(fs: seq<SimType>, packed: bool, k: nat, off: nat, p: nat) returns (i: nat, rest: seq<nat>)
    requires AllWf(fs) && k <= |fs| && p in FieldBytes(fs, packed, k, off)
    ensures i < k && PathHolds(fs[i], off + Offset(fs, packed, i), rest, p)
    decreases fs, 0, k
  {
    if p in FieldBytes(fs, packed, k - 1, off) {
      i, rest := PathOfFieldByte(fs, packed, k - 1, off, p);
    } else {
      i := k - 1;
      rest := PathOfByte(fs[i], off + Offset(fs, packed, i), p);
    }
  }

  lemma {:induction false} PathCovered(t: SimType, off: nat, path: seq<nat>, p: nat)
    requires Wf(t) && PathHolds(t, off, path, p)
    ensures p in BytesAt(t, off)
    decreases t
  {
    match t
    case Array(e, n) =>
      var at := off + path[0] * Size(e);
      PathCovered(e, at, path[1..], p);
      ElemCovered(e, n, off, path[0], at, p);
    case Struct(fs, packed, _) =>
      PathCovered(fs[path[0]], off + Offset(fs, packed, path[0]), path[1..], p);
      FieldCovered(fs, packed, |fs|, off, path[0], p);
    case Union(ms) =>
      FullStands(ms);
      PathCovered(ms[path[0]], off, path[1..], p);
    case _ => assert BytesAt(t, off)[p - off] == p;
  }

  lemma {:induction false} ElemCovered(e: SimType, n: nat, off: nat, i: nat, at: nat, p: nat)
    requires Wf(e) && i < n && at == off + i * Size(e) && p in BytesAt(e, at)
    ensures p in ArrayBytes(e, n, off)
    decreases n
  {
    if i > 0 {
      MulStep(i, Size(e));
      ElemCovered(e, n - 1, off + Size(e), i - 1, at, p);
    }
  }

  lemma {:induction false} FieldCovered(fs: seq<SimType>, packed: bool, k: nat, off: nat, i: nat, p: nat)
    requires AllWf(fs) && i < k <= |fs| && p in BytesAt(fs[i], off + Offset(fs, packed, i))
    ensures p in FieldBytes(fs, packed, k, off)
    decreases k
  {
    if i < k - 1 { FieldCovered(fs, packed, k - 1, off, i, p); }
  }

  /** The byte positions that a location tree has to cover are exactly those. */
  lemma BytesExact(t: SimType, off: nat, p: nat)
    requires Wf(t)
    ensures p in BytesAt(t, off) <==> ByteOfValue(t, off, p)
  {
    if p in BytesAt(t, off) { var path := PathOfByte(t, off, p); }
    if path :| PathHolds(t, off, path, p) { PathCovered(t, off, path, p); }
  }

  // ------------------------------------------------- classes

  /** A byte of the leaf lies in eightbyte `c`. */
  predicate Touches(l: Leaf, c: nat)
    requires Wf(l.ty)
  {
    l.offset < l.offset + Size(l.ty) && l.offset < 8 * c + 8 && 8 * c < l.offset + Size(l.ty)
  }

  lemma LeafScalar(t: SimType, l: Leaf)
    requires Wf(t) && LeafOf(t, 0, l)
    ensures l in LeavesAt(t, 0) && Scalar(l.ty)
  {
    LeavesExact(t, 0, l);
    LeavesContained(t, 0);
  }

  /** The classes of an argument: all MEMORY if it is an aggregate of more than two eightbytes or with a
      packed struct inside; otherwise an eightbyte is INTEGER if an integer or a pointer lies in it, and
      SSE if only floating-point scalars do. */
  lemma EightbyteClass(t: SimType, cs: seq<Class>, c: nat)
    requires Wf(t) && Classified(t, cs) && c < |cs|
    ensures |cs| == (Size(t) + 7) / 8
    ensures Scalar(t) ==> cs[c] == if t.Num? then Integer else Sse
    ensures !Scalar(t) ==> (cs[c] == Memory <==> Size(t) > 16 || PackedInside(t))
    ensures !Scalar(t) && cs[c] != Memory ==>
              cs[c] == if exists l :: LeafOf(t, 0, l) && l.ty.Num? && Touches(l, c) then Integer else Sse
  {
    PackedIff(t);
    if !Scalar(t) && cs[c] != Memory {
      assert IsMergedClass0(t, c, cs[c]);
      LeavesContained(t, 0);
      var ls := LeavesAt(t, 0);
      if l :| LeafOf(t, 0, l) && l.ty.Num? && Touches(l, c) {
        LeafScalar(t, l);
        var i :| 0 <= i < |ls| && ls[i] == l;
        assert Overlaps(ls[i], c);
      }
      if cs[c] == Integer {
        var i :| 0 <= i < |ls| && Overlaps(ls[i], c) && ScalarClass(ls[i].ty) == Integer;
        LeavesExact(t, 0, ls[i]);
        assert Touches(ls[i], c);
      }
    }
  }

  /** The eightbytes that a scalar touches beyond the first are more than its size fills. */
  predicate Straddles(l: Leaf)
    requires Wf(l.ty)
  {
    Size(l.ty) > 0 && ((l.offset + Size(l.ty) - 1) / 8 - l.offset / 8) * 8 >= Size(l.ty)
  }

  /** Classification fails exactly for an aggregate of at most 64 bytes without packed structs that has a
      straddling scalar. */
  lemma ClassifiableIff(t: SimType)
    requires Wf(t)
    ensures forall l :: LeafOf(t, 0, l) ==> Wf(l.ty)
    ensures !Classifiable(t) <==>
              !Scalar(t) && Size(t) <= 64 && !PackedInside(t) && exists l :: LeafOf(t, 0, l) && Straddles(l)
  {
    PackedIff(t);
    LeavesContained(t, 0);
    var ls := LeavesAt(t, 0);
    forall l | LeafOf(t, 0, l) ensures Wf(l.ty) { LeafScalar(t, l); }
    if l :| LeafOf(t, 0, l) && Straddles(l) {
      LeafScalar(t, l);
      var i :| 0 <= i < |ls| && ls[i] == l;
      assert !Fits(ls[i]);
    }
    if !AllFit(ls) {
      var i :| 0 <= i < |ls| && !Fits(ls[i]);
      LeavesExact(t, 0, ls[i]);
      assert Straddles(ls[i]);
    }
  }

  // ------------------------------------------------- the shape of a location

  /** A location has the shape of a type: an array or struct location with one part per element or field,
      the shape of the member that stands for a union, and for a scalar a piece of one slot or several
      such pieces. */
  ghost predicate ShapedLike(l: Loc, t: SimType)
    requires Wf(t)
    decreases t
  {
    match t
    case Array(e, n) => l.ArrayLoc? && |l.elems| == n && forall i :: 0 <= i < n ==> ShapedLike(l.elems[i], e)
    case Struct(fs, _, _) => l.StructLoc? && |l.fields| == |fs| && forall k :: 0 <= k < |fs| ==> ShapedLike(l.fields[k], fs[k])
    case Union(ms) => exists k :: 0 <= k < |ms| && Stands(ms, k) && ShapedLike(l, ms[k])
    case _ => (Plain(l) && l.size == Size(t)) || (l.Combo? && |l.parts| != 1 && forall i :: 0 <= i < |l.parts| ==> Plain(l.parts[i]))
  }

  lemma {:induction false} PiecesArePlain(slots: seq<Loc>, size: nat, offset: nat, seen: nat)
    requires WordSlots(slots) && seen <= size && offset + size <= WORD * |slots|
    ensures forall i :: 0 <= i < |Pieces(slots, size, offset, seen)| ==> Plain(Pieces(slots, size, offset, seen)[i])
    ensures |Pieces(slots, size, offset, seen)| == 1 ==> Pieces(slots, size, offset, seen)[0].size == size - seen
    decreases size - seen
  {
    if seen < size {
      var use := PiecesStep(slots, size, offset, seen);
      PiecesArePlain(slots, size, offset, seen + use);
    }
  }

  lemma FieldRoom(fs: seq<SimType>, packed: bool, k: nat, offset: nat, room: nat)
    requires AllWf(fs) && 0 < k <= |fs| && offset + End(fs, packed, k) <= room
    ensures offset + End(fs, packed, k - 1) <= room && offset + Offset(fs, packed, k - 1) + Size(fs[k - 1]) <= room
  {
    FieldBounds(fs, packed, k - 1);
  }

  lemma LastField(slots: seq<Loc>, fs: seq<SimType>, packed: bool, k: nat, offset: nat, at: nat)
    requires AllWf(fs) && 0 < k <= |fs| && WordSlots(slots) && at == offset + Offset(fs, packed, k - 1)
    requires offset + End(fs, packed, k) <= WORD * |slots| && offset + End(fs, packed, k - 1) <= WORD * |slots|
    requires at + Size(fs[k - 1]) <= WORD * |slots|
    ensures RefineFields(slots, fs, packed, k, offset)
         == RefineFields(slots, fs, packed, k - 1, offset) + [Refine(slots, fs[k - 1], at)]
  {
  }

  ghost predicate ShapedPart(l: Loc, fs: seq<SimType>, k: nat)
    requires AllWf(fs) && k < |fs|
  {
    ShapedLike(l, fs[k])
  }

  ghost predicate ShapedFields(ls: seq<Loc>, fs: seq<SimType>, k: nat)
    requires AllWf(fs) && k <= |fs|
  {
    |ls| == k && forall i :: 0 <= i < k ==> ShapedPart(ls[i], fs, i)
  }

  lemma ShapedSnoc(ls: seq<Loc>, front: seq<Loc>, l: Loc, fs: seq<SimType>, k: nat)
    requires AllWf(fs) && 0 < k <= |fs| && ShapedFields(front, fs, k - 1) && ShapedPart(l, fs, k - 1) && ls == front + [l]
    ensures ShapedFields(ls, fs, k)
  {
    forall i | 0 <= i < k ensures ShapedPart(ls[i], fs, i) {
      if i < k - 1 { assert ls[i] == front[i]; }
    }
  }

  /** Refining slots by a type gives a location of its shape. */
  lemma {:induction false} RefineShape(slots: seq<Loc>, t: SimType, offset: nat)
    requires Wf(t) && WordSlots(slots) && offset + Size(t) <= WORD * |slots|
    ensures ShapedLike(Refine(slots, t, offset), t)
    decreases t, 0, 0
  {
    match t
    case Array(e, n) => ElemsShape(slots, e, n, offset);
    case Struct(fs, packed, _) =>
      FieldsShape(slots, fs, packed, |fs|, offset);
      var ls := RefineFields(slots, fs, packed, |fs|, offset);
      forall k | 0 <= k < |fs| ensures ShapedLike(ls[k], fs[k]) { assert ShapedPart(ls[k], fs, k); }
    case Union(ms) =>
      FullStands(ms);
      RefineShape(slots, ms[FullMember(ms, MaxSize(ms))], offset);
    case _ => PiecesArePlain(slots, Size(t), offset, 0);
  }

  lemma {:induction false} ElemsShape(slots: seq<Loc>, e: SimType, n: nat, offset: nat)
    requires Wf(e) && WordSlots(slots) && offset + n * Size(e) <= WORD * |slots|
    ensures var ls := RefineElems(slots, e, n, offset); |ls| == n && forall i :: 0 <= i < n ==> ShapedLike(ls[i], e)
    decreases e, 1, n
  {
    if n > 0 {
      MulStep(n, Size(e));
      RefineShape(slots, e, offset);
      ElemsShape(slots, e, n - 1, offset + Size(e));
    }
  }

  lemma {:induction false} FieldsShape(slots: seq<Loc>, fs: seq<SimType>, packed: bool, k: nat, offset: nat)
    requires AllWf(fs) && k <= |fs| && WordSlots(slots) && offset + End(fs, packed, k) <= WORD * |slots|
    ensures ShapedFields(RefineFields(slots, fs, packed, k, offset), fs, k)
    decreases fs, 0, k
  {
    if k > 0 {
      var at := offset + Offset(fs, packed, k - 1);
      FieldRoom(fs, packed, k, offset, WORD * |slots|);
      LastField(slots, fs, packed, k, offset, at);
      FieldsShape(slots, fs, packed, k - 1, offset);
      FieldShape(slots, fs, k - 1, at);
      var ls, front := RefineFields(slots, fs, packed, k, offset), RefineFields(slots, fs, packed, k - 1, offset);
      ShapedSnoc(ls, front, Refine(slots, fs[k - 1], at), fs, k);
    }
  }

  lemma {:induction false} FieldShape(slots: seq<Loc>, fs: seq<SimType>, k: nat, at: nat)
    requires AllWf(fs) && k < |fs| && WordSlots(slots) && at + Size(fs[k]) <= WORD * |slots|
    ensures ShapedPart(Refine(slots, fs[k], at), fs, k)
    decreases fs, 0, k
  {
    RefineShape(slots, fs[k], at);
  }
}
