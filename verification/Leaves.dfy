/** The scalars inside an argument type: the flattened leaves that decide its classes, and the
    bytes that its location tree will have to cover. */
module Leaves {
  import opened TypeLayout

  datatype Leaf = Leaf(offset: nat, ty: SimType)

  predicate Scalar(t: SimType) { t.Num? || t.Float? || t.Double? }

  /** Whether flattening meets a packed struct and gives up. */
  predicate AnyPacked(t: SimType) {
    match t
    case Array(e, _) => AnyPacked(e)
    case Struct(fs, packed, _) => packed || exists i :: 0 <= i < |fs| && AnyPacked(fs[i])
    case Union(ms) => exists i :: 0 <= i < |ms| && AnyPacked(ms[i])
    case _ => false
  }

  predicate AllWf(ts: seq<SimType>) { forall i :: 0 <= i < |ts| ==> Wf(ts[i]) }

  // ------------------------------------------------- flattening

  /** `_flatten`, shifted by `off`. */
  function LeavesAt(t: SimType, off: nat): seq<Leaf>
    requires Wf(t)
    decreases t, 0, 0
  {
    match t
    case Array(e, n) => ArrayLeaves(e, n, off)
    case Struct(fs, packed, _) => FieldLeaves(fs, packed, |fs|, off)
    case Union(ms) => MemberLeaves(ms, off)
    case _ => [Leaf(off, t)]
  }

  function ArrayLeaves(e: SimType, n: nat, off: nat): seq<Leaf>
    requires Wf(e)
    decreases e, 1, n
  {
    if n == 0 then [] else LeavesAt(e, off) + ArrayLeaves(e, n - 1, off + Size(e))
  }

  function FieldLeaves(fs: seq<SimType>, packed: bool, k: nat, off: nat): seq<Leaf>
    requires AllWf(fs) && k <= |fs|
    decreases fs, 0, k
  {
    if k == 0 then []
    else FieldLeaves(fs, packed, k - 1, off) + LeavesAt(fs[k - 1], off + Offset(fs, packed, k - 1))
  }

  function MemberLeaves(ms: seq<SimType>, off: nat): seq<Leaf>
    requires AllWf(ms)
    decreases ms, 0, 0
  {
    if ms == [] then [] else LeavesAt(ms[0], off) + MemberLeaves(ms[1..], off)
  }

  predicate LeavesWithin(ls: seq<Leaf>, lo: nat, hi: nat) {
    forall i :: 0 <= i < |ls| ==>
      Scalar(ls[i].ty) && lo <= ls[i].offset && ls[i].offset + Size(ls[i].ty) <= hi
  }

  lemma MulStep(n: nat, s: nat)
    requires n > 0
    ensures n * s == s + (n - 1) * s && (n - 1) * s >= 0
  {
  }

  lemma {:induction false} MaxSizeBound(ts: seq<SimType>, i: nat)
    requires AllWf(ts) && i < |ts|
    ensures Size(ts[i]) <= MaxSize(ts)
  {
    if i > 0 { MaxSizeBound(ts[1..], i - 1); }
  }

  lemma WithinConcat(a: seq<Leaf>, lo: nat, mid: nat, b: seq<Leaf>, mid': nat, hi: nat)
    requires LeavesWithin(a, lo, mid) && LeavesWithin(b, mid', hi) && lo <= mid' && mid <= hi
    ensures LeavesWithin(a + b, lo, hi)
  {
  }

  /** Every leaf lies inside its type. */
  lemma {:induction false} LeavesContained(t: SimType, off: nat)
    requires Wf(t)
    ensures LeavesWithin(LeavesAt(t, off), off, off + Size(t))
    decreases t, 0, 0
  {
    match t
    case Array(e, n) => ArrayLeavesContained(e, n, off);
    case Struct(fs, packed, _) => FieldLeavesContained(fs, packed, |fs|, off);
    case Union(ms) => MemberLeavesContained(ms, off);
    case _ =>
  }

  lemma {:induction false} ArrayLeavesContained(e: SimType, n: nat, off: nat)
    requires Wf(e)
    ensures LeavesWithin(ArrayLeaves(e, n, off), off, off + n * Size(e))
    decreases e, 1, n
  {
    if n > 0 {
      var s, total := Size(e), n * Size(e);
      LeavesContained(e, off);
      ArrayLeavesContained(e, n - 1, off + s);
      MulStep(n, s);
      WithinConcat(LeavesAt(e, off), off, off + s, ArrayLeaves(e, n - 1, off + s), off + s, off + s + (n - 1) * s);
    }
  }

  lemma {:induction false} FieldLeavesContained(fs: seq<SimType>, packed: bool, k: nat, off: nat)
    requires AllWf(fs) && k <= |fs|
    ensures LeavesWithin(FieldLeaves(fs, packed, k, off), off, off + End(fs, packed, k))
    decreases fs, 0, k
  {
    if k > 0 {
      FieldLeavesContained(fs, packed, k - 1, off);
      LeavesContained(fs[k - 1], off + Offset(fs, packed, k - 1));
      FieldBounds(fs, packed, k - 1);
    }
  }

  lemma {:induction false} MemberLeavesContained(ms: seq<SimType>, off: nat)
    requires AllWf(ms)
    ensures LeavesWithin(MemberLeaves(ms, off), off, off + MaxSize(ms))
    decreases ms, 0, 0
  {
    if ms != [] {
      LeavesContained(ms[0], off);
      MemberLeavesContained(ms[1..], off);
    }
  }

  // ------------------------------------------------- both ends are occupied

  predicate Occupied(ls: seq<Leaf>, p: nat) {
    exists i :: 0 <= i < |ls| && Scalar(ls[i].ty) && ls[i].offset <= p < ls[i].offset + Size(ls[i].ty)
  }

  lemma OccupiedConcat(a: seq<Leaf>, b: seq<Leaf>, p: nat)
    requires Occupied(a, p) || Occupied(b, p)
    ensures Occupied(a + b, p)
  {
    if Occupied(a, p) {
      var i :| 0 <= i < |a| && Scalar(a[i].ty) && a[i].offset <= p < a[i].offset + Size(a[i].ty);
      assert (a + b)[i] == a[i];
    } else {
      var i :| 0 <= i < |b| && Scalar(b[i].ty) && b[i].offset <= p < b[i].offset + Size(b[i].ty);
      assert (a + b)[|a| + i] == b[i];
    }
  }

  /** The first and the last byte of a type of positive size belong to a leaf, so padding never
      fills the first or the last eightbyte. */
  lemma {:induction false} EndsOccupied(t: SimType, off: nat)
    requires Wf(t) && Size(t) > 0
    ensures Occupied(LeavesAt(t, off), off) && Occupied(LeavesAt(t, off), off + Size(t) - 1)
    decreases t, 0, 0
  {
    match t
    case Array(e, n) => ArrayEndsOccupied(e, n, off);
    case Struct(fs, packed, _) => FieldEndsOccupied(fs, packed, |fs|, off);
    case Union(ms) => MemberEndsOccupied(ms, off);
    case _ => assert LeavesAt(t, off)[0] == Leaf(off, t);
  }

  lemma {:induction false} ArrayEndsOccupied(e: SimType, n: nat, off: nat)
    requires Wf(e) && n * Size(e) > 0
    ensures Occupied(ArrayLeaves(e, n, off), off) && Occupied(ArrayLeaves(e, n, off), off + n * Size(e) - 1)
    decreases e, 1, n
  {
    var s := Size(e);
    assert n > 0 && s > 0;
    EndsOccupied(e, off);
    MulStep(n, s);
    var rest := ArrayLeaves(e, n - 1, off + s);
    OccupiedConcat(LeavesAt(e, off), rest, off);
    if n > 1 {
      MulStep(n - 1, s);
      ArrayEndsOccupied(e, n - 1, off + s);
    }
    OccupiedConcat(LeavesAt(e, off), rest, off + n * s - 1);
  }

  lemma {:induction false} FieldEndsOccupied(fs: seq<SimType>, packed: bool, k: nat, off: nat)
    requires AllWf(fs) && k <= |fs| && End(fs, packed, k) > 0
    ensures Occupied(FieldLeaves(fs, packed, k, off), off)
    ensures Occupied(FieldLeaves(fs, packed, k, off), off + End(fs, packed, k) - 1)
    decreases fs, 0, k
  {
    if Size(fs[k - 1]) > 0 {
      EndsOccupied(fs[k - 1], off + Offset(fs, packed, k - 1));
    }
    if End(fs, packed, k - 1) > 0 {
      FieldEndsOccupied(fs, packed, k - 1, off);
    }
    FirstOccupied(fs, packed, k, off);
    LastOccupied(fs, packed, k, off);
  }

  lemma FirstOccupied(fs: seq<SimType>, packed: bool, k: nat, off: nat)
    requires AllWf(fs) && 0 < k <= |fs| && End(fs, packed, k) > 0
    requires End(fs, packed, k - 1) > 0 ==> Occupied(FieldLeaves(fs, packed, k - 1, off), off)
    requires var at := off + Offset(fs, packed, k - 1); Size(fs[k - 1]) > 0 ==> Occupied(LeavesAt(fs[k - 1], at), at)
    ensures Occupied(FieldLeaves(fs, packed, k, off), off)
  {
    FieldBounds(fs, packed, k - 1);
    FieldOccupied(fs, packed, k, off, off);
  }

  lemma LastOccupied(fs: seq<SimType>, packed: bool, k: nat, off: nat)
    requires AllWf(fs) && 0 < k <= |fs| && End(fs, packed, k) > 0
    requires End(fs, packed, k - 1) > 0 ==> Occupied(FieldLeaves(fs, packed, k - 1, off), off + End(fs, packed, k - 1) - 1)
    requires var at := off + Offset(fs, packed, k - 1);
             Size(fs[k - 1]) > 0 ==> Occupied(LeavesAt(fs[k - 1], at), at + Size(fs[k - 1]) - 1)
    ensures Occupied(FieldLeaves(fs, packed, k, off), off + End(fs, packed, k) - 1)
  {
    FieldBounds(fs, packed, k - 1);
    EmptyFieldStays(fs, packed, k - 1);
    FieldOccupied(fs, packed, k, off, off + End(fs, packed, k) - 1);
  }

  /** A field without bytes does not move the end. */
  lemma EmptyFieldStays(fs: seq<SimType>, packed: bool, k: nat)
    requires AllWf(fs) && k < |fs|
    ensures Size(fs[k]) == 0 ==> End(fs, packed, k + 1) == End(fs, packed, k)
  {
  }

  lemma FieldOccupied(fs: seq<SimType>, packed: bool, k: nat, off: nat, p: nat)
    requires AllWf(fs) && 0 < k <= |fs|
    requires || Occupied(FieldLeaves(fs, packed, k - 1, off), p)
             || Occupied(LeavesAt(fs[k - 1], off + Offset(fs, packed, k - 1)), p)
    ensures Occupied(FieldLeaves(fs, packed, k, off), p)
  {
    OccupiedConcat(FieldLeaves(fs, packed, k - 1, off), LeavesAt(fs[k - 1], off + Offset(fs, packed, k - 1)), p);
  }

  lemma {:induction false} MemberEndsOccupied(ms: seq<SimType>, off: nat)
    requires AllWf(ms) && MaxSize(ms) > 0
    ensures Occupied(MemberLeaves(ms, off), off) && Occupied(MemberLeaves(ms, off), off + MaxSize(ms) - 1)
    decreases ms, 0, 0
  {
    var rest := MemberLeaves(ms[1..], off);
    if Size(ms[0]) > 0 { EndsOccupied(ms[0], off); }
    if MaxSize(ms[1..]) > 0 { MemberEndsOccupied(ms[1..], off); }
    OccupiedConcat(LeavesAt(ms[0], off), rest, off);
    OccupiedConcat(LeavesAt(ms[0], off), rest, off + MaxSize(ms) - 1);
  }

  // ------------------------------------------------- bytes of a value

  /** The member a union stands for: the first one as large as the union. */
  function FullMember(ms: seq<SimType>, size: nat): (k: nat)
    requires AllWf(ms) && exists i :: 0 <= i < |ms| && Size(ms[i]) == size
    ensures k < |ms| && Size(ms[k]) == size
    ensures forall j :: 0 <= j < k ==> Size(ms[j]) != size
  {
    if Size(ms[0]) == size then 0
    else
      var i :| 0 <= i < |ms| && Size(ms[i]) == size;
      assert ms[1..][i - 1] == ms[i];
      assert forall j :: 0 < j < |ms| ==> ms[j] == ms[1..][j - 1];
      1 + FullMember(ms[1..], size)
  }

  lemma {:induction false} MaxSizeReached(ts: seq<SimType>)
    requires AllWf(ts) && ts != []
    ensures exists i :: 0 <= i < |ts| && Size(ts[i]) == MaxSize(ts)
  {
    if |ts| == 1 {
      assert MaxSize(ts[1..]) == 0 && Size(ts[0]) == MaxSize(ts);
    } else if Size(ts[0]) != MaxSize(ts) {
      MaxSizeReached(ts[1..]);
      var i :| 0 <= i < |ts[1..]| && Size(ts[1..][i]) == MaxSize(ts[1..]);
      assert ts[i + 1] == ts[1..][i];
    }
  }

  function Range(lo: nat, n: nat): seq<nat> { seq(n, i requires 0 <= i < n => lo + i) }

  /** The byte positions of a value of type `t` placed at `off`, in the order in which the type
      lists its parts. */
  ghost function BytesAt(t: SimType, off: nat): seq<nat>
    requires Wf(t)
    decreases t, 0, 0
  {
    match t
    case Array(e, n) => ArrayBytes(e, n, off)
    case Struct(fs, packed, _) => FieldBytes(fs, packed, |fs|, off)
    case Union(ms) =>
      MaxSizeReached(ms);
      BytesAt(ms[FullMember(ms, MaxSize(ms))], off)
    case _ => Range(off, Size(t))
  }

  ghost function ArrayBytes(e: SimType, n: nat, off: nat): seq<nat>
    requires Wf(e)
    decreases e, 1, n
  {
    if n == 0 then [] else BytesAt(e, off) + ArrayBytes(e, n - 1, off + Size(e))
  }

  ghost function FieldBytes(fs: seq<SimType>, packed: bool, k: nat, off: nat): seq<nat>
    requires AllWf(fs) && k <= |fs|
    decreases fs, 0, k
  {
    if k == 0 then []
    else FieldBytes(fs, packed, k - 1, off) + BytesAt(fs[k - 1], off + Offset(fs, packed, k - 1))
  }

  /** Positions of `[lo, hi)` in strictly increasing order: no byte occurs twice. */
  predicate Increasing(ps: seq<nat>, lo: nat, hi: nat) {
    && (forall i :: 0 <= i < |ps| ==> lo <= ps[i] < hi)
    && (forall i, j :: 0 <= i < j < |ps| ==> ps[i] < ps[j])
  }

  lemma IncreasingConcat(a: seq<nat>, b: seq<nat>, lo: nat, mid: nat, mid': nat, hi: nat)
    requires Increasing(a, lo, mid) && Increasing(b, mid', hi) && lo <= mid <= mid' <= hi
    ensures Increasing(a + b, lo, hi)
  {
  }

  /** The parts of a value never share a byte and stay inside its size. */
  lemma {:induction false} BytesIncreasing(t: SimType, off: nat)
    requires Wf(t)
    ensures Increasing(BytesAt(t, off), off, off + Size(t))
    decreases t, 0, 0
  {
    match t
    case Array(e, n) => ArrayBytesIncreasing(e, n, off);
    case Struct(fs, packed, _) => FieldBytesIncreasing(fs, packed, |fs|, off);
    case Union(ms) =>
      MaxSizeReached(ms);
      BytesIncreasing(ms[FullMember(ms, MaxSize(ms))], off);
    case _ =>
  }

  lemma {:induction false} ArrayBytesIncreasing(e: SimType, n: nat, off: nat)
    requires Wf(e)
    ensures Increasing(ArrayBytes(e, n, off), off, off + n * Size(e))
    decreases e, 1, n
  {
    if n > 0 {
      var s := Size(e);
      BytesIncreasing(e, off);
      ArrayBytesIncreasing(e, n - 1, off + s);
      MulStep(n, s);
      IncreasingConcat(BytesAt(e, off), ArrayBytes(e, n - 1, off + s), off, off + s, off + s, off + n * s);
    }
  }

  lemma {:induction false} FieldBytesIncreasing(fs: seq<SimType>, packed: bool, k: nat, off: nat)
    requires AllWf(fs) && k <= |fs|
    ensures Increasing(FieldBytes(fs, packed, k, off), off, off + End(fs, packed, k))
    decreases fs, 0, k
  {
    if k > 0 {
      var at := off + Offset(fs, packed, k - 1);
      FieldBytesIncreasing(fs, packed, k - 1, off);
      BytesIncreasing(fs[k - 1], at);
      FieldBounds(fs, packed, k - 1);
      IncreasingConcat(FieldBytes(fs, packed, k - 1, off), BytesAt(fs[k - 1], at),
                       off, off + End(fs, packed, k - 1), at, off + End(fs, packed, k));
    }
  }
}
