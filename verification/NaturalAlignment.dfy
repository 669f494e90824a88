/** Naturally aligned types always classify. */
module NaturalAlignment {
  import opened Wrappers
  import opened Arithmetic
  import opened TypeLayout
  import opened Leaves
  import opened Classify

  const POWERS := {1, 2, 4, 8, 16, 32, 64}

  /** C-like types: scalar sizes are powers of two, no packing or explicit alignment, doubles on
      eight bytes, and array elements whose size is a multiple of their alignment. */
  predicate Natural(t: SimType)
    requires Wf(t)
  {
    match t
    case Num(n) => n in POWERS
    case Float => true
    case Double(ad) => ad
    case Array(e, _) => Natural(e) && Size(e) % Align(e) == 0
    case Struct(fs, packed, a) => !packed && a.None? && forall i :: 0 <= i < |fs| ==> Natural(fs[i])
    case Union(ms) => forall i :: 0 <= i < |ms| ==> Natural(ms[i])
  }

  predicate AllNatural(ts: seq<SimType>)
    requires AllWf(ts)
  {
    forall i :: 0 <= i < |ts| ==> Natural(ts[i])
  }

  predicate NaturalLeaves(ls: seq<Leaf>) {
    forall i :: 0 <= i < |ls| ==>
      Scalar(ls[i].ty) && Size(ls[i].ty) in POWERS && ls[i].offset % Size(ls[i].ty) == 0
  }

  lemma Weaken(x: nat, a: nat, b: nat)
    requires a in POWERS && b in POWERS && a <= b && x % b == 0
    ensures x % a == 0
  {
    var q, k := x / b, b / a;
    assert b == k * a;
    assert x == q * b;
    assert q * b == q * (k * a) == (q * k) * a;
    MulMod(q * k, a);
  }

  lemma SumAligned(x: nat, y: nat, a: nat)
    requires a in POWERS && x % a == 0 && y % a == 0
    ensures (x + y) % a == 0
  {
    var q, r := x / a, y / a;
    assert x == q * a && y == r * a;
    assert x + y == (q + r) * a;
    MulMod(q + r, a);
  }

  lemma {:induction false} MaxAlignNatural(ts: seq<SimType>)
    requires AllWf(ts) && AllNatural(ts)
    ensures MaxAlign(ts) in POWERS
    ensures forall i :: 0 <= i < |ts| ==> Align(ts[i]) in POWERS && Align(ts[i]) <= MaxAlign(ts)
    decreases ts, 0
  {
    if ts != [] {
      AlignNatural(ts[0]);
      MaxAlignNatural(ts[1..]);
      assert forall i :: 0 < i < |ts| ==> ts[i] == ts[1..][i - 1];
    }
  }

  lemma {:induction false} AlignNatural(t: SimType)
    requires Wf(t) && Natural(t)
    ensures Align(t) in POWERS
    decreases t, 0
  {
    match t
    case Array(e, _) => AlignNatural(e);
    case Struct(fs, _, _) => MaxAlignNatural(fs);
    case Union(ms) => MaxAlignNatural(ms);
    case _ =>
  }

  /** Placed at a multiple of its alignment, a natural type has naturally aligned leaves. */
  lemma {:induction false} LeavesNatural(t: SimType, off: nat)
    requires Wf(t) && Natural(t) && off % Align(t) == 0
    ensures NaturalLeaves(LeavesAt(t, off))
    decreases t, 0, 0
  {
    AlignNatural(t);
    match t
    case Array(e, n) => ArrayLeavesNatural(e, n, off);
    case Struct(fs, _, _) =>
      MaxAlignNatural(fs);
      FieldLeavesNatural(fs, |fs|, off);
    case Union(ms) =>
      MaxAlignNatural(ms);
      MemberLeavesNatural(ms, off, MaxAlign(ms));
    case _ =>
  }

  lemma {:induction false} ArrayLeavesNatural(e: SimType, n: nat, off: nat)
    requires Wf(e) && Natural(e) && Size(e) % Align(e) == 0 && off % Align(e) == 0
    ensures NaturalLeaves(ArrayLeaves(e, n, off))
    decreases e, 1, n
  {
    if n > 0 {
      AlignNatural(e);
      LeavesNatural(e, off);
      SumAligned(off, Size(e), Align(e));
      ArrayLeavesNatural(e, n - 1, off + Size(e));
    }
  }

  lemma FieldAligned(fs: seq<SimType>, k: nat, off: nat)
    requires AllWf(fs) && AllNatural(fs) && k < |fs| && off % MaxAlign(fs) == 0 && Size(fs[k]) > 0
    ensures (off + Offset(fs, false, k)) % Align(fs[k]) == 0
  {
    MaxAlignNatural(fs);
    FieldPlacement(fs, false, k);
    BothAligned(off, Offset(fs, false, k), Align(fs[k]), MaxAlign(fs));
  }

  lemma BothAligned(off: nat, o: nat, a: nat, big: nat)
    requires a in POWERS && big in POWERS && a <= big && off % big == 0 && o % a == 0
    ensures (off + o) % a == 0
  {
    Weaken(off, a, big);
    SumAligned(off, o, a);
  }

  lemma {:induction false} FieldLeavesNatural(fs: seq<SimType>, k: nat, off: nat)
    requires AllWf(fs) && AllNatural(fs) && k <= |fs| && off % MaxAlign(fs) == 0
    ensures NaturalLeaves(FieldLeaves(fs, false, k, off))
    decreases fs, 0, k
  {
    if k > 0 {
      FieldLeavesNatural(fs, k - 1, off);
      var f, at := fs[k - 1], off + Offset(fs, false, k - 1);
      if Size(f) == 0 {
        NoLeaves(f, at);
      } else {
        FieldAligned(fs, k - 1, off);
        LeavesNatural(f, at);
      }
    }
  }

  lemma {:induction false} MemberLeavesNatural(ms: seq<SimType>, off: nat, a: nat)
    requires AllWf(ms) && AllNatural(ms) && a in POWERS && off % a == 0
    requires forall i :: 0 <= i < |ms| ==> Align(ms[i]) in POWERS && Align(ms[i]) <= a
    ensures NaturalLeaves(MemberLeaves(ms, off))
    decreases ms, 0, 0
  {
    if ms != [] {
      Weaken(off, Align(ms[0]), a);
      LeavesNatural(ms[0], off);
      MemberLeavesNatural(ms[1..], off, a);
    }
  }

  /** A natural type without bytes has no leaves. */
  lemma {:induction false} NoLeaves(t: SimType, off: nat)
    requires Wf(t) && Natural(t) && Size(t) == 0
    ensures LeavesAt(t, off) == []
    decreases t, 0, 0
  {
    match t
    case Array(e, n) => NoArrayLeaves(e, n, off);
    case Struct(fs, packed, _) => NoFieldLeaves(fs, packed, |fs|, off);
    case Union(ms) => NoMemberLeaves(ms, off);
    case _ =>
  }

  lemma {:induction false} NoArrayLeaves(e: SimType, n: nat, off: nat)
    requires Wf(e) && Natural(e) && n * Size(e) == 0
    ensures ArrayLeaves(e, n, off) == []
    decreases e, 1, n
  {
    if n > 0 {
      assert Size(e) == 0;
      NoLeaves(e, off);
      NoArrayLeaves(e, n - 1, off + Size(e));
    }
  }

  lemma NoFieldEnd(fs: seq<SimType>, packed: bool, k: nat)
    requires AllWf(fs) && AllNatural(fs) && 0 < k <= |fs| && End(fs, packed, k) == 0
    ensures End(fs, packed, k - 1) == 0 && Size(fs[k - 1]) == 0
  {
    FieldPlacement(fs, packed, k - 1);
  }

  lemma {:induction false} NoFieldLeaves(fs: seq<SimType>, packed: bool, k: nat, off: nat)
    requires AllWf(fs) && AllNatural(fs) && k <= |fs| && End(fs, packed, k) == 0
    ensures FieldLeaves(fs, packed, k, off) == []
    decreases fs, 0, k
  {
    if k > 0 {
      NoFieldEnd(fs, packed, k);
      NoFieldLeaves(fs, packed, k - 1, off);
      NoLeaves(fs[k - 1], off + Offset(fs, packed, k - 1));
    }
  }

  lemma {:induction false} NoMemberLeaves(ms: seq<SimType>, off: nat)
    requires AllWf(ms) && AllNatural(ms) && MaxSize(ms) == 0
    ensures MemberLeaves(ms, off) == []
    decreases ms, 0, 0
  {
    if ms != [] {
      NoLeaves(ms[0], off);
      NoMemberLeaves(ms[1..], off);
    }
  }

  lemma NaturalLeafFits(l: Leaf)
    requires Scalar(l.ty) && Size(l.ty) in POWERS && l.offset % Size(l.ty) == 0
    ensures Fits(l)
  {
    var s := Size(l.ty);
    if s >= 8 {
      Weaken(l.offset, 8, s);
    } else {
      SmallFits(l.offset, s);
    }
  }

  lemma SmallFits(x: nat, s: nat)
    requires s in {1, 2, 4} && x % s == 0
    ensures (x + s - 1) / 8 == x / 8
  {
    if s == 2 {
      assert x % 2 == 0;
    } else if s == 4 {
      assert x % 4 == 0;
    }
  }

  /** Classification of a naturally aligned type never runs off the end of a class list. */
  lemma NaturalClassifiable(t: SimType)
    requires Wf(t) && Natural(t)
    ensures Classifiable(t)
  {
    if !Scalar(t) {
      LeavesContained(t, 0);
      LeavesNatural(t, 0);
      var ls := LeavesAt(t, 0);
      forall i | 0 <= i < |ls| ensures Fits(ls[i]) { NaturalLeafFits(ls[i]); }
    }
  }

  function LongCharAt(off: nat): seq<Leaf> { [Leaf(off, Num(8)), Leaf(off + 8, Num(1))] }

  lemma LongCharLeaves(off: nat)
    ensures var inner := Struct([Num(8), Num(1)], false, None); Wf(inner) && LeavesAt(inner, off) == LongCharAt(off)
  {
    var gs := [Num(8), Num(1)];
    assert End(gs, false, 0) == 0 && Offset(gs, false, 0) == 0;
    assert End(gs, false, 1) == 8 && Offset(gs, false, 1) == 8;
    assert FieldLeaves(gs, false, 0, off) == [];
    assert FieldLeaves(gs, false, 1, off) == [Leaf(off, Num(8))];
    assert FieldLeaves(gs, false, 2, off) == LongCharAt(off);
  }

  lemma PairLeaves()
    ensures var arr := Array(Struct([Num(8), Num(1)], false, None), 2);
            Wf(arr) && Size(arr) == 18 && LeavesAt(arr, 0) == LongCharAt(0) + LongCharAt(9)
  {
    var inner := Struct([Num(8), Num(1)], false, None);
    LongChar();
    LongCharLeaves(0);
    LongCharLeaves(9);
    assert ArrayLeaves(inner, 1, 9) == LongCharAt(9) + ArrayLeaves(inner, 0, 18);
    assert ArrayLeaves(inner, 2, 0) == LongCharAt(0) + ArrayLeaves(inner, 1, 9);
  }

  /** A struct whose only field is `t` has the leaves of `t`. */
  lemma WrappedLeaves(t: SimType)
    requires Wf(t)
    ensures var w := Struct([t], false, None); Wf(w) && Size(w) == Size(t) && LeavesAt(w, 0) == LeavesAt(t, 0)
  {
    var fs := [t];
    assert End(fs, false, 0) == 0 && Offset(fs, false, 0) == 0;
    assert FieldLeaves(fs, false, 0, 0) == [];
    assert FieldLeaves(fs, false, 1, 0) == [] + LeavesAt(t, 0);
  }

  /** Without tail padding the second element of an array of `{long; char}` starts at byte 9, its
      long straddles an eightbyte, and classification fails. */
  lemma UnpaddedElementsFail()
    ensures var t := Struct([Array(Struct([Num(8), Num(1)], false, None), 2)], false, None);
            Wf(t) && !Classifiable(t)
  {
    var arr := Array(Struct([Num(8), Num(1)], false, None), 2);
    PairLeaves();
    WrappedLeaves(arr);
    var t := Struct([arr], false, None);
    assert LeavesAt(t, 0)[2] == Leaf(9, Num(8));
    LeavesContained(t, 0);
    assert !Fits(Leaf(9, Num(8)));
  }
}
