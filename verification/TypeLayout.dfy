/** `SimType` sizes, alignments and struct offsets, in bytes, for types bound to an architecture
    with eight-bit bytes.  Struct fields and union members keep their declaration order, so the
    dictionaries of the source are sequences here. */
module TypeLayout {
  import opened Wrappers
  import opened Arithmetic

  const WORD: nat := 8  // bytes in an eightbyte, a register slot and a stack slot

  datatype SimType =
    | Num(bytes: nat)              // registers, integers, pointers, enums
    | Float
    | Double(alignDouble: bool)
    | Array(elem: SimType, length: nat)
    | Struct(fields: seq<SimType>, packed: bool, align: Option<nat>)
    | Union(members: seq<SimType>)

  /** Explicit alignments are positive and unions have a member. */
  predicate Wf(t: SimType) {
    match t
    case Array(e, _) => Wf(e)
    case Struct(fs, _, a) => (a.Some? ==> a.value > 0) && forall i :: 0 <= i < |fs| ==> Wf(fs[i])
    case Union(ms) => ms != [] && forall i :: 0 <= i < |ms| ==> Wf(ms[i])
    case _ => true
  }

  function Max(a: nat, b: nat): nat { if a < b then b else a }

  function AlignUp(n: nat, a: nat): nat
    requires a > 0
  {
    if n % a != 0 then n + (a - n % a) else n
  }

  lemma AlignUpProps(n: nat, a: nat)
    requires a > 0
    ensures n <= AlignUp(n, a) < n + a
    ensures AlignUp(n, a) % a == 0
  {
    var q, r := n / a, n % a;
    assert n == q * a + r;
    if r != 0 {
      assert AlignUp(n, a) == (q + 1) * a;
      MulMod(q + 1, a);
    }
  }

  // ------------------------------------------------- sizes and alignments

  function MaxSize(ts: seq<SimType>): nat
    requires forall i :: 0 <= i < |ts| ==> Wf(ts[i])
    decreases ts, 0
  {
    if ts == [] then 0 else Max(Size(ts[0]), MaxSize(ts[1..]))
  }

  function MaxAlign(ts: seq<SimType>): (a: nat)
    requires forall i :: 0 <= i < |ts| ==> Wf(ts[i])
    ensures a > 0
    decreases ts, 0
  {
    if ts == [] then 1 else Max(Align(ts[0]), MaxAlign(ts[1..]))
  }

  function Align(t: SimType): (a: nat)
    requires Wf(t)
    ensures a > 0
    decreases t, 0
  {
    match t
    case Num(n) => Max(1, n)
    case Float => 4
    case Double(ad) => if ad then 8 else 4
    case Array(e, _) => Align(e)
    case Struct(fs, _, a) => if a.Some? then a.value else MaxAlign(fs)
    case Union(ms) => MaxAlign(ms)
  }

  function Size(t: SimType): nat
    requires Wf(t)
    decreases t, 0
  {
    match t
    case Num(n) => n
    case Float => 4
    case Double(_) => 8
    case Array(e, n) => n * Size(e)
    case Struct(fs, packed, _) => End(fs, packed, |fs|)
    case Union(ms) => MaxSize(ms)
  }

  /** Where the next field may start once the first `k` are placed. */
  function End(fs: seq<SimType>, packed: bool, k: nat): nat
    requires k <= |fs| && forall i :: 0 <= i < |fs| ==> Wf(fs[i])
    decreases fs, k, 0
  {
    if k == 0 then 0
    else
      var size := Size(fs[k - 1]);
      var soFar := End(fs, packed, k - 1);
      (if packed || size == 0 then soFar else AlignUp(soFar, Align(fs[k - 1]))) + size
  }

  /** The byte offset of field `k`. */
  function Offset(fs: seq<SimType>, packed: bool, k: nat): nat
    requires k < |fs| && forall i :: 0 <= i < |fs| ==> Wf(fs[i])
  {
    if packed || Size(fs[k]) == 0 then End(fs, packed, k) else AlignUp(End(fs, packed, k), Align(fs[k]))
  }

  /** The loop behind `SimStruct.offsets`. */
  method Offsets(fs: seq<SimType>, packed: bool) returns (offsets: seq<nat>)
    requires forall i :: 0 <= i < |fs| ==> Wf(fs[i])
    ensures |offsets| == |fs|
    ensures forall k :: 0 <= k < |fs| ==> offsets[k] == Offset(fs, packed, k)
    ensures fs != [] ==> offsets[|fs| - 1] + Size(fs[|fs| - 1]) == Size(Struct(fs, packed, None))
  {
    offsets := [];
    var soFar := 0;
    for k := 0 to |fs|
      invariant |offsets| == k && soFar == End(fs, packed, k)
      invariant forall j :: 0 <= j < k ==> offsets[j] == Offset(fs, packed, j)
    {
      var size := Size(fs[k]);
      if !packed && size > 0 {
        var align := Align(fs[k]);
        if soFar % align != 0 {
          soFar := soFar + (align - soFar % align);
        }
      }
      offsets := offsets + [soFar];
      soFar := soFar + size;
    }
    if fs != [] {
      assert End(fs, packed, |fs|) == Offset(fs, packed, |fs| - 1) + Size(fs[|fs| - 1]);
    }
  }

  // ------------------------------------------------- struct layout

  /** Offsets are aligned, fields follow each other without overlap, and the padding in front of a
      field is smaller than its alignment. */
  lemma FieldPlacement(fs: seq<SimType>, packed: bool, k: nat)
    requires k < |fs| && forall i :: 0 <= i < |fs| ==> Wf(fs[i])
    ensures !packed && Size(fs[k]) > 0 ==> Offset(fs, packed, k) % Align(fs[k]) == 0
    ensures End(fs, packed, k) <= Offset(fs, packed, k) < End(fs, packed, k) + Align(fs[k])
    ensures Offset(fs, packed, k) + Size(fs[k]) == End(fs, packed, k + 1)
    ensures k > 0 ==> Offset(fs, packed, k - 1) + Size(fs[k - 1]) == End(fs, packed, k)
  {
    AlignUpProps(End(fs, packed, k), Align(fs[k]));
    assert Offset(fs, packed, k) + Size(fs[k]) == End(fs, packed, k + 1);
    if k > 0 {
      assert Offset(fs, packed, k - 1) + Size(fs[k - 1]) == End(fs, packed, k);
    }
  }

  /** The placement of a field without its alignment. */
  lemma FieldBounds(fs: seq<SimType>, packed: bool, k: nat)
    requires k < |fs| && forall i :: 0 <= i < |fs| ==> Wf(fs[i])
    ensures End(fs, packed, k) <= Offset(fs, packed, k)
    ensures Offset(fs, packed, k) + Size(fs[k]) == End(fs, packed, k + 1)
    ensures End(fs, packed, k) == 0 ==> Offset(fs, packed, k) == 0
  {
    FieldPlacement(fs, packed, k);
  }

  lemma {:induction false} EndMonotone(fs: seq<SimType>, packed: bool, j: nat, k: nat)
    requires j <= k <= |fs| && forall i :: 0 <= i < |fs| ==> Wf(fs[i])
    ensures End(fs, packed, j) <= End(fs, packed, k)
    decreases k
  {
    if j < k {
      EndMonotone(fs, packed, j, k - 1);
      FieldBounds(fs, packed, k - 1);
    }
  }

  /** Any two fields of a struct occupy disjoint ranges in order, inside the struct's size. */
  lemma FieldsDisjoint(fs: seq<SimType>, packed: bool, align: Option<nat>, j: nat, k: nat)
    requires j < k < |fs| && Wf(Struct(fs, packed, align))
    ensures Offset(fs, packed, j) + Size(fs[j]) <= Offset(fs, packed, k)
    ensures Offset(fs, packed, k) + Size(fs[k]) <= Size(Struct(fs, packed, align))
  {
    FieldPlacement(fs, packed, j);
    FieldBounds(fs, packed, k);
    EndMonotone(fs, packed, j + 1, k);
    EndMonotone(fs, packed, k + 1, |fs|);
  }

  lemma {:induction false} EndAppend(fs: seq<SimType>, packed: bool, t: SimType, k: nat)
    requires k <= |fs| && Wf(t) && forall i :: 0 <= i < |fs| ==> Wf(fs[i])
    ensures forall i :: 0 <= i < |fs + [t]| ==> Wf((fs + [t])[i])
    ensures End(fs + [t], packed, k) == End(fs, packed, k)
  {
    assert forall i :: 0 <= i < |fs + [t]| ==> (fs + [t])[i] == if i < |fs| then fs[i] else t;
    if k > 0 { EndAppend(fs, packed, t, k - 1); }
  }

  /** Appending a field moves no earlier field. */
  lemma AppendKeepsOffsets(fs: seq<SimType>, packed: bool, t: SimType, k: nat)
    requires k < |fs| && Wf(t) && forall i :: 0 <= i < |fs| ==> Wf(fs[i])
    ensures forall i :: 0 <= i < |fs + [t]| ==> Wf((fs + [t])[i])
    ensures Offset(fs + [t], packed, k) == Offset(fs, packed, k)
  {
    EndAppend(fs, packed, t, k);
  }

  /** Where element `i` of an array of `t` starts. */
  function ElementAt(t: SimType, i: nat): nat
    requires Wf(t)
  {
    i * Size(t)
  }

  ghost predicate ElementsAligned(t: SimType)
    requires Wf(t)
  {
    forall i: nat :: ElementAt(t, i) % Align(t) == 0
  }

  /** All elements of arrays of `t` are aligned exactly when its size is a multiple of its alignment. */
  lemma ElementsAlignedIff(t: SimType)
    requires Wf(t)
    ensures ElementsAligned(t) <==> Size(t) % Align(t) == 0
  {
    assert ElementAt(t, 1) == Size(t);
    if Size(t) % Align(t) == 0 {
      forall i: nat ensures ElementAt(t, i) % Align(t) == 0 {
        MultipleTimes(i, Size(t), Align(t));
      }
    }
  }

  /** The size of a struct stops at the end of its last field: it is a multiple of the alignment,
      as C requires of array elements, exactly when that end is. */
  lemma NoTailPadding(fs: seq<SimType>, packed: bool, t: SimType)
    requires Wf(t) && forall i :: 0 <= i < |fs| ==> Wf(fs[i])
    ensures Wf(Struct(fs + [t], packed, None))
    ensures Size(Struct(fs + [t], packed, None)) == Offset(fs + [t], packed, |fs|) + Size(t)
    ensures ElementsAligned(Struct(fs + [t], packed, None))
       <==> (Offset(fs + [t], packed, |fs|) + Size(t)) % Align(Struct(fs + [t], packed, None)) == 0
  {
    var gs := fs + [t];
    assert forall i :: 0 <= i < |gs| ==> gs[i] == if i < |fs| then fs[i] else t;
    FieldPlacement(gs, packed, |fs|);
    ElementsAlignedIff(Struct(gs, packed, None));
  }

  /** A long and a char: nine bytes, aligned to eight. */
  lemma LongChar()
    ensures Wf(Struct([Num(8), Num(1)], false, None))
    ensures Size(Struct([Num(8), Num(1)], false, None)) == 9 && Align(Struct([Num(8), Num(1)], false, None)) == 8
  {
    var hs := [Num(8), Num(1)];
    assert End(hs, false, 0) == 0;
    assert End(hs, false, 1) == 8;
    assert End(hs, false, 2) == 9;
    assert hs[1..] == [Num(1)] && hs[1..][1..] == [];
    assert MaxAlign(hs[1..]) == 1;
  }
}
