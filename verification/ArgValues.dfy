/** Storing values through location trees and reading them back. */
module ArgValues {
  import opened Wrappers
  import opened TypeLayout
  import opened Leaves
  import opened Locations
  import opened Prototype
  import opened TypeFacts
  import ArgSession

  /** Registers and stack memory, byte by byte. */
  datatype Store = Store(bytes: ByteLoc -> int)
  {
    function At(b: ByteLoc): int { bytes(b) }

    function Put(b: ByteLoc, v: int): Store { Store(x => if x == b then v else At(x)) }
  }

  /** A bitvector, least significant byte first, or the list of a struct's or array's parts. */
  datatype Value = Bits(bytes: seq<int>) | Many(parts: seq<Value>)

  function SizeOf(l: Loc): nat
    decreases l, 0
  {
    match l
    case RegLoc(_, _, _, n) => n
    case StackLoc(_, n) => n
    case Combo(ps) => SizeSum(ps)
    case ArrayLoc(es) => SizeSum(es)
    case StructLoc(fs) => SizeSum(fs)
  }

  function SizeSum(ls: seq<Loc>): nat
    decreases ls, 0
  {
    if ls == [] then 0 else SizeOf(ls[0]) + SizeSum(ls[1..])
  }

  /** The parts of a combo hold bits, not structured values. */
  predicate WellLoc(l: Loc) {
    match l
    case Combo(ps) => forall i :: 0 <= i < |ps| ==> (Plain(ps[i]) || ps[i].Combo?) && WellLoc(ps[i])
    case ArrayLoc(es) => forall i :: 0 <= i < |es| ==> WellLoc(es[i])
    case StructLoc(fs) => forall i :: 0 <= i < |fs| ==> WellLoc(fs[i])
    case _ => true
  }

  predicate AllWell(ls: seq<Loc>) { forall i :: 0 <= i < |ls| ==> WellLoc(ls[i]) }
  predicate AllBits(ls: seq<Loc>) { forall i :: 0 <= i < |ls| ==> Plain(ls[i]) || ls[i].Combo? }

  /** The value has the size and structure of the location. */
  predicate Shaped(l: Loc, v: Value)
    decreases l, 0
  {
    match l
    case RegLoc(_, _, _, n) => v.Bits? && |v.bytes| == n
    case StackLoc(_, n) => v.Bits? && |v.bytes| == n
    case Combo(ps) => v.Bits? && |v.bytes| == SizeSum(ps)
    case ArrayLoc(es) => v.Many? && ShapedAll(es, v.parts)
    case StructLoc(fs) => v.Many? && ShapedAll(fs, v.parts)
  }

  predicate ShapedAll(ls: seq<Loc>, vs: seq<Value>)
    decreases ls, 0
  {
    |ls| == |vs| && (ls != [] ==> Shaped(ls[0], vs[0]) && ShapedAll(ls[1..], vs[1..]))
  }

  // ------------------------------------------------- set_value and get_value

  function PutAll(bs: seq<ByteLoc>, vs: seq<int>, s: Store): Store
    requires |bs| == |vs|
  {
    if bs == [] then s else PutAll(bs[1..], vs[1..], s.Put(bs[0], vs[0]))
  }

  function SetValue(l: Loc, v: Value, s: Store): Store
    requires WellLoc(l) && Shaped(l, v)
    decreases l, 0
  {
    match l
    case RegLoc(_, _, _, _) => PutAll(PlainBytes(l), v.bytes, s)
    case StackLoc(_, _) => PutAll(PlainBytes(l), v.bytes, s)
    case Combo(ps) => SetParts(ps, v.bytes, s)
    case ArrayLoc(es) => SetAll(es, v.parts, s)
    case StructLoc(fs) => SetAll(fs, v.parts, s)
  }

  /** The loop of a combo: each part takes the next slice of the value. */
  function SetParts(ps: seq<Loc>, bytes: seq<int>, s: Store): Store
    requires AllWell(ps) && AllBits(ps) && |bytes| == SizeSum(ps)
    decreases ps, 0
  {
    if ps == [] then s
    else
      var n := SizeOf(ps[0]);
      SetParts(ps[1..], bytes[n..], SetValue(ps[0], Bits(bytes[..n]), s))
  }

  function SetAll(ls: seq<Loc>, vs: seq<Value>, s: Store): Store
    requires AllWell(ls) && ShapedAll(ls, vs)
    decreases ls, 0
  {
    if ls == [] then s else SetAll(ls[1..], vs[1..], SetValue(ls[0], vs[0], s))
  }

  function Read(bs: seq<ByteLoc>, s: Store): seq<int> { seq(|bs|, i requires 0 <= i < |bs| => s.At(bs[i])) }

  function GetValue(l: Loc, s: Store): (v: Value)
    requires WellLoc(l)
    ensures Plain(l) || l.Combo? ==> v.Bits?
    decreases l, 0
  {
    match l
    case RegLoc(_, _, _, _) => Bits(Read(PlainBytes(l), s))
    case StackLoc(_, _) => Bits(Read(PlainBytes(l), s))
    case Combo(ps) => Bits(GetParts(ps, s))
    case ArrayLoc(es) => Many(GetAll(es, s))
    case StructLoc(fs) => Many(GetAll(fs, s))
  }

  function GetParts(ps: seq<Loc>, s: Store): seq<int>
    requires AllWell(ps) && AllBits(ps)
    decreases ps, 0
  {
    if ps == [] then [] else GetValue(ps[0], s).bytes + GetParts(ps[1..], s)
  }

  function GetAll(ls: seq<Loc>, s: Store): seq<Value>
    requires AllWell(ls)
    decreases ls, 0
  {
    if ls == [] then [] else [GetValue(ls[0], s)] + GetAll(ls[1..], s)
  }

  // ------------------------------------------------- frames

  lemma {:induction false} PutAllFrame(bs: seq<ByteLoc>, vs: seq<int>, s: Store, b: ByteLoc)
    requires |bs| == |vs| && b !in bs
    ensures PutAll(bs, vs, s).At(b) == s.At(b)
  {
    if bs != [] { PutAllFrame(bs[1..], vs[1..], s.Put(bs[0], vs[0]), b); }
  }

  lemma {:induction false} PutAllRead(bs: seq<ByteLoc>, vs: seq<int>, s: Store)
    requires |bs| == |vs| && NoRepeats(bs)
    ensures Read(bs, PutAll(bs, vs, s)) == vs
  {
    if bs != [] {
      var t := s.Put(bs[0], vs[0]);
      PutAllRead(bs[1..], vs[1..], t);
      PutAllFrame(bs[1..], vs[1..], t, bs[0]);
      var out := PutAll(bs, vs, s);
      assert Read(bs, out) == [out.At(bs[0])] + Read(bs[1..], out);
    }
  }

  /** Setting a location changes only its own bytes. */
  lemma {:induction false} SetFrame(l: Loc, v: Value, s: Store, b: ByteLoc)
    requires WellLoc(l) && Shaped(l, v) && b !in LocBytes(l)
    ensures SetValue(l, v, s).At(b) == s.At(b)
    decreases l, 0
  {
    match l
    case Combo(ps) => SetPartsFrame(ps, v.bytes, s, b);
    case ArrayLoc(es) => SetAllFrame(es, v.parts, s, b);
    case StructLoc(fs) => SetAllFrame(fs, v.parts, s, b);
    case _ => PutAllFrame(PlainBytes(l), v.bytes, s, b);
  }

  lemma {:induction false} SetPartsFrame(ps: seq<Loc>, bytes: seq<int>, s: Store, b: ByteLoc)
    requires AllWell(ps) && AllBits(ps) && |bytes| == SizeSum(ps) && b !in ConcatBytes(ps)
    ensures SetParts(ps, bytes, s).At(b) == s.At(b)
    decreases ps, 0
  {
    if ps != [] {
      var n := SizeOf(ps[0]);
      SetFrame(ps[0], Bits(bytes[..n]), s, b);
      SetPartsFrame(ps[1..], bytes[n..], SetValue(ps[0], Bits(bytes[..n]), s), b);
    }
  }

  lemma {:induction false} SetAllFrame(ls: seq<Loc>, vs: seq<Value>, s: Store, b: ByteLoc)
    requires AllWell(ls) && ShapedAll(ls, vs) && b !in ConcatBytes(ls)
    ensures SetAll(ls, vs, s).At(b) == s.At(b)
    decreases ls, 0
  {
    if ls != [] {
      SetFrame(ls[0], vs[0], s, b);
      SetAllFrame(ls[1..], vs[1..], SetValue(ls[0], vs[0], s), b);
    }
  }

  /** What is read from a location depends only on its bytes. */
  lemma {:induction false} GetAgrees(l: Loc, s: Store, t: Store)
    requires WellLoc(l) && forall b :: b in LocBytes(l) ==> s.At(b) == t.At(b)
    ensures GetValue(l, s) == GetValue(l, t)
    decreases l, 0
  {
    match l
    case Combo(ps) => GetPartsAgrees(ps, s, t);
    case ArrayLoc(es) => GetAllAgrees(es, s, t);
    case StructLoc(fs) => GetAllAgrees(fs, s, t);
    case _ =>
      var bs := PlainBytes(l);
      assert forall i :: 0 <= i < |bs| ==> bs[i] in LocBytes(l);
  }

  lemma {:induction false} GetPartsAgrees(ps: seq<Loc>, s: Store, t: Store)
    requires AllWell(ps) && AllBits(ps) && forall b :: b in ConcatBytes(ps) ==> s.At(b) == t.At(b)
    ensures GetParts(ps, s) == GetParts(ps, t)
    decreases ps, 0
  {
    if ps != [] {
      GetAgrees(ps[0], s, t);
      GetPartsAgrees(ps[1..], s, t);
    }
  }

  lemma {:induction false} GetAllAgrees(ls: seq<Loc>, s: Store, t: Store)
    requires AllWell(ls) && forall b :: b in ConcatBytes(ls) ==> s.At(b) == t.At(b)
    ensures GetAll(ls, s) == GetAll(ls, t)
    decreases ls, 0
  {
    if ls != [] {
      GetAgrees(ls[0], s, t);
      GetAllAgrees(ls[1..], s, t);
    }
  }

  // ------------------------------------------------- round trips

  lemma ApartSplit(a: seq<ByteLoc>, b: seq<ByteLoc>)
    requires NoRepeats(a + b)
    ensures NoRepeats(a) && NoRepeats(b) && forall x :: x in a ==> x !in b
  {
    assert forall i :: 0 <= i < |a| ==> (a + b)[i] == a[i];
    assert forall i :: 0 <= i < |b| ==> (a + b)[|a| + i] == b[i];
  }

  /** A value stored through a location whose leaves are disjoint is read back unchanged, however
      combos, structs and arrays are nested. */
  lemma {:induction false} RoundTrip(l: Loc, v: Value, s: Store)
    requires WellLoc(l) && Shaped(l, v) && NoRepeats(LocBytes(l))
    ensures GetValue(l, SetValue(l, v, s)) == v
    decreases l, 0
  {
    match l
    case Combo(ps) => RoundTripParts(ps, v.bytes, s);
    case ArrayLoc(es) => RoundTripAll(es, v.parts, s);
    case StructLoc(fs) => RoundTripAll(fs, v.parts, s);
    case _ => PutAllRead(PlainBytes(l), v.bytes, s);
  }

  lemma {:induction false} RoundTripParts(ps: seq<Loc>, bytes: seq<int>, s: Store)
    requires AllWell(ps) && AllBits(ps) && |bytes| == SizeSum(ps) && NoRepeats(ConcatBytes(ps))
    ensures GetParts(ps, SetParts(ps, bytes, s)) == bytes
    decreases ps, 0
  {
    if ps != [] {
      var n := SizeOf(ps[0]);
      var t := SetValue(ps[0], Bits(bytes[..n]), s);
      var out := SetParts(ps, bytes, s);
      ApartSplit(LocBytes(ps[0]), ConcatBytes(ps[1..]));
      RoundTrip(ps[0], Bits(bytes[..n]), s);
      RoundTripParts(ps[1..], bytes[n..], t);
      forall b | b in LocBytes(ps[0]) ensures out.At(b) == t.At(b) {
        SetPartsFrame(ps[1..], bytes[n..], t, b);
      }
      GetAgrees(ps[0], out, t);
      assert bytes == bytes[..n] + bytes[n..];
    }
  }

  lemma {:induction false} RoundTripAll(ls: seq<Loc>, vs: seq<Value>, s: Store)
    requires AllWell(ls) && ShapedAll(ls, vs) && NoRepeats(ConcatBytes(ls))
    ensures GetAll(ls, SetAll(ls, vs, s)) == vs
    decreases ls, 0
  {
    if ls != [] {
      var t := SetValue(ls[0], vs[0], s);
      var out := SetAll(ls, vs, s);
      ApartSplit(LocBytes(ls[0]), ConcatBytes(ls[1..]));
      RoundTrip(ls[0], vs[0], s);
      RoundTripAll(ls[1..], vs[1..], t);
      forall b | b in LocBytes(ls[0]) ensures out.At(b) == t.At(b) {
        SetAllFrame(ls[1..], vs[1..], t, b);
      }
      GetAgrees(ls[0], out, t);
      assert vs == [vs[0]] + vs[1..];
    }
  }

  // ------------------------------------------------- byte order

  /** The bytes of a value in order, whatever its structure. */
  function Flat(v: Value): seq<int>
    decreases v
  {
    match v
    case Bits(bytes) => bytes
    case Many(parts) => FlatAll(parts)
  }

  function FlatAll(vs: seq<Value>): seq<int>
    decreases vs
  {
    if vs == [] then [] else Flat(vs[0]) + FlatAll(vs[1..])
  }

  lemma ReadConcat(a: seq<ByteLoc>, b: seq<ByteLoc>, s: Store)
    ensures Read(a + b, s) == Read(a, s) + Read(b, s)
  {
  }

  /** A location is read byte by byte, in the order of its bytes. */
  lemma {:induction false} GetBytes(l: Loc, s: Store)
    requires WellLoc(l)
    ensures Flat(GetValue(l, s)) == Read(LocBytes(l), s)
    decreases l, 0
  {
    match l
    case Combo(ps) => GetPartsBytes(ps, s);
    case ArrayLoc(es) => GetAllBytes(es, s);
    case StructLoc(fs) => GetAllBytes(fs, s);
    case _ =>
  }

  lemma {:induction false} GetPartsBytes(ps: seq<Loc>, s: Store)
    requires AllWell(ps) && AllBits(ps)
    ensures GetParts(ps, s) == Read(ConcatBytes(ps), s)
    decreases ps, 0
  {
    if ps != [] {
      GetBytes(ps[0], s);
      GetPartsBytes(ps[1..], s);
      ReadConcat(LocBytes(ps[0]), ConcatBytes(ps[1..]), s);
    }
  }

  lemma {:induction false} GetAllBytes(ls: seq<Loc>, s: Store)
    requires AllWell(ls)
    ensures FlatAll(GetAll(ls, s)) == Read(ConcatBytes(ls), s)
    decreases ls, 0
  {
    if ls != [] {
      GetBytes(ls[0], s);
      GetAllBytes(ls[1..], s);
      ReadConcat(LocBytes(ls[0]), ConcatBytes(ls[1..]), s);
    }
  }

  /** A value is stored byte by byte, in the order of the bytes of its location: least significant byte
      at the lowest place, parts one behind the other. */
  lemma SetBytes(l: Loc, v: Value, s: Store)
    requires WellLoc(l) && Shaped(l, v) && NoRepeats(LocBytes(l))
    ensures Read(LocBytes(l), SetValue(l, v, s)) == Flat(v)
  {
    RoundTrip(l, v, s);
    GetBytes(l, SetValue(l, v, s));
  }

  // ------------------------------------------------- System V arguments

  lemma {:induction false} RefineWell(slots: seq<Loc>, t: SimType, offset: nat)
    requires Wf(t) && WordSlots(slots) && offset + Size(t) <= WORD * |slots|
    ensures WellLoc(Refine(slots, t, offset))
    decreases t, 0, 0
  {
    match t
    case Array(e, n) => RefineElemsWell(slots, e, n, offset);
    case Struct(fs, packed, _) => RefineFieldsWell(slots, fs, packed, |fs|, offset);
    case Union(ms) =>
      MaxSizeReached(ms);
      RefineWell(slots, ms[FullMember(ms, MaxSize(ms))], offset);
    case _ => PiecesArePlain(slots, Size(t), offset, 0);
  }

  lemma {:induction false} RefineElemsWell(slots: seq<Loc>, e: SimType, n: nat, offset: nat)
    requires Wf(e) && WordSlots(slots) && offset + n * Size(e) <= WORD * |slots|
    ensures AllWell(RefineElems(slots, e, n, offset))
    decreases e, 1, n
  {
    if n > 0 {
      MulStep(n, Size(e));
      RefineWell(slots, e, offset);
      RefineElemsWell(slots, e, n - 1, offset + Size(e));
    }
  }

  lemma {:induction false} RefineFieldsWell(slots: seq<Loc>, fs: seq<SimType>, packed: bool, k: nat, offset: nat)
    requires AllWf(fs) && k <= |fs| && WordSlots(slots) && offset + End(fs, packed, k) <= WORD * |slots|
    ensures AllWell(RefineFields(slots, fs, packed, k, offset))
    decreases fs, 0, k
  {
    if k > 0 {
      FieldBounds(fs, packed, k - 1);
      RefineFieldsWell(slots, fs, packed, k - 1, offset);
      RefineWell(slots, fs[k - 1], offset + Offset(fs, packed, k - 1));
    }
  }

  lemma {:induction false} ArgLocsWell(c: ArgSession.Cursor, ts: seq<SimType>)
    requires ValidArgs(ts) && ArgSession.ValidCursor(c)
    ensures AllWell(ArgLocs(c, ts))
    decreases ts
  {
    if ts != [] {
      NextArgPlacement(c, ts[0]);
      var a := Decay(ts[0]);
      AssignGood(c, a);
      RefineWell(NextArg(c, ts[0]).slots, a, 0);
      ArgLocsWell(NextArg(c, ts[0]).cursor, ts[1..]);
    }
  }

  /** For every prototype: what a caller stores in the argument locations is what `get_args` reads
      in the callee. */
  lemma ArgumentsRoundTrip(ret: Option<SimType>, ts: seq<SimType>, vs: seq<Value>, s: Store)
    requires (ret.Some? ==> Wf(ret.value)) && ValidArgs(ts)
    requires ShapedAll(Locs(ret, ts), vs)
    ensures AllWell(Locs(ret, ts))
    ensures GetAll(Locs(ret, ts), SetAll(Locs(ret, ts), vs, s)) == vs
  {
    PrototypeLayout(ret, ts);
    ArgLocsWell(StartCursor(ret), ts);
    RoundTripAll(Locs(ret, ts), vs, s);
  }

  // ------------------------------------------------- values shorter than their location

  /** A stack location writes whatever it is given, least significant byte first. */
  function SetShort(l: Loc, bytes: seq<int>, s: Store): Store
    requires l.StackLoc? && |bytes| <= l.size
  {
    PutAll(PlainBytes(l)[..|bytes|], bytes, s)
  }

  /** A bitvector shorter than its stack location comes back with the stale bytes behind it, so it is
      read back unchanged exactly when it fills the location. */
  lemma ShortValueKeepsStaleBytes(l: Loc, bytes: seq<int>, s: Store)
    requires l.StackLoc? && |bytes| <= l.size
    ensures GetValue(l, SetShort(l, bytes, s)) == Bits(bytes + Read(PlainBytes(l)[|bytes|..], s))
    ensures GetValue(l, SetShort(l, bytes, s)) == Bits(bytes) <==> |bytes| == l.size
  {
    var all := PlainBytes(l);
    var head, tail := all[..|bytes|], all[|bytes|..];
    assert NoRepeats(all);
    assert NoRepeats(head);
    var after := SetShort(l, bytes, s);
    PutAllRead(head, bytes, s);
    forall i | 0 <= i < |tail| ensures after.At(tail[i]) == s.At(tail[i]) {
      assert tail[i] == all[|bytes| + i];
      assert tail[i] !in head;
      PutAllFrame(head, bytes, s, tail[i]);
    }
    assert forall i :: 0 <= i < |bytes| ==> Read(all, after)[i] == Read(head, after)[i];
    assert Read(all, after) == bytes + Read(tail, s);
  }
}
