/** `__store` as one function on region maps, and whole runs of stores and copies against plain maps
    from offsets to objects. */
module RegionRuns {
  import opened RegionMap
  import opened RegionExact

  // ------------------------------------------------- keys in order

  lemma {:induction false} LeastExists(s: set<int>)
    requires s != {}
    ensures exists x :: IsLeast(s, x)
  {
    assert (forall x :: x !in s) ==> s == {};
    var y :| y in s;
    if s == {y} {
      assert IsLeast(s, y);
    } else {
      LeastExists(s - {y});
      var x :| IsLeast(s - {y}, x);
      var least := if x < y then x else y;
      forall z | z in s ensures least <= z {
        if z != y { assert z in s - {y}; }
      }
      assert IsLeast(s, least);
    }
  }

  predicate IsLeast(s: set<int>, x: int) { x in s && forall y :: y in s ==> x <= y }

  /** The elements of a set in increasing order. */
  ghost function Sorted(s: set<int>): (ks: seq<int>)
    ensures Ascending(ks) && forall k :: k in ks <==> k in s
  {
    if s == {} then []
    else
      LeastExists(s);
      var x :| IsLeast(s, x);
      [x] + Sorted(s - {x})
  }

  lemma HeadInside(ks: seq<int>)
    requires ks != []
    ensures ks[0] in ks
  {
  }

  lemma {:induction false} SortedUnique(ks: seq<int>, js: seq<int>)
    requires Ascending(ks) && Ascending(js) && forall k :: k in ks <==> k in js
    ensures ks == js
  {
    if ks == [] {
      if js != [] { HeadInside(js); }
    } else {
      assert ks[0] in js && js[0] in ks;
      assert ks[0] == js[0];
      forall k ensures k in ks[1..] <==> k in js[1..] {
        assert k in ks[1..] <==> k in ks && k != ks[0];
        assert k in js[1..] <==> k in js && k != js[0];
      }
      SortedUnique(ks[1..], js[1..]);
    }
  }

  // ------------------------------------------------- one store

  ghost function KeysOver(m: Regions, start: int, end: int, floor: int): (keys: seq<int>)
    ensures Overlapping(m, start, end, floor, keys)
  {
    Sorted(set k | k in m && (start <= k < end || k == floor))
  }

  /** `__store`: the gap path when no region covers `start`, the others when one does. */
  ghost function Stores(m: Regions, start: int, end: int, so: Stored, overwrite: bool): Regions
    requires start < end
  {
    if f :| Covers(m, f, start) then StoreOver(m, f, KeysOver(m, start, end, f), start, end, so, overwrite)
    else StoreFresh(m, start, end, so)
  }

  /** The covering region and the overlapping keys leave no choice. */
  lemma StoresOver(m: Regions, start: int, end: int, f: int, keys: seq<int>, so: Stored, overwrite: bool)
    requires WfRegions(m) && start < end && Covers(m, f, start) && Overlapping(m, start, end, f, keys)
    ensures Stores(m, start, end, so, overwrite) == StoreOver(m, f, keys, start, end, so, overwrite)
  {
    LookupAt(m, f, start);
    SortedUnique(keys, KeysOver(m, start, end, f));
  }

  lemma StoresFresh(m: Regions, start: int, end: int, so: Stored, overwrite: bool)
    requires start < end && forall k :: !Covers(m, k, start)
    ensures Stores(m, start, end, so, overwrite) == StoreFresh(m, start, end, so)
  {
  }

  /** The condition under which a store is exact, on the regions alone: nothing begins inside an
      uncovered range, or the covering region is aligned with it. */
  ghost predicate Accurate(m: Regions, start: int, end: int) {
    if f :| Covers(m, f, start) then Aligned(m, f, start, end) else GapFree(m, start, end)
  }

  lemma FloorUnique(m: Regions, start: int, f: int)
    requires WfRegions(m) && Covers(m, f, start)
    ensures forall end :: Accurate(m, start, end) <==> Aligned(m, f, start, end)
  {
    LookupAt(m, f, start);
  }

  /** A store over an accurate range is the pointwise update; a new object over any other is not. */
  ghost predicate ExactIffAccurate(m: Regions, n: Regions, start: int, end: int, so: Stored, overwrite: bool)
    requires start < end
  {
    && (Accurate(m, start, end) ==> Updates(m, n, start, end, so, overwrite))
    && (Fresh(m, so) && !Accurate(m, start, end) ==> !Updates(m, n, start, end, so, overwrite))
  }

  lemma FreshExact(m: Regions, start: int, end: int, so: Stored, overwrite: bool)
    requires WfRegions(m) && start < end && (forall k :: !Covers(m, k, start))
    ensures ExactIffAccurate(m, StoreFresh(m, start, end, so), start, end, so, overwrite)
  {
    FreshStoreUpdates(m, start, end, so, overwrite);
  }

  lemma OverExact(m: Regions, start: int, end: int, floor: int, keys: seq<int>, so: Stored, overwrite: bool)
    requires WfRegions(m) && Covers(m, floor, start) && start < end && Overlapping(m, start, end, floor, keys)
    ensures ExactIffAccurate(m, StoreOver(m, floor, keys, start, end, so, overwrite), start, end, so, overwrite)
  {
    FloorUnique(m, start, floor);
    StoreOverExact(m, start, end, floor, keys, so, overwrite);
  }

  /** The code's store, whichever path it takes. */
  lemma StoresExact(m: Regions, start: int, end: int, so: Stored, overwrite: bool)
    requires WfRegions(m) && start < end
    ensures ExactIffAccurate(m, Stores(m, start, end, so, overwrite), start, end, so, overwrite)
  {
    if f :| Covers(m, f, start) {
      var keys := KeysOver(m, start, end, f);
      StoresOver(m, start, end, f, keys, so, overwrite);
      OverExact(m, start, end, f, keys, so, overwrite);
    } else {
      FreshExact(m, start, end, so, overwrite);
    }
  }

  /** The condition for any object, on the regions alone: nothing begins inside an uncovered range, or
      the covering region makes the range exact. */
  ghost predicate ExactAt(m: Regions, start: int, end: int, so: Stored, overwrite: bool) {
    if f :| Covers(m, f, start) then Exact(m, f, start, end, so, overwrite) else GapFree(m, start, end)
  }

  /** The code's store is the pointwise update if and only if its range is exact for the object. */
  lemma StoresIff(m: Regions, start: int, end: int, so: Stored, overwrite: bool)
    requires WfRegions(m) && start < end
    ensures Updates(m, Stores(m, start, end, so, overwrite), start, end, so, overwrite)
       <==> ExactAt(m, start, end, so, overwrite)
  {
    if f :| Covers(m, f, start) {
      LookupAt(m, f, start);
      var keys := KeysOver(m, start, end, f);
      StoresOver(m, start, end, f, keys, so, overwrite);
      StoreOverIff(m, start, end, f, keys, so, overwrite);
    } else {
      FreshStoreUpdates(m, start, end, so, overwrite);
    }
  }

  /** Accurate ranges are exact for every object, and for a new one no others are. */
  lemma AccurateIsExact(m: Regions, start: int, end: int, so: Stored, overwrite: bool)
    requires WfRegions(m) && start < end
    ensures Accurate(m, start, end) ==> ExactAt(m, start, end, so, overwrite)
    ensures Fresh(m, so) ==> (ExactAt(m, start, end, so, overwrite) <==> Accurate(m, start, end))
  {
    if f :| Covers(m, f, start) {
      LookupAt(m, f, start);
      if Fresh(m, so) { FreshExactIsAligned(m, f, start, end, so, overwrite); }
    }
  }

  /** A new object stored strictly inside a region is not stored pointwise. */
  lemma InteriorStoreFails(so: Stored, overwrite: bool)
    ensures var m: Regions := map[0 := Region(10, {})];
            WfRegions(m) && !Updates(m, Stores(m, 3, 5, so, overwrite), 3, 5, so, overwrite)
  {
    var m: Regions := map[0 := Region(10, {})];
    assert Covers(m, 0, 3);
    FloorUnique(m, 3, 0);
    StoresExact(m, 3, 5, so, overwrite);
  }

  /** Setting an object that the last region holds already, over two regions, is stored pointwise
      although the range is not aligned. */
  lemma KnownObjectStored(a: Stored, b: Stored)
    ensures var m: Regions := map[0 := Region(4, {b}), 4 := Region(4, {a})];
            WfRegions(m) && !Accurate(m, 0, 8) && Updates(m, Stores(m, 0, 8, a, true), 0, 8, a, true)
  {
    var m: Regions := map[0 := Region(4, {b}), 4 := Region(4, {a})];
    assert Covers(m, 0, 0);
    FloorUnique(m, 0, 0);
    assert ChainedTo(m, 0, 0, 8, a, true, 4);
    StoresIff(m, 0, 8, a, true);
  }

  // ------------------------------------------------- runs of stores and copies

  /** Regions are numbered as they come into being; number 0 exists from the start. */
  datatype Op =
    | Store(region: nat, start: int, end: int, item: Stored, overwrite: bool)
    | Copy(region: nat)

  /** The regions there are after the first `n` operations. */
  function Count(ops: seq<Op>, n: nat): nat
    requires n <= |ops|
  {
    if n == 0 then 1 else Count(ops, n - 1) + if ops[n - 1].Copy? then 1 else 0
  }

  /** Operations name regions that exist, and ranges are not empty. */
  predicate WellFormed(ops: seq<Op>) {
    forall n :: 0 <= n < |ops| ==> ops[n].region < Count(ops, n) && (ops[n].Store? ==> ops[n].start < ops[n].end)
  }

  /** What the code's stores and copies make of a pool of regions. */
  ghost function Pool(ops: seq<Op>, n: nat): (p: seq<Regions>)
    requires WellFormed(ops) && n <= |ops|
    ensures |p| == Count(ops, n)
  {
    if n == 0 then [map[]] else After(Pool(ops, n - 1), ops[n - 1])
  }

  ghost function After(p: seq<Regions>, op: Op): (q: seq<Regions>)
    requires op.region < |p| && (op.Store? ==> op.start < op.end)
    ensures |q| == |p| + if op.Copy? then 1 else 0
  {
    if op.Copy? then p + [p[op.region]]
    else p[op.region := Stores(p[op.region], op.start, op.end, op.item, op.overwrite)]
  }

  /** What a plain map from offsets to objects holds for region `r` at `off` after `n` operations. */
  function Plain(ops: seq<Op>, n: nat, r: nat, off: int): set<Stored>
    requires WellFormed(ops) && n <= |ops| && r < Count(ops, n)
  {
    if n == 0 then {}
    else
      var op := ops[n - 1];
      if op.Copy? then Plain(ops, n - 1, if r < Count(ops, n - 1) then r else op.region, off)
      else
        var before := Plain(ops, n - 1, r, off);
        if r != op.region || !(op.start <= off < op.end) then before
        else if op.overwrite then {op.item}
        else before + {op.item}
  }

  /** Every region is sorted, without overlap, and looks up like its plain map. */
  ghost predicate Refines(ops: seq<Op>, n: nat)
    requires WellFormed(ops) && n <= |ops|
  {
    forall r :: 0 <= r < Count(ops, n) ==> RefinesAt(ops, n, r)
  }

  ghost predicate RefinesAt(ops: seq<Op>, n: nat, r: nat)
    requires WellFormed(ops) && n <= |ops| && r < Count(ops, n)
  {
    WfRegions(Pool(ops, n)[r]) && forall off :: Lookup(Pool(ops, n)[r], off) == Plain(ops, n, r, off)
  }

  /** The range of operation `n` is exact for its object in the region it is stored in. */
  ghost predicate ExactOp(ops: seq<Op>, n: nat)
    requires WellFormed(ops) && n < |ops|
  {
    ops[n].Store? ==> ExactAt(Pool(ops, n)[ops[n].region], ops[n].start, ops[n].end, ops[n].item, ops[n].overwrite)
  }

  /** The ranges of the first `n` operations are exact when they are stored. */
  ghost predicate ExactUpTo(ops: seq<Op>, n: nat)
    requires WellFormed(ops) && n <= |ops|
  {
    forall i :: 0 <= i < n ==> ExactOp(ops, i)
  }

  ghost predicate ExactRun(ops: seq<Op>)
    requires WellFormed(ops)
  {
    ExactUpTo(ops, |ops|)
  }

  /** Every range is accurate when it is stored. */
  ghost predicate AccurateRun(ops: seq<Op>)
    requires WellFormed(ops)
  {
    forall n :: 0 <= n < |ops| ==> AccurateAt(ops, n)
  }

  /** The range of operation `n` is accurate in the region it is stored in. */
  ghost predicate AccurateAt(ops: seq<Op>, n: nat)
    requires WellFormed(ops) && n < |ops|
  {
    ops[n].Store? ==> Accurate(Pool(ops, n)[ops[n].region], ops[n].start, ops[n].end)
  }

  /** The object of operation `n` is new to the region it is stored in. */
  ghost predicate NewAt(ops: seq<Op>, n: nat)
    requires WellFormed(ops) && n < |ops|
  {
    ops[n].Store? ==> Fresh(Pool(ops, n)[ops[n].region], ops[n].item)
  }

  lemma EmptyRefines(ops: seq<Op>)
    requires WellFormed(ops)
    ensures Refines(ops, 0)
  {
    var none: Regions := map[];
    assert forall off, k :: !Covers(none, k, off);
  }

  lemma StepRefines(ops: seq<Op>, n: nat, r: nat)
    requires WellFormed(ops) && n < |ops| && Refines(ops, n) && ExactOp(ops, n) && r < Count(ops, n + 1)
    ensures RefinesAt(ops, n + 1, r)
  {
    var op, p := ops[n], Pool(ops, n);
    assert RefinesAt(ops, n, op.region);
    if op.Copy? {
      if r < Count(ops, n) { assert RefinesAt(ops, n, r); }
    } else {
      assert RefinesAt(ops, n, r);
      StoresIff(p[op.region], op.start, op.end, op.item, op.overwrite);
    }
  }

  /** A run of the code's stores and copies over exact ranges refines the plain maps. */
  lemma {:induction false} RunRefinesPlain(ops: seq<Op>, n: nat)
    requires WellFormed(ops) && n <= |ops| && ExactUpTo(ops, n)
    ensures Refines(ops, n)
  {
    if n == 0 {
      EmptyRefines(ops);
    } else {
      RunRefinesPlain(ops, n - 1);
      forall r | 0 <= r < Count(ops, n) ensures RefinesAt(ops, n, r) {
        StepRefines(ops, n - 1, r);
      }
    }
  }

  lemma RunWellFormed(ops: seq<Op>, n: nat)
    requires WellFormed(ops) && n < |ops| && ExactRun(ops)
    ensures WfRegions(Pool(ops, n)[ops[n].region])
  {
    RunRefinesPlain(ops, n);
    assert RefinesAt(ops, n, ops[n].region);
  }

  /** Refinement before and after a store shows that its range was exact. */
  lemma RefiningStepExact(ops: seq<Op>, n: nat)
    requires WellFormed(ops) && n < |ops| && Refines(ops, n) && Refines(ops, n + 1)
    ensures ExactOp(ops, n)
  {
    var op := ops[n];
    if op.Store? {
      var m, m' := Pool(ops, n)[op.region], Pool(ops, n + 1)[op.region];
      assert RefinesAt(ops, n, op.region) && RefinesAt(ops, n + 1, op.region);
      assert Updates(m, m', op.start, op.end, op.item, op.overwrite);
      StoresIff(m, op.start, op.end, op.item, op.overwrite);
    }
  }

  /** Every moment of a run refines the plain maps if and only if every range is exact for its object
      when it is stored. */
  lemma RunRefinesIff(ops: seq<Op>)
    requires WellFormed(ops)
    ensures (forall n :: 0 <= n <= |ops| ==> Refines(ops, n)) <==> ExactRun(ops)
  {
    if forall n :: 0 <= n <= |ops| ==> Refines(ops, n) {
      forall n | 0 <= n < |ops| ensures ExactOp(ops, n) {
        RefiningStepExact(ops, n);
      }
    }
    if ExactRun(ops) {
      forall n | 0 <= n <= |ops| ensures Refines(ops, n) {
        RunRefinesPlain(ops, n);
      }
    }
  }

  /** Runs over accurate ranges are exact; runs of new objects are exact only over accurate ranges. */
  lemma AccurateRunIsExact(ops: seq<Op>)
    requires WellFormed(ops)
    ensures AccurateRun(ops) ==> ExactRun(ops)
    ensures ExactRun(ops) && (forall n :: 0 <= n < |ops| ==> NewAt(ops, n)) ==> AccurateRun(ops)
  {
    if AccurateRun(ops) { AccuratePrefix(ops, |ops|); }
    if ExactRun(ops) && forall n :: 0 <= n < |ops| ==> NewAt(ops, n) {
      forall n | 0 <= n < |ops| ensures AccurateAt(ops, n) {
        RunWellFormed(ops, n);
        assert NewAt(ops, n);
        OpExactness(ops, n);
      }
    }
  }

  lemma OpExactness(ops: seq<Op>, n: nat)
    requires WellFormed(ops) && n < |ops| && WfRegions(Pool(ops, n)[ops[n].region])
    ensures AccurateAt(ops, n) ==> ExactOp(ops, n)
    ensures NewAt(ops, n) ==> (ExactOp(ops, n) <==> AccurateAt(ops, n))
  {
    var op := ops[n];
    if op.Store? { AccurateIsExact(Pool(ops, n)[op.region], op.start, op.end, op.item, op.overwrite); }
  }

  lemma AccurateStep(ops: seq<Op>, n: nat)
    requires WellFormed(ops) && n < |ops| && Refines(ops, n) && AccurateAt(ops, n)
    ensures ExactOp(ops, n)
  {
    assert RefinesAt(ops, n, ops[n].region);
    OpExactness(ops, n);
  }

  lemma {:induction false} AccuratePrefix(ops: seq<Op>, n: nat)
    requires WellFormed(ops) && n <= |ops| && forall i :: 0 <= i < n ==> AccurateAt(ops, i)
    ensures ExactUpTo(ops, n)
  {
    if n > 0 {
      AccuratePrefix(ops, n - 1);
      RunRefinesPlain(ops, n - 1);
      AccurateStep(ops, n - 1);
    }
  }
}
