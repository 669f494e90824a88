/** `KeyedRegion` as a value: what storing an object does to the sorted map of regions, and exactly
    when that is a pointwise update. */
module RegionMap {
  import opened Wrappers

  datatype Stored = Stored(start: int, obj: int, size: Option<nat>)

  /** The objects covering `size` bytes from the key of the region. */
  datatype Region = Region(size: nat, objects: set<Stored>)

  type Regions = map<int, Region>

  function EndOf(m: Regions, k: int): int
    requires k in m
  {
    k + m[k].size
  }

  /** Regions are nonempty and do not overlap. */
  predicate WfRegions(m: Regions) {
    && (forall k :: k in m ==> m[k].size > 0)
    && (forall j, k :: j in m && k in m && j < k ==> EndOf(m, j) <= k)
  }

  predicate Covers(m: Regions, k: int, off: int) { k in m && k <= off < EndOf(m, k) }

  /** The offset-to-objects map that a region map stands for, by linear scan. */
  ghost function Lookup(m: Regions, off: int): set<Stored> {
    if k :| Covers(m, k, off) then m[k].objects else {}
  }

  lemma LookupAt(m: Regions, k: int, off: int)
    requires WfRegions(m) && Covers(m, k, off)
    ensures Lookup(m, off) == m[k].objects
    ensures forall j :: Covers(m, j, off) ==> j == k
  {
  }

  /** The greatest key at or below `off`. */
  predicate IsFloor(m: Regions, off: int, k: int) {
    k in m && k <= off && forall j :: j in m && j <= off ==> j <= k
  }

  /** `_get_container` looks only at the greatest key at or below the offset; in a well-formed map
      that finds the region a scan of all regions finds. */
  lemma FloorAgreesWithScan(m: Regions, off: int, k: int)
    requires WfRegions(m) && IsFloor(m, off, k)
    ensures Covers(m, k, off) ==> Lookup(m, off) == m[k].objects
    ensures !Covers(m, k, off) ==> Lookup(m, off) == {} && forall j :: !Covers(m, j, off)
  {
    forall j | Covers(m, j, off) ensures j == k {
      assert j <= k;
    }
    if Covers(m, k, off) { LookupAt(m, k, off); }
  }

  // ------------------------------------------------- storing

  function Mark(objects: set<Stored>, so: Stored, overwrite: bool): set<Stored> {
    if overwrite then {so} else objects + {so}
  }

  datatype Scan = Scan(update: Regions, lastEnd: int)

  /** One region of the slow path: splits it, fills the gap in front of it, or marks it. */
  function ScanStep(m: Regions, k: int, start: int, end: int, so: Stored, overwrite: bool, s: Scan): Scan
    requires k in m && k < end && (k < start ==> start <= EndOf(m, k))
  {
    var item, itemEnd := m[k], EndOf(m, k);
    if k < start then
      Scan(s.update[k := Region(start - k, item.objects)]
             [start := Region(itemEnd - start, Mark(item.objects, so, overwrite))], itemEnd)
    else if k > s.lastEnd then
      Scan(s.update[s.lastEnd := Region(k - s.lastEnd, {so})], k)
    else if itemEnd > end then
      Scan(s.update[k := Region(end - k, Mark(item.objects, so, overwrite))]
             [end := Region(itemEnd - end, item.objects)], itemEnd)
    else
      Scan(s.update[k := Region(item.size, Mark(item.objects, so, overwrite))], s.lastEnd)
  }

  function ScanAll(m: Regions, keys: seq<int>, start: int, end: int, so: Stored, overwrite: bool, s: Scan): Scan
    requires forall i :: 0 <= i < |keys| ==> keys[i] in m && keys[i] < end && (keys[i] < start ==> start <= EndOf(m, keys[i]))
    decreases keys
  {
    if keys == [] then s
    else ScanAll(m, keys[1..], start, end, so, overwrite, ScanStep(m, keys[0], start, end, so, overwrite, s))
  }

  predicate Ascending(keys: seq<int>) { forall i, j :: 0 <= i < j < |keys| ==> keys[i] < keys[j] }

  /** The keys that overlap `[start, end)`: those inside, and the region `floor` that covers `start`. */
  ghost predicate Overlapping(m: Regions, start: int, end: int, floor: int, keys: seq<int>) {
    && Ascending(keys)
    && forall k :: k in keys <==> k in m && (start <= k < end || k == floor)
  }

  lemma OverlappingScans(m: Regions, start: int, end: int, floor: int, keys: seq<int>)
    requires Covers(m, floor, start) && Overlapping(m, start, end, floor, keys) && start < end
    ensures forall i :: 0 <= i < |keys| ==> keys[i] in m && keys[i] < end && (keys[i] < start ==> start <= EndOf(m, keys[i]))
    ensures |keys| > 0 && keys[0] == floor
  {
    assert floor in keys;
    forall i | 0 <= i < |keys| ensures keys[i] in m && keys[i] < end && (keys[i] < start ==> start <= EndOf(m, keys[i])) {
      assert keys[i] in keys;
    }
    assert keys[0] in keys;
    var i :| 0 <= i < |keys| && keys[i] == floor;
    if i > 0 { assert keys[0] < floor; }
  }

  /** `__store` when a region covers `start`. */
  ghost function StoreOver(m: Regions, floor: int, keys: seq<int>, start: int, end: int, so: Stored, overwrite: bool): Regions
    requires Covers(m, floor, start) && Overlapping(m, start, end, floor, keys) && start < end
  {
    if floor == start && EndOf(m, floor) == end then
      m[start := Region(end - start, Mark(m[start].objects, so, overwrite))]
    else
      OverlappingScans(m, start, end, floor, keys);
      m + ScanAll(m, keys, start, end, so, overwrite, Scan(map[start := Region(end - start, {so})], start)).update
  }

  /** `__store` when none does. */
  function StoreFresh(m: Regions, start: int, end: int, so: Stored): Regions
    requires start < end
  {
    m[start := Region(end - start, {so})]
  }

  // ------------------------------------------------- correctness

  /** Add is pointwise union on `[start, end)`, set is pointwise replacement, and nothing else moves. */
  ghost predicate Updates(m: Regions, n: Regions, start: int, end: int, so: Stored, overwrite: bool) {
    && WfRegions(n)
    && forall off :: Lookup(n, off) ==
         if !(start <= off < end) then Lookup(m, off) else if overwrite then {so} else Lookup(m, off) + {so}
  }

  /** A range whose start is uncovered is stored correctly when no region begins inside it. */
  predicate GapFree(m: Regions, start: int, end: int) { forall k :: k in m ==> !(start < k < end) }

  /** A range whose start is covered by `floor` is stored correctly when it ends with that region, is
      a proper prefix of it, or runs over its tail into an adjacent region that reaches the end. */
  predicate Aligned(m: Regions, floor: int, start: int, end: int)
    requires floor in m
  {
    var e := EndOf(m, floor);
    || e == end
    || (floor == start && end < e)
    || (floor < start && e < end && e in m && end <= EndOf(m, e))
  }

  predicate Fresh(m: Regions, so: Stored) { forall k :: k in m ==> so !in m[k].objects }

  ghost predicate ShapeOf(m: Regions, n: Regions, start: int, end: int, so: Stored, overwrite: bool) {
    && WfRegions(n)
    && (forall k, off :: Covers(n, k, off) ==>
          if start <= off < end then Marked(m, n, k, off, so, overwrite)
          else exists j :: Covers(m, j, off) && n[k].objects == m[j].objects)
    && (forall j, off :: Covers(m, j, off) ==> Covered(n, off))
    && (forall off :: start <= off < end ==> Covered(n, off))
  }

  ghost predicate Covered(n: Regions, off: int) { exists k :: Covers(n, k, off) }

  ghost predicate Marked(m: Regions, n: Regions, k: int, off: int, so: Stored, overwrite: bool)
    requires k in n
  {
    || (exists j :: Covers(m, j, off) && n[k].objects == Mark(m[j].objects, so, overwrite))
    || ((forall j :: !Covers(m, j, off)) && n[k].objects == {so})
  }

  lemma ShapeUpdates(m: Regions, n: Regions, start: int, end: int, so: Stored, overwrite: bool)
    requires WfRegions(m) && ShapeOf(m, n, start, end, so, overwrite)
    ensures Updates(m, n, start, end, so, overwrite)
  {
    forall off ensures Lookup(n, off) ==
      if start <= off < end then Mark(Lookup(m, off), so, overwrite) else Lookup(m, off)
    {
      if k :| Covers(n, k, off) {
        LookupAt(n, k, off);
        if j :| Covers(m, j, off) { LookupAt(m, j, off); }
      } else {
        assert !Covered(n, off);
      }
    }
  }

  lemma FreshStoreApart(m: Regions, start: int, end: int, so: Stored)
    requires WfRegions(m) && start < end && (forall k :: !Covers(m, k, start)) && GapFree(m, start, end)
    ensures WfRegions(StoreFresh(m, start, end, so)) && start !in m
    ensures forall k :: k in m ==> EndOf(m, k) <= start || end <= k
  {
    forall k | k in m ensures k != start && (EndOf(m, k) <= start || end <= k) {
      assert !Covers(m, k, start);
    }
  }

  /** Storing where nothing covers `start`: correct exactly when no region begins inside the range;
      otherwise the regions overlap. */
  lemma FreshStoreUpdates(m: Regions, start: int, end: int, so: Stored, overwrite: bool)
    requires WfRegions(m) && start < end && (forall k :: !Covers(m, k, start))
    ensures Updates(m, StoreFresh(m, start, end, so), start, end, so, overwrite) <==> GapFree(m, start, end)
  {
    var n := StoreFresh(m, start, end, so);
    if GapFree(m, start, end) {
      FreshStoreApart(m, start, end, so);
      forall k, off | Covers(n, k, off)
        ensures if start <= off < end then Marked(m, n, k, off, so, overwrite)
                else exists j :: Covers(m, j, off) && n[k].objects == m[j].objects
      {
        if k != start { assert Covers(m, k, off); }
      }
      forall j, off | Covers(m, j, off) ensures Covered(n, off) { assert Covers(n, j, off); }
      forall off | start <= off < end ensures Covered(n, off) { assert Covers(n, start, off); }
      ShapeUpdates(m, n, start, end, so, overwrite);
    } else {
      var k :| k in m && start < k < end;
      assert EndOf(n, start) == end > k && k in n;
    }
  }

  // ------------------------------------------------- stores over existing regions

  lemma OnlyFloor(m: Regions, start: int, end: int, floor: int, keys: seq<int>)
    requires WfRegions(m) && Covers(m, floor, start) && start < end <= EndOf(m, floor)
    requires Overlapping(m, start, end, floor, keys)
    ensures keys == [floor]
  {
    OverlappingScans(m, start, end, floor, keys);
    forall k | k in keys ensures k == floor {}
    assert keys[|keys| - 1] in keys;
    assert keys[|keys| - 1] == keys[0];
  }

  lemma ScanOne(m: Regions, k: int, start: int, end: int, so: Stored, overwrite: bool, s: Scan)
    requires k in m && k < end && (k < start ==> start <= EndOf(m, k))
    ensures ScanAll(m, [k], start, end, so, overwrite, s) == ScanStep(m, k, start, end, so, overwrite, s)
  {
    assert [k][1..] == [];
  }

  /** Equal to a region, or its suffix, or its prefix. */
  lemma InsideOneRegion(m: Regions, start: int, end: int, floor: int, keys: seq<int>, so: Stored, overwrite: bool)
    requires WfRegions(m) && Covers(m, floor, start) && start < end
    requires Overlapping(m, start, end, floor, keys)
    requires EndOf(m, floor) == end || (floor == start && end < EndOf(m, floor))
    ensures Updates(m, StoreOver(m, floor, keys, start, end, so, overwrite), start, end, so, overwrite)
  {
    OnlyFloor(m, start, end, floor, keys);
    OverlappingScans(m, start, end, floor, keys);
    var n := StoreOver(m, floor, keys, start, end, so, overwrite);
    var e, objs := EndOf(m, floor), m[floor].objects;
    ScanOne(m, floor, start, end, so, overwrite, Scan(map[start := Region(end - start, {so})], start));
    if floor == start && e == end {
      SplitShape(m, n, floor, start, end, so, overwrite);
    } else if floor < start {
      assert n == m[floor := Region(start - floor, objs)][start := Region(e - start, Mark(objs, so, overwrite))];
      SplitShape(m, n, floor, start, end, so, overwrite);
    } else {
      assert n == m[start := Region(end - start, Mark(objs, so, overwrite))][end := Region(e - end, objs)];
      SplitShape(m, n, floor, start, end, so, overwrite);
    }
  }

  /** A region cut at `start` and at `end`, with the middle marked, is a pointwise update. */
  lemma SplitShape(m: Regions, n: Regions, floor: int, start: int, end: int, so: Stored, overwrite: bool)
    requires WfRegions(m) && floor in m && floor <= start < end <= EndOf(m, floor)
    requires forall k :: k in n <==> k in m || k == start || (k == end && end < EndOf(m, floor))
    requires forall k :: k in m && k != floor ==> k != start && k in n && n[k] == m[k]
    requires n[start] == Region(end - start, Mark(m[floor].objects, so, overwrite))
    requires floor < start ==> n[floor] == Region(start - floor, m[floor].objects)
    requires end < EndOf(m, floor) ==> end in n && n[end] == Region(EndOf(m, floor) - end, m[floor].objects)
    ensures Updates(m, n, start, end, so, overwrite)
  {
    var e := EndOf(m, floor);
    forall j, k | j in n && k in n && j < k ensures EndOf(n, j) <= k {
      if j in m && j != floor && k !in m { assert j < floor ==> EndOf(m, j) <= floor; assert j > floor ==> e <= j; }
      if k in m && k != floor && j !in m { assert floor < k ==> e <= k; }
    }
    forall k, off | Covers(n, k, off)
      ensures if start <= off < end then Marked(m, n, k, off, so, overwrite)
              else exists j :: Covers(m, j, off) && n[k].objects == m[j].objects
    {
      if k in m && k != floor {
        assert Covers(m, k, off);
        assert k < floor ==> EndOf(m, k) <= floor;
        assert k > floor ==> e <= k;
      } else {
        assert Covers(m, floor, off);
      }
    }
    forall j, off | Covers(m, j, off) ensures Covered(n, off) {
      if j != floor {
        assert Covers(n, j, off);
      } else if off < start {
        assert Covers(n, floor, off);
      } else if off < end {
        assert Covers(n, start, off);
      } else {
        assert Covers(n, end, off);
      }
    }
    forall off | start <= off < end ensures Covered(n, off) { assert Covers(n, start, off); }
    ShapeUpdates(m, n, start, end, so, overwrite);
  }

  /** The region before the range cut at its start. */
  function LeftCut(m: Regions, floor: int, start: int, so: Stored, overwrite: bool): Regions
    requires floor in m && floor < start < EndOf(m, floor)
  {
    m[floor := Region(start - floor, m[floor].objects)]
     [start := Region(EndOf(m, floor) - start, Mark(m[floor].objects, so, overwrite))]
  }

  /** The region at `mid` marked up to `end`. */
  function RightCut(m: Regions, mid: int, end: int, so: Stored, overwrite: bool): Regions
    requires mid in m && mid < end <= EndOf(m, mid)
  {
    if EndOf(m, mid) > end then
      m[mid := Region(end - mid, Mark(m[mid].objects, so, overwrite))][end := Region(EndOf(m, mid) - end, m[mid].objects)]
    else m[mid := Region(m[mid].size, Mark(m[mid].objects, so, overwrite))]
  }

  /** The first step over a range that begins inside `floor` and leaves it. */
  lemma CutStep(m: Regions, start: int, end: int, floor: int, so: Stored, overwrite: bool)
    requires Covers(m, floor, start) && floor < start < end && EndOf(m, floor) < end
    ensures var one := ScanStep(m, floor, start, end, so, overwrite, Scan(map[start := Region(end - start, {so})], start));
            one.lastEnd == EndOf(m, floor) && m + one.update == LeftCut(m, floor, start, so, overwrite)
            && one.update.Keys == {start, floor}
  {
  }

  /** The step over a region adjacent to what was scanned, which reaches the end. */
  lemma MarkStep(m: Regions, start: int, end: int, mid: int, so: Stored, overwrite: bool, s: Scan)
    requires mid in m && start < mid < end <= EndOf(m, mid) && s.lastEnd == mid && mid !in s.update
    ensures m + ScanStep(m, mid, start, end, so, overwrite, s).update == RightCut(m + s.update, mid, end, so, overwrite)
  {
  }

  lemma TwoRegionScan(m: Regions, start: int, end: int, floor: int, keys: seq<int>, so: Stored, overwrite: bool)
    requires WfRegions(m) && Covers(m, floor, start) && floor < start < end
    requires Overlapping(m, start, end, floor, keys)
    requires EndOf(m, floor) < end && EndOf(m, floor) in m && end <= EndOf(m, EndOf(m, floor))
    ensures StoreOver(m, floor, keys, start, end, so, overwrite)
         == RightCut(LeftCut(m, floor, start, so, overwrite), EndOf(m, floor), end, so, overwrite)
  {
    TwoKeys(m, start, end, floor, keys);
    OverlappingScans(m, start, end, floor, keys);
    TwoSteps(m, start, end, floor, keys, so, overwrite);
  }

  lemma TwoSteps(m: Regions, start: int, end: int, floor: int, keys: seq<int>, so: Stored, overwrite: bool)
    requires Covers(m, floor, start) && floor < start < end && keys == [floor, EndOf(m, floor)]
    requires EndOf(m, floor) < end && EndOf(m, floor) in m && end <= EndOf(m, EndOf(m, floor))
    ensures m + ScanAll(m, keys, start, end, so, overwrite, Scan(map[start := Region(end - start, {so})], start)).update
         == RightCut(LeftCut(m, floor, start, so, overwrite), EndOf(m, floor), end, so, overwrite)
  {
    var mid := EndOf(m, floor);
    var one := ScanStep(m, floor, start, end, so, overwrite, Scan(map[start := Region(end - start, {so})], start));
    CutStep(m, start, end, floor, so, overwrite);
    assert keys[1..] == [mid];
    ScanOne(m, mid, start, end, so, overwrite, one);
    MarkStep(m, start, end, mid, so, overwrite, one);
  }

  lemma LeftCutUpdates(m: Regions, floor: int, start: int, so: Stored, overwrite: bool)
    requires WfRegions(m) && floor in m && floor < start < EndOf(m, floor)
    ensures Updates(m, LeftCut(m, floor, start, so, overwrite), start, EndOf(m, floor), so, overwrite)
  {
    SplitShape(m, LeftCut(m, floor, start, so, overwrite), floor, start, EndOf(m, floor), so, overwrite);
  }

  lemma RightCutUpdates(m: Regions, mid: int, end: int, so: Stored, overwrite: bool)
    requires WfRegions(m) && mid in m && mid < end <= EndOf(m, mid)
    ensures Updates(m, RightCut(m, mid, end, so, overwrite), mid, end, so, overwrite)
  {
    SplitShape(m, RightCut(m, mid, end, so, overwrite), mid, mid, end, so, overwrite);
  }

  /** Updates of adjacent ranges make an update of their union. */
  lemma UpdatesJoin(m: Regions, l: Regions, n: Regions, start: int, mid: int, end: int, so: Stored, overwrite: bool)
    requires start < mid < end && Updates(m, l, start, mid, so, overwrite) && Updates(l, n, mid, end, so, overwrite)
    ensures Updates(m, n, start, end, so, overwrite)
  {
    forall off ensures Lookup(n, off) ==
      if start <= off < end then Mark(Lookup(m, off), so, overwrite) else Lookup(m, off)
    {
      assert Lookup(l, off) == if start <= off < mid then Mark(Lookup(m, off), so, overwrite) else Lookup(m, off);
    }
  }

  /** Over the tail of a region into the adjacent one that reaches the end of the range. */
  lemma AcrossTwoRegions(m: Regions, start: int, end: int, floor: int, keys: seq<int>, so: Stored, overwrite: bool)
    requires WfRegions(m) && Covers(m, floor, start) && floor < start < end
    requires Overlapping(m, start, end, floor, keys)
    requires EndOf(m, floor) < end && EndOf(m, floor) in m && end <= EndOf(m, EndOf(m, floor))
    ensures Updates(m, StoreOver(m, floor, keys, start, end, so, overwrite), start, end, so, overwrite)
  {
    var mid := EndOf(m, floor);
    var left := LeftCut(m, floor, start, so, overwrite);
    TwoRegionScan(m, start, end, floor, keys, so, overwrite);
    LeftCutUpdates(m, floor, start, so, overwrite);
    RightCutUpdates(left, mid, end, so, overwrite);
    UpdatesJoin(m, left, RightCut(left, mid, end, so, overwrite), start, mid, end, so, overwrite);
  }

  lemma TwoKeys(m: Regions, start: int, end: int, floor: int, keys: seq<int>)
    requires WfRegions(m) && Covers(m, floor, start) && floor < start < end
    requires Overlapping(m, start, end, floor, keys)
    requires EndOf(m, floor) < end && EndOf(m, floor) in m && end <= EndOf(m, EndOf(m, floor))
    ensures keys == [floor, EndOf(m, floor)]
  {
    var mid := EndOf(m, floor);
    OverlappingScans(m, start, end, floor, keys);
    forall k | k in keys ensures k == floor || k == mid {}
    assert mid in keys;
    var i :| 0 <= i < |keys| && keys[i] == mid;
    assert keys[|keys| - 1] in keys;
    assert keys[1] in keys;
  }

  // ------------------------------------------------- stores that go wrong

  /** Once `lastEnd` lags behind, every remaining region is taken for the end of a gap, and the last
      one is never updated. */
  lemma UncoveredHole(m: Regions, n: Regions, off: int, start: int, end: int, so: Stored, overwrite: bool)
    requires start <= off < end && !Covered(n, off)
    ensures !Updates(m, n, start, end, so, overwrite)
  {
    assert Lookup(n, off) == {};
    assert so in Mark(Lookup(m, off), so, overwrite);
  }

  lemma Rest(m: Regions, start: int, end: int, floor: int, keys: seq<int>)
    requires WfRegions(m) && Covers(m, floor, start) && Overlapping(m, start, end, floor, keys) && start < end
    ensures |keys| > 0 && keys[0] == floor
    ensures forall k :: k in keys[1..] <==> k in m && start <= k < end && k != floor
    ensures forall i :: 0 <= i < |keys[1..]| ==> keys[1..][i] in m && EndOf(m, floor) <= keys[1..][i] < end
    ensures Ascending(keys[1..])
  {
    OverlappingScans(m, start, end, floor, keys);
    var rest := keys[1..];
    forall k ensures k in rest <==> k in m && start <= k < end && k != floor {
      if k in rest {
        var i :| 0 <= i < |rest| && rest[i] == k;
        assert keys[i + 1] in keys && keys[0] < keys[i + 1];
      }
      if k in m && start <= k < end && k != floor {
        assert k in keys;
        var i :| 0 <= i < |keys| && keys[i] == k;
        assert rest[i - 1] == k;
      }
    }
    forall i | 0 <= i < |rest| ensures rest[i] in m && EndOf(m, floor) <= rest[i] < end {
      assert rest[i] in rest;
    }
  }

  lemma FirstStep(m: Regions, start: int, end: int, floor: int, so: Stored, overwrite: bool)
    requires Covers(m, floor, start) && start < end && EndOf(m, floor) < end
    ensures var one := ScanStep(m, floor, start, end, so, overwrite, Scan(map[start := Region(end - start, {so})], start));
            && one.update.Keys == {start, floor}
            && start + one.update[start].size == EndOf(m, floor)
            && (floor < start ==> one.update[floor].size == start - floor)
            && one.lastEnd == if floor < start then EndOf(m, floor) else start
  {
  }

  lemma HoleAfterFirst(m: Regions, start: int, end: int, floor: int, so: Stored, overwrite: bool, one: Scan, n: Regions)
    requires WfRegions(m) && Covers(m, floor, start) && start < end && EndOf(m, floor) < end
    requires forall k :: k in m && start <= k < end ==> k == floor
    requires one.update.Keys == {start, floor} && start + one.update[start].size == EndOf(m, floor)
    requires floor < start ==> one.update[floor].size == start - floor
    requires n == m + one.update
    ensures !Updates(m, n, start, end, so, overwrite)
  {
    UncoveredHole(m, n, EndOf(m, floor), start, end, so, overwrite);
  }
}
