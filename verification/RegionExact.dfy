/** Exactly when storing over existing regions is a pointwise update, for new objects and for objects
    that the regions hold already. */
module RegionExact {
  import opened RegionMap

  // ------------------------------------------------- the condition

  /** Marking the region changes nothing. */
  predicate Settled(m: Regions, k: int, so: Stored, overwrite: bool)
    requires k in m
  {
    if overwrite then m[k].objects == {so} else so in m[k].objects
  }

  /** Marking the region leaves the stored object alone in it. */
  predicate Absorbed(m: Regions, k: int, so: Stored, overwrite: bool)
    requires k in m
  {
    overwrite || m[k].objects <= {so}
  }

  /** The last region that begins before `end`. */
  predicate IsLast(m: Regions, end: int, k: int) { k in m && k < end && forall j :: j in m && j < end ==> j <= k }

  /** The range runs over several regions up to the last one: that one reaches the end and is settled,
      and all before it, from `start` on, are absorbed. */
  ghost predicate Chained(m: Regions, floor: int, start: int, end: int, so: Stored, overwrite: bool)
    requires floor in m
  {
    EndOf(m, floor) < end && exists last :: ChainedTo(m, floor, start, end, so, overwrite, last)
  }

  ghost predicate ChainedTo(m: Regions, floor: int, start: int, end: int, so: Stored, overwrite: bool, last: int) {
    && IsLast(m, end, last) && floor < last && end <= EndOf(m, last) && Settled(m, last, so, overwrite)
    && forall k :: k in m && start <= k < last ==> Absorbed(m, k, so, overwrite)
  }

  /** The range is aligned with the regions, or lies strictly inside a settled one, or runs over a chain. */
  ghost predicate Exact(m: Regions, floor: int, start: int, end: int, so: Stored, overwrite: bool)
    requires floor in m
  {
    || Aligned(m, floor, start, end)
    || (floor < start && end < EndOf(m, floor) && Settled(m, floor, so, overwrite))
    || Chained(m, floor, start, end, so, overwrite)
  }

  /** For a new object only alignment is left. */
  lemma FreshExactIsAligned(m: Regions, floor: int, start: int, end: int, so: Stored, overwrite: bool)
    requires floor in m && Fresh(m, so)
    ensures Exact(m, floor, start, end, so, overwrite) <==> Aligned(m, floor, start, end)
  {
    forall k | k in m ensures !Settled(m, k, so, overwrite) {
      assert so in Mark(m[k].objects, so, overwrite);
    }
  }

  // ------------------------------------------------- strictly inside a region

  /** A store strictly inside a region marks everything up to the region's end, which is harmless
      exactly when the region is settled. */
  lemma InteriorIff(m: Regions, start: int, end: int, floor: int, keys: seq<int>, so: Stored, overwrite: bool)
    requires WfRegions(m) && Covers(m, floor, start) && floor < start < end < EndOf(m, floor)
    requires Overlapping(m, start, end, floor, keys)
    ensures Updates(m, StoreOver(m, floor, keys, start, end, so, overwrite), start, end, so, overwrite)
       <==> Settled(m, floor, so, overwrite)
    ensures Updates(m, StoreOver(m, floor, keys, start, end, so, overwrite), start, EndOf(m, floor), so, overwrite)
  {
    OnlyFloor(m, start, end, floor, keys);
    OverlappingScans(m, start, end, floor, keys);
    ScanOne(m, floor, start, end, so, overwrite, Scan(map[start := Region(end - start, {so})], start));
    var n, e := StoreOver(m, floor, keys, start, end, so, overwrite), EndOf(m, floor);
    assert n == LeftCut(m, floor, start, so, overwrite);
    LeftCutUpdates(m, floor, start, so, overwrite);
    LookupAt(m, floor, end);
    if Settled(m, floor, so, overwrite) {
      forall off ensures Lookup(n, off) == if start <= off < end then Mark(Lookup(m, off), so, overwrite) else Lookup(m, off) {
        if end <= off < e { LookupAt(m, floor, off); }
      }
    }
  }

  // ------------------------------------------------- the chain of gaps

  /** Once the scan is past a gap it fills up to each next key and marks nothing any more. */
  function Fill(u: Regions, p: int, rest: seq<int>, so: Stored): Regions
    requires Ascending([p] + rest)
    decreases rest
  {
    if rest == [] then u
    else
      assert ([p] + rest)[0] < ([p] + rest)[1];
      AscendingTail(p, rest);
      Fill(u[p := Region(rest[0] - p, {so})], rest[0], rest[1..], so)
  }

  lemma AscendingTail(p: int, rest: seq<int>)
    requires Ascending([p] + rest) && rest != []
    ensures Ascending([rest[0]] + rest[1..]) && p < rest[0]
  {
    var all := [p] + rest;
    assert all[0] < all[1];
    assert [rest[0]] + rest[1..] == rest;
    forall i, j | 0 <= i < j < |rest| ensures rest[i] < rest[j] { assert all[i + 1] < all[j + 1]; }
  }

  lemma {:induction false} GapScan(m: Regions, keys: seq<int>, start: int, end: int, so: Stored, overwrite: bool, s: Scan)
    requires forall i :: 0 <= i < |keys| ==> keys[i] in m && start <= keys[i] < end
    requires Ascending([s.lastEnd] + keys)
    ensures ScanAll(m, keys, start, end, so, overwrite, s).update == Fill(s.update, s.lastEnd, keys, so)
    decreases keys
  {
    if keys != [] {
      AscendingTail(s.lastEnd, keys);
      var next := ScanStep(m, keys[0], start, end, so, overwrite, s);
      assert next == Scan(s.update[s.lastEnd := Region(keys[0] - s.lastEnd, {so})], keys[0]);
      GapScan(m, keys[1..], start, end, so, overwrite, next);
    }
  }

  lemma {:induction false} FillOver(m: Regions, u: Regions, p: int, rest: seq<int>, so: Stored)
    requires Ascending([p] + rest)
    ensures m + Fill(u, p, rest, so) == Fill(m + u, p, rest, so)
    decreases rest
  {
    if rest != [] {
      AscendingTail(p, rest);
      var v := u[p := Region(rest[0] - p, {so})];
      FillOver(m, v, rest[0], rest[1..], so);
      assert m + v == (m + u)[p := Region(rest[0] - p, {so})];
    }
  }

  /** What the filling starts from at `p` does not matter, when something is filled. */
  lemma FillForgets(u: Regions, p: int, r: Region, rest: seq<int>, so: Stored)
    requires Ascending([p] + rest) && rest != []
    ensures Fill(u[p := r], p, rest, so) == Fill(u, p, rest, so)
  {
    AscendingTail(p, rest);
    assert u[p := r][p := Region(rest[0] - p, {so})] == u[p := Region(rest[0] - p, {so})];
  }

  /** The key after `k` among `rest`. */
  ghost predicate NextKey(rest: seq<int>, k: int, next: int) {
    next in rest && k < next && forall j :: j in rest && k < j ==> next <= j
  }

  /** Every key from `p` on, but the last, begins a region of the stored object alone that reaches to
      the next key; all other regions are untouched. */
  ghost predicate Filled(u: Regions, n: Regions, p: int, rest: seq<int>, so: Stored)
    requires rest != []
  {
    var last := rest[|rest| - 1];
    && (forall k :: k in n <==> k in u || k == p)
    && (forall k :: k in n && (k == p || (k in rest && k < last)) ==> NextKey(rest, k, EndOf(n, k)) && n[k].objects == {so})
    && (forall k :: k in u && k != p && !(k in rest && k < last) ==> n[k] == u[k])
  }

  lemma {:induction false} FillFills(u: Regions, p: int, rest: seq<int>, so: Stored)
    requires Ascending([p] + rest) && rest != [] && forall k :: k in rest ==> k in u
    ensures Filled(u, Fill(u, p, rest, so), p, rest, so)
    decreases rest
  {
    AscendingTail(p, rest);
    var v, tail, n := u[p := Region(rest[0] - p, {so})], rest[1..], Fill(u, p, rest, so);
    KeysAfter(p, rest);
    assert n == Fill(v, rest[0], tail, so);
    if tail == [] {
      assert n == v;
      assert rest[|rest| - 1] == rest[0];
    } else {
      assert forall k :: k in tail ==> k in v;
      FillFills(v, rest[0], tail, so);
      assert rest[|rest| - 1] == tail[|tail| - 1];
      HeadUntouched(p, rest);
      assert n[p] == v[p];
      forall k | k in n && (k == rest[0] || (k in tail && k < rest[|rest| - 1]))
        ensures NextKey(rest, k, EndOf(n, k)) && n[k].objects == {so}
      {
        assert NextKey(tail, k, EndOf(n, k));
      }
    }
  }

  lemma KeysAfter(p: int, rest: seq<int>)
    requires Ascending([p] + rest) && rest != []
    ensures forall k :: k in rest <==> k == rest[0] || k in rest[1..]
    ensures forall k :: k in rest[1..] ==> rest[0] < k
    ensures NextKey(rest, p, rest[0]) && p !in rest
  {
    AscendingTail(p, rest);
    forall k | k in rest[1..] ensures rest[0] < k {
      var i :| 0 <= i < |rest[1..]| && rest[1..][i] == k;
      assert ([rest[0]] + rest[1..])[0] < ([rest[0]] + rest[1..])[i + 1];
    }
    forall k ensures k in rest <==> k == rest[0] || k in rest[1..] {
      assert rest == [rest[0]] + rest[1..];
    }
  }

  lemma HeadUntouched(p: int, rest: seq<int>)
    requires Ascending([p] + rest) && |rest| > 1
    ensures p != rest[0] && p !in rest[1..] && rest[0] < rest[|rest| - 1]
  {
    KeysAfter(p, rest);
    assert rest[|rest| - 1] in rest[1..] by { assert rest[1..][|rest| - 2] == rest[|rest| - 1]; }
  }

  // ------------------------------------------------- what the chain leaves

  /** Regions before `p` end there at the latest, and `rest` are the keys between `p` and `end`. */
  ghost predicate Front(u: Regions, p: int, end: int, rest: seq<int>) {
    && WfRegions(u) && p < end && rest != []
    && (forall k :: k in u && k < p ==> EndOf(u, k) <= p)
    && (forall k :: k in rest <==> k in u && p < k < end)
  }

  lemma LastOf(u: Regions, p: int, end: int, rest: seq<int>)
    requires Front(u, p, end, rest) && Ascending([p] + rest)
    ensures var last := rest[|rest| - 1]; IsLast(u, end, last) && p < last && last in rest
  {
    var last := rest[|rest| - 1];
    assert last in rest;
    forall j | j in u && j < end ensures j <= last {
      if p < j {
        assert j in rest;
        var i :| 0 <= i < |rest| && rest[i] == j;
        if i < |rest| - 1 { assert ([p] + rest)[i + 1] < ([p] + rest)[|rest|]; }
      }
    }
  }

  /** The regions stay sorted and apart. */
  lemma FilledWf(u: Regions, n: Regions, p: int, end: int, rest: seq<int>, so: Stored)
    requires Front(u, p, end, rest) && Ascending([p] + rest) && Filled(u, n, p, rest, so)
    ensures WfRegions(n)
  {
    LastOf(u, p, end, rest);
    forall j, k | j in n && k in n && j < k ensures EndOf(n, j) <= k {
      var last := rest[|rest| - 1];
      if j == p || (j in rest && j < last) {
        assert NextKey(rest, j, EndOf(n, j));
        if k < end {
          assert k in u && p < k;
        } else {
          assert EndOf(n, j) in rest;
        }
      } else if k == p {
        assert EndOf(u, j) <= p;
      } else {
        assert j in u && k in u;
      }
    }
  }

  /** Nothing else covers the filled part: a region of `n` at an offset from `p` on begins there. */
  lemma FilledCover(u: Regions, n: Regions, p: int, end: int, rest: seq<int>, so: Stored, k: int, off: int)
    requires Front(u, p, end, rest) && Ascending([p] + rest) && Filled(u, n, p, rest, so)
    requires Covers(n, k, off)
    ensures off < p ==> k < p && k in u && n[k] == u[k]
    ensures p <= off ==> p <= k
    ensures p <= off < rest[|rest| - 1] ==> n[k].objects == {so} && k < rest[|rest| - 1]
    ensures rest[|rest| - 1] <= off ==> k in u && n[k] == u[k]
  {
    LastOf(u, p, end, rest);
    var last := rest[|rest| - 1];
    if k == p || (k in rest && k < last) {
      assert NextKey(rest, k, EndOf(n, k));
      assert EndOf(n, k) <= last;
    } else {
      assert k in u && n[k] == u[k];
      if k < p { assert EndOf(u, k) <= p; }
      if p < k < end { assert k in rest; }
    }
  }

  lemma FilledUpdatesOnlyIf(u: Regions, n: Regions, p: int, end: int, rest: seq<int>, so: Stored, overwrite: bool)
    requires Front(u, p, end, rest) && Ascending([p] + rest) && Filled(u, n, p, rest, so)
    requires Updates(u, n, p, end, so, overwrite)
    ensures var last := rest[|rest| - 1];
            && end <= EndOf(u, last) && Settled(u, last, so, overwrite)
            && forall k :: k in u && p <= k < last ==> Absorbed(u, k, so, overwrite)
  {
    LastOf(u, p, end, rest);
    var last := rest[|rest| - 1];
    assert n[last] == u[last];
    LookupAt(n, last, last);
    LookupAt(u, last, last);
    if EndOf(u, last) < end { HoleAfterLast(u, n, p, end, rest, so, overwrite); }
    forall k | k in u && p <= k < last ensures Absorbed(u, k, so, overwrite) {
      FilledAbsorbed(u, n, p, end, rest, so, overwrite, k);
    }
  }

  lemma HoleAfterLast(u: Regions, n: Regions, p: int, end: int, rest: seq<int>, so: Stored, overwrite: bool)
    requires Front(u, p, end, rest) && Ascending([p] + rest) && Filled(u, n, p, rest, so)
    requires EndOf(u, rest[|rest| - 1]) < end
    ensures !Updates(u, n, p, end, so, overwrite)
  {
    LastOf(u, p, end, rest);
    var last := rest[|rest| - 1];
    var hole := EndOf(u, last);
    forall k ensures !Covers(n, k, hole) {
      if Covers(n, k, hole) {
        FilledCover(u, n, p, end, rest, so, k, hole);
        EndsBefore(u, k, last);
      }
    }
    UncoveredHole(u, n, hole, p, end, so, overwrite);
  }

  lemma FilledAbsorbed(u: Regions, n: Regions, p: int, end: int, rest: seq<int>, so: Stored, overwrite: bool, k: int)
    requires Front(u, p, end, rest) && Filled(u, n, p, rest, so) && rest[|rest| - 1] < end
    requires Updates(u, n, p, end, so, overwrite) && k in u && p <= k < rest[|rest| - 1]
    ensures Absorbed(u, k, so, overwrite)
  {
    if p < k { assert k in rest; }
    assert NextKey(rest, k, EndOf(n, k));
    LookupAt(n, k, k);
    LookupAt(u, k, k);
  }

  lemma FilledUpdatesIf(u: Regions, n: Regions, p: int, end: int, rest: seq<int>, so: Stored, overwrite: bool)
    requires Front(u, p, end, rest) && Ascending([p] + rest) && Filled(u, n, p, rest, so)
    requires end <= EndOf(u, rest[|rest| - 1]) && Settled(u, rest[|rest| - 1], so, overwrite)
    requires forall k :: k in u && p <= k < rest[|rest| - 1] ==> Absorbed(u, k, so, overwrite)
    ensures Updates(u, n, p, end, so, overwrite)
  {
    FilledWf(u, n, p, end, rest, so);
    forall off ensures Lookup(n, off) == if p <= off < end then Mark(Lookup(u, off), so, overwrite) else Lookup(u, off) {
      FilledLookup(u, n, p, end, rest, so, overwrite, off);
    }
  }

  lemma AscendingAt(all: seq<int>, i: nat, j: nat)
    requires Ascending(all) && i < |all| && j < |all|
    ensures i < j ==> all[i] < all[j]
  {
  }

  lemma EndsBefore(u: Regions, j: int, k: int)
    requires WfRegions(u) && j in u && k in u
    ensures j < k ==> EndOf(u, j) <= k
  {
  }

  /** The neighbouring keys around an offset. */
  lemma {:induction false} KeysAround(all: seq<int>, off: int) returns (i: nat)
    requires |all| > 1 && all[0] <= off < all[|all| - 1]
    ensures i < |all| - 1 && all[i] <= off < all[i + 1]
    decreases |all|
  {
    var n := |all| - 1;
    if all[n - 1] <= off {
      i := n - 1;
    } else {
      i := KeysAround(all[..n], off);
    }
  }

  lemma NextIs(p: int, rest: seq<int>, i: nat, next: int)
    requires Ascending([p] + rest) && i < |rest| && NextKey(rest, ([p] + rest)[i], next)
    ensures next == ([p] + rest)[i + 1]
  {
    var all := [p] + rest;
    var j :| 0 <= j < |rest| && rest[j] == next;
    assert all[j + 1] == next && all[i + 1] == rest[i] && rest[i] in rest;
    AscendingAt(all, i, i + 1);
    AscendingAt(all, j + 1, i);
    AscendingAt(all, i + 1, j + 1);
  }

  /** Some key from `p` on begins the filled region that covers an offset before the last key. */
  lemma FilledCovers(u: Regions, n: Regions, p: int, end: int, rest: seq<int>, so: Stored, off: int) returns (k: int)
    requires Front(u, p, end, rest) && Ascending([p] + rest) && Filled(u, n, p, rest, so)
    requires p <= off < rest[|rest| - 1]
    ensures Covers(n, k, off)
  {
    var all := [p] + rest;
    var i := KeysAround(all, off);
    k := all[i];
    if i > 0 { assert k == rest[i - 1] && k in rest; }
    assert NextKey(rest, k, EndOf(n, k));
    NextIs(p, rest, i, EndOf(n, k));
  }

  lemma FilledLookup(u: Regions, n: Regions, p: int, end: int, rest: seq<int>, so: Stored, overwrite: bool, off: int)
    requires Front(u, p, end, rest) && Ascending([p] + rest) && Filled(u, n, p, rest, so) && WfRegions(n)
    requires end <= EndOf(u, rest[|rest| - 1]) && Settled(u, rest[|rest| - 1], so, overwrite)
    requires forall k :: k in u && p <= k < rest[|rest| - 1] ==> Absorbed(u, k, so, overwrite)
    ensures Lookup(n, off) == if p <= off < end then Mark(Lookup(u, off), so, overwrite) else Lookup(u, off)
  {
    LastOf(u, p, end, rest);
    var last := rest[|rest| - 1];
    if p <= off < last {
      var k := FilledCovers(u, n, p, end, rest, so, off);
      FilledCover(u, n, p, end, rest, so, k, off);
      LookupAt(n, k, off);
      if j :| Covers(u, j, off) {
        LookupAt(u, j, off);
        assert p <= j;
      }
    } else {
      SameOutside(u, n, p, end, rest, so, off);
      if last <= off < end {
        assert Covers(u, last, off);
        LookupAt(u, last, off);
      }
    }
  }

  /** Before `p` and from the last key on nothing has changed. */
  lemma SameOutside(u: Regions, n: Regions, p: int, end: int, rest: seq<int>, so: Stored, off: int)
    requires Front(u, p, end, rest) && Ascending([p] + rest) && Filled(u, n, p, rest, so) && WfRegions(n)
    requires !(p <= off < rest[|rest| - 1])
    ensures Lookup(n, off) == Lookup(u, off)
  {
    LastOf(u, p, end, rest);
    if k :| Covers(u, k, off) {
      LookupAt(u, k, off);
      KeptRegion(u, n, p, end, rest, so, k, off);
      LookupAt(n, k, off);
    } else if k :| Covers(n, k, off) {
      FilledCover(u, n, p, end, rest, so, k, off);
      assert Covers(u, k, off);
    }
  }

  lemma KeptRegion(u: Regions, n: Regions, p: int, end: int, rest: seq<int>, so: Stored, k: int, off: int)
    requires Front(u, p, end, rest) && Ascending([p] + rest) && Filled(u, n, p, rest, so)
    requires Covers(u, k, off) && !(p <= off < rest[|rest| - 1])
    ensures n[k] == u[k]
  {
    LastOf(u, p, end, rest);
    var last := rest[|rest| - 1];
    EndsBefore(u, k, last);
  }

  // ------------------------------------------------- over several regions

  /** After an update before `p`, an update from `p` on makes one of both, and the other way round. */
  lemma UpdatesAfterIff(m: Regions, u: Regions, n: Regions, start: int, p: int, end: int, so: Stored, overwrite: bool)
    requires start <= p < end && (if start < p then Updates(m, u, start, p, so, overwrite) else m == u)
    ensures Updates(m, n, start, end, so, overwrite) <==> Updates(u, n, p, end, so, overwrite)
  {
    forall off ensures Lookup(u, off) == if start <= off < p then Mark(Lookup(m, off), so, overwrite) else Lookup(m, off) {}
    if Updates(m, n, start, end, so, overwrite) {
      forall off ensures Lookup(n, off) == if p <= off < end then Mark(Lookup(u, off), so, overwrite) else Lookup(u, off) {
        assert Lookup(u, off) == if start <= off < p then Mark(Lookup(m, off), so, overwrite) else Lookup(m, off);
      }
    }
    if Updates(u, n, p, end, so, overwrite) {
      forall off ensures Lookup(n, off) == if start <= off < end then Mark(Lookup(m, off), so, overwrite) else Lookup(m, off) {
        assert Lookup(u, off) == if start <= off < p then Mark(Lookup(m, off), so, overwrite) else Lookup(m, off);
      }
    }
  }

  /** The regions that the filling works on, and where it begins: the region before the range is cut and
      its tail marked, the region that the range begins with is filled over itself. */
  function Base(m: Regions, floor: int, start: int, so: Stored, overwrite: bool): Regions
    requires floor in m && floor <= start < EndOf(m, floor)
  {
    if floor < start then LeftCut(m, floor, start, so, overwrite) else m
  }

  function From(m: Regions, floor: int, start: int): int
    requires floor in m
  {
    if floor < start then EndOf(m, floor) else start
  }

  /** The keys that are filled up to: those after the first region, without one that is adjacent to it
      when the range begins inside the first. */
  function Chain(m: Regions, floor: int, start: int, rest: seq<int>): seq<int>
    requires floor in m
  {
    if floor < start && rest != [] && rest[0] == EndOf(m, floor) then rest[1..] else rest
  }

  lemma OneStep(m: Regions, start: int, end: int, floor: int, so: Stored, overwrite: bool)
    requires Covers(m, floor, start) && start < end && EndOf(m, floor) < end
    ensures var one := ScanStep(m, floor, start, end, so, overwrite, Scan(map[start := Region(end - start, {so})], start));
            && one.lastEnd == From(m, floor, start)
            && (floor < start ==> m + one.update == LeftCut(m, floor, start, so, overwrite))
            && (floor == start ==> m + one.update == m[start := one.update[start]] && start in one.update)
  {
  }

  /** What the scan over several regions leaves: the base filled along the chain. */
  lemma ChainScan(m: Regions, start: int, end: int, floor: int, keys: seq<int>, so: Stored, overwrite: bool)
    requires WfRegions(m) && Covers(m, floor, start) && start < end && EndOf(m, floor) < end
    requires Overlapping(m, start, end, floor, keys) && Chain(m, floor, start, keys[1..]) != []
    ensures var p, chain := From(m, floor, start), Chain(m, floor, start, keys[1..]);
            && Ascending([p] + chain)
            && StoreOver(m, floor, keys, start, end, so, overwrite) == Fill(Base(m, floor, start, so, overwrite), p, chain, so)
  {
    Rest(m, start, end, floor, keys);
    OverlappingScans(m, start, end, floor, keys);
    ChainAscends(m, start, end, floor, keys[1..]);
    ChainSteps(m, start, end, floor, keys[1..], so, overwrite);
  }

  lemma ChainSteps(m: Regions, start: int, end: int, floor: int, rest: seq<int>, so: Stored, overwrite: bool)
    requires WfRegions(m) && Covers(m, floor, start) && start < end && EndOf(m, floor) < end && Ascending(rest)
    requires forall i :: 0 <= i < |rest| ==> rest[i] in m && EndOf(m, floor) <= rest[i] < end
    requires Chain(m, floor, start, rest) != [] && Ascending([From(m, floor, start)] + Chain(m, floor, start, rest))
    ensures var one := ScanStep(m, floor, start, end, so, overwrite, Scan(map[start := Region(end - start, {so})], start));
            m + ScanAll(m, rest, start, end, so, overwrite, one).update
            == Fill(Base(m, floor, start, so, overwrite), From(m, floor, start), Chain(m, floor, start, rest), so)
  {
    OneStep(m, start, end, floor, so, overwrite);
    var one := ScanStep(m, floor, start, end, so, overwrite, Scan(map[start := Region(end - start, {so})], start));
    if Chain(m, floor, start, rest) == rest {
      ChainAll(m, start, end, floor, rest, so, overwrite, one);
    } else {
      ChainTail(m, start, end, floor, rest, so, overwrite, one);
    }
  }

  lemma ChainAscends(m: Regions, start: int, end: int, floor: int, rest: seq<int>)
    requires WfRegions(m) && Covers(m, floor, start) && Ascending(rest)
    requires forall i :: 0 <= i < |rest| ==> rest[i] in m && EndOf(m, floor) <= rest[i] < end
    ensures Ascending([From(m, floor, start)] + Chain(m, floor, start, rest))
  {
    var p, chain := From(m, floor, start), Chain(m, floor, start, rest);
    forall i | 0 <= i < |chain| ensures p < chain[i] {
      if chain != rest { assert chain[i] == rest[i + 1] && rest[0] < rest[i + 1]; }
      else if floor < start { assert rest[0] != EndOf(m, floor) && (i > 0 ==> rest[0] < rest[i]); }
    }
    var all := [p] + chain;
    forall i, j | 0 <= i < j < |all| ensures all[i] < all[j] {
      if chain != rest && i > 0 { assert all[i] == rest[i] && all[j] == rest[j]; }
    }
  }

  lemma ChainAll(m: Regions, start: int, end: int, floor: int, rest: seq<int>, so: Stored, overwrite: bool, one: Scan)
    requires WfRegions(m) && Covers(m, floor, start) && rest != [] && one.lastEnd == From(m, floor, start)
    requires forall i :: 0 <= i < |rest| ==> rest[i] in m && start <= rest[i] < end
    requires Ascending([one.lastEnd] + rest)
    requires floor < start ==> m + one.update == LeftCut(m, floor, start, so, overwrite)
    requires floor == start ==> start in one.update && m + one.update == m[start := one.update[start]]
    ensures m + ScanAll(m, rest, start, end, so, overwrite, one).update == Fill(Base(m, floor, start, so, overwrite), one.lastEnd, rest, so)
  {
    GapScan(m, rest, start, end, so, overwrite, one);
    FillOver(m, one.update, one.lastEnd, rest, so);
    if floor == start { FillForgets(m, start, one.update[start], rest, so); }
  }

  lemma ChainTail(m: Regions, start: int, end: int, floor: int, rest: seq<int>, so: Stored, overwrite: bool, one: Scan)
    requires WfRegions(m) && Covers(m, floor, start) && floor < start && |rest| > 1 && rest[0] == EndOf(m, floor) == one.lastEnd
    requires forall i :: 0 <= i < |rest| ==> rest[i] in m && start <= rest[i] < end
    requires Ascending(rest) && Ascending([one.lastEnd] + rest[1..])
    requires m + one.update == LeftCut(m, floor, start, so, overwrite)
    ensures m + ScanAll(m, rest, start, end, so, overwrite, one).update
         == Fill(LeftCut(m, floor, start, so, overwrite), one.lastEnd, rest[1..], so)
  {
    var p := one.lastEnd;
    assert EndOf(m, p) <= rest[1] < end;
    var two := ScanStep(m, p, start, end, so, overwrite, one);
    var r := Region(m[p].size, Mark(m[p].objects, so, overwrite));
    assert two == Scan(one.update[p := r], p);
    GapScan(m, rest[1..], start, end, so, overwrite, two);
    FillOver(m, two.update, p, rest[1..], so);
    assert m + two.update == LeftCut(m, floor, start, so, overwrite)[p := r];
    FillForgets(LeftCut(m, floor, start, so, overwrite), p, r, rest[1..], so);
  }

  lemma ChainFront(m: Regions, start: int, end: int, floor: int, keys: seq<int>, so: Stored, overwrite: bool)
    requires WfRegions(m) && Covers(m, floor, start) && start < end && EndOf(m, floor) < end
    requires Overlapping(m, start, end, floor, keys) && Chain(m, floor, start, keys[1..]) != []
    ensures Front(Base(m, floor, start, so, overwrite), From(m, floor, start), end, Chain(m, floor, start, keys[1..]))
  {
    Rest(m, start, end, floor, keys);
    ChainKeys(m, start, end, floor, keys[1..]);
    BaseFront(m, start, end, floor, so, overwrite);
  }

  /** The base: well-formed, apart at the point from which it is filled, with the same keys after it. */
  lemma BaseFront(m: Regions, start: int, end: int, floor: int, so: Stored, overwrite: bool)
    requires WfRegions(m) && Covers(m, floor, start) && start < end && EndOf(m, floor) < end
    ensures var u, p := Base(m, floor, start, so, overwrite), From(m, floor, start);
            && WfRegions(u) && (forall k :: k in u && k < p ==> EndOf(u, k) <= p)
            && (forall k :: p < k ==> (k in u <==> k in m))
  {
    if floor < start { LeftCutUpdates(m, floor, start, so, overwrite); }
    var u, p := Base(m, floor, start, so, overwrite), From(m, floor, start);
    forall k | k in u && k < p ensures EndOf(u, k) <= p {
      if k in m { EndsBefore(m, k, floor); EndsBefore(m, floor, k); }
    }
  }

  lemma ChainKeys(m: Regions, start: int, end: int, floor: int, rest: seq<int>)
    requires WfRegions(m) && Covers(m, floor, start) && start < end && Ascending(rest)
    requires forall k :: k in rest <==> k in m && start <= k < end && k != floor
    requires forall i :: 0 <= i < |rest| ==> rest[i] in m && EndOf(m, floor) <= rest[i] < end
    ensures forall k :: k in Chain(m, floor, start, rest) <==> k in m && From(m, floor, start) < k < end
  {
    var p, chain := From(m, floor, start), Chain(m, floor, start, rest);
    forall k ensures k in chain <==> k in m && p < k < end {
      if k in rest {
        var i :| 0 <= i < |rest| && rest[i] == k;
        if i > 0 { assert rest[0] < rest[i]; assert rest[1..][i - 1] == k; }
      }
      if k in chain && chain != rest {
        var i :| 0 <= i < |chain| && chain[i] == k;
        assert rest[i + 1] == k && rest[0] < rest[i + 1];
      }
      if k in m && p < k < end { assert k in rest; }
    }
  }

  lemma ChainedIff(m: Regions, start: int, end: int, floor: int, keys: seq<int>, so: Stored, overwrite: bool)
    requires WfRegions(m) && Covers(m, floor, start) && start < end && EndOf(m, floor) < end
    requires Overlapping(m, start, end, floor, keys) && Chain(m, floor, start, keys[1..]) != []
    ensures Updates(m, StoreOver(m, floor, keys, start, end, so, overwrite), start, end, so, overwrite)
       <==> Chained(m, floor, start, end, so, overwrite)
  {
    var u, p, chain := Base(m, floor, start, so, overwrite), From(m, floor, start), Chain(m, floor, start, keys[1..]);
    ChainScan(m, start, end, floor, keys, so, overwrite);
    var n := Fill(u, p, chain, so);
    ChainFront(m, start, end, floor, keys, so, overwrite);
    FillFills(u, p, chain, so);
    if floor < start { LeftCutUpdates(m, floor, start, so, overwrite); }
    UpdatesAfterIff(m, u, n, start, p, end, so, overwrite);
    FilledIff(m, n, start, end, floor, chain, so, overwrite);
  }

  lemma FilledIff(m: Regions, n: Regions, start: int, end: int, floor: int, chain: seq<int>, so: Stored, overwrite: bool)
    requires WfRegions(m) && Covers(m, floor, start) && start < end && EndOf(m, floor) < end
    requires Ascending([From(m, floor, start)] + chain)
    requires Front(Base(m, floor, start, so, overwrite), From(m, floor, start), end, chain)
    requires Filled(Base(m, floor, start, so, overwrite), n, From(m, floor, start), chain, so)
    ensures Updates(Base(m, floor, start, so, overwrite), n, From(m, floor, start), end, so, overwrite)
       <==> Chained(m, floor, start, end, so, overwrite)
  {
    var u, p, last := Base(m, floor, start, so, overwrite), From(m, floor, start), chain[|chain| - 1];
    LastOf(u, p, end, chain);
    ChainedToIff(m, start, end, floor, so, overwrite, last);
    if Updates(u, n, p, end, so, overwrite) { FilledUpdatesOnlyIf(u, n, p, end, chain, so, overwrite); }
    if Chained(m, floor, start, end, so, overwrite) { FilledUpdatesIf(u, n, p, end, chain, so, overwrite); }
  }

  /** The chain on the given regions is a chain on what is filled. */
  lemma ChainedToIff(m: Regions, start: int, end: int, floor: int, so: Stored, overwrite: bool, last: int)
    requires WfRegions(m) && Covers(m, floor, start) && start < end && EndOf(m, floor) < end
    requires IsLast(Base(m, floor, start, so, overwrite), end, last) && From(m, floor, start) < last
    ensures var u, p := Base(m, floor, start, so, overwrite), From(m, floor, start);
            Chained(m, floor, start, end, so, overwrite)
            <==> (&& end <= EndOf(u, last) && Settled(u, last, so, overwrite)
                  && forall k :: k in u && p <= k < last ==> Absorbed(u, k, so, overwrite))
  {
    SameLater(m, start, end, floor, so, overwrite, last);
    var u, p := Base(m, floor, start, so, overwrite), From(m, floor, start);
    if Chained(m, floor, start, end, so, overwrite) {
      var other :| ChainedTo(m, floor, start, end, so, overwrite, other);
      assert other == last;
    }
    if && end <= EndOf(u, last) && Settled(u, last, so, overwrite)
       && forall k :: k in u && p <= k < last ==> Absorbed(u, k, so, overwrite) {
      assert ChainedTo(m, floor, start, end, so, overwrite, last);
    }
  }

  /** From where the filling begins the base is the given regions. */
  lemma SameLater(m: Regions, start: int, end: int, floor: int, so: Stored, overwrite: bool, last: int)
    requires WfRegions(m) && Covers(m, floor, start) && start < end && EndOf(m, floor) < end
    requires IsLast(Base(m, floor, start, so, overwrite), end, last) && From(m, floor, start) < last
    ensures var u, p := Base(m, floor, start, so, overwrite), From(m, floor, start);
            && (forall k :: k in u && p <= k <==> k in m && start <= k && (floor < start ==> EndOf(m, floor) <= k))
            && (forall k :: k in m && p <= k ==> u[k] == m[k])
            && (forall k :: k in m && start <= k ==> p <= k)
            && IsLast(m, end, last) && floor < last
  {
    forall k | k in m && start <= k ensures From(m, floor, start) <= k {
      EndsBefore(m, floor, k);
    }
  }

  /** Storing over existing regions, with any object: a pointwise update if and only if the range is
      aligned with the regions, lies inside a settled one, or runs over a chain. */
  lemma StoreOverIff(m: Regions, start: int, end: int, floor: int, keys: seq<int>, so: Stored, overwrite: bool)
    requires WfRegions(m) && Covers(m, floor, start) && start < end
    requires Overlapping(m, start, end, floor, keys)
    ensures Updates(m, StoreOver(m, floor, keys, start, end, so, overwrite), start, end, so, overwrite)
       <==> Exact(m, floor, start, end, so, overwrite)
  {
    var e := EndOf(m, floor);
    if e == end || (floor == start && end < e) {
      InsideOneRegion(m, start, end, floor, keys, so, overwrite);
    } else if end < e {
      InteriorIff(m, start, end, floor, keys, so, overwrite);
    } else if Aligned(m, floor, start, end) {
      AcrossTwoRegions(m, start, end, floor, keys, so, overwrite);
    } else if Chain(m, floor, start, keys[1..]) != [] {
      ChainedIff(m, start, end, floor, keys, so, overwrite);
    } else {
      NoChain(m, start, end, floor, keys, so, overwrite);
    }
  }

  /** Nothing to fill up to: the range ends in a hole. */
  lemma NoChain(m: Regions, start: int, end: int, floor: int, keys: seq<int>, so: Stored, overwrite: bool)
    requires WfRegions(m) && Covers(m, floor, start) && start < end && EndOf(m, floor) < end
    requires Overlapping(m, start, end, floor, keys) && Chain(m, floor, start, keys[1..]) == []
    requires !Aligned(m, floor, start, end)
    ensures !Updates(m, StoreOver(m, floor, keys, start, end, so, overwrite), start, end, so, overwrite)
    ensures !Chained(m, floor, start, end, so, overwrite)
  {
    Rest(m, start, end, floor, keys);
    OverlappingScans(m, start, end, floor, keys);
    NoChainKeys(m, start, end, floor, keys[1..], so, overwrite);
    NoChainHole(m, start, end, floor, keys[1..], so, overwrite);
  }

  lemma NoChainKeys(m: Regions, start: int, end: int, floor: int, rest: seq<int>, so: Stored, overwrite: bool)
    requires WfRegions(m) && Covers(m, floor, start) && start < end && EndOf(m, floor) < end
    requires forall k :: k in rest <==> k in m && start <= k < end && k != floor
    requires Chain(m, floor, start, rest) == [] && !Aligned(m, floor, start, end)
    ensures !Chained(m, floor, start, end, so, overwrite)
    ensures rest == [] || (floor < start && rest == [EndOf(m, floor)] && EndOf(m, EndOf(m, floor)) < end)
  {
    assert rest == [] || rest == [rest[0]];
    if rest != [] { assert rest[0] in rest; }
    forall last | IsLast(m, end, last) && floor < last ensures last in rest {
      EndsBefore(m, floor, last);
    }
  }

  lemma NoChainHole(m: Regions, start: int, end: int, floor: int, rest: seq<int>, so: Stored, overwrite: bool)
    requires WfRegions(m) && Covers(m, floor, start) && start < end && EndOf(m, floor) < end
    requires forall k :: k in rest <==> k in m && start <= k < end && k != floor
    requires rest == [] || (floor < start && rest == [EndOf(m, floor)] && EndOf(m, EndOf(m, floor)) < end)
    ensures var one := ScanStep(m, floor, start, end, so, overwrite, Scan(map[start := Region(end - start, {so})], start));
            !Updates(m, m + ScanAll(m, rest, start, end, so, overwrite, one).update, start, end, so, overwrite)
  {
    FirstStep(m, start, end, floor, so, overwrite);
    var one := ScanStep(m, floor, start, end, so, overwrite, Scan(map[start := Region(end - start, {so})], start));
    var n := m + ScanAll(m, rest, start, end, so, overwrite, one).update;
    if rest == [] {
      HoleAfterFirst(m, start, end, floor, so, overwrite, one, n);
    } else {
      assert EndOf(m, floor) in rest;
      SecondHole(m, start, end, floor, so, overwrite, one, n);
    }
  }

  lemma SecondHole(m: Regions, start: int, end: int, floor: int, so: Stored, overwrite: bool, one: Scan, n: Regions)
    requires WfRegions(m) && Covers(m, floor, start) && floor < start < end && EndOf(m, floor) == one.lastEnd < end
    requires EndOf(m, floor) in m && EndOf(m, EndOf(m, floor)) < end
    requires forall k :: k in m && start <= k < end && k != floor ==> k == EndOf(m, floor)
    requires one.update.Keys == {start, floor}
    requires one.update[start].size == EndOf(m, floor) - start && one.update[floor].size == start - floor
    requires n == m + ScanAll(m, [EndOf(m, floor)], start, end, so, overwrite, one).update
    ensures !Updates(m, n, start, end, so, overwrite)
  {
    var mid := EndOf(m, floor);
    ScanOne(m, mid, start, end, so, overwrite, one);
    var two := ScanStep(m, mid, start, end, so, overwrite, one);
    assert n == m + two.update;
    forall k ensures !Covers(n, k, EndOf(m, mid)) {
      if k in m { EndsBefore(m, k, mid); EndsBefore(m, mid, k); }
    }
    UncoveredHole(m, n, EndOf(m, mid), start, end, so, overwrite);
  }

  // ------------------------------------------------- new objects

  /** For an object that no region holds, alignment is the whole condition. */
  lemma StoreOverExact(m: Regions, start: int, end: int, floor: int, keys: seq<int>, so: Stored, overwrite: bool)
    requires WfRegions(m) && Covers(m, floor, start) && start < end
    requires Overlapping(m, start, end, floor, keys)
    ensures Aligned(m, floor, start, end) ==>
              Updates(m, StoreOver(m, floor, keys, start, end, so, overwrite), start, end, so, overwrite)
    ensures Fresh(m, so) && !Aligned(m, floor, start, end) ==>
              !Updates(m, StoreOver(m, floor, keys, start, end, so, overwrite), start, end, so, overwrite)
  {
    StoreOverIff(m, start, end, floor, keys, so, overwrite);
    if Fresh(m, so) { FreshExactIsAligned(m, floor, start, end, so, overwrite); }
  }
}
