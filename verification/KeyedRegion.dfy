/** `KeyedRegion` and `RegionObject` as the mutable objects they are. */
module KeyedRegion {
  import opened Wrappers
  import opened RegionMap
  import opened RegionRuns

  function Names(s: set<Stored>): set<int> { set o | o in s :: o.obj }

  class RegionObject {
    var start: int
    var size: nat
    var stored: set<Stored>
    var internal: set<int>

    ghost predicate Valid()
      reads this
    {
      internal == Names(stored)
    }

    constructor (start: int, size: nat, objects: set<Stored>)
      ensures Valid() && this.start == start && this.size == size && stored == objects
    {
      this.start, this.size, this.stored := start, size, objects;
      this.internal := Names(objects);
    }

    method AddObject(so: Stored)
      requires Valid()
      modifies this`stored, this`internal
      ensures Valid() && stored == old(stored) + {so}
    {
      if so in stored {
        stored := stored - {so};
      }
      stored := stored + {so};
      internal := internal + {so.obj};
    }

    method SetObject(so: Stored)
      modifies this`stored, this`internal
      ensures Valid() && stored == {so}
    {
      stored, internal := {}, {};
      AddObject(so);
    }

    method MarkObject(so: Stored, overwrite: bool)
      requires Valid()
      modifies this`stored, this`internal
      ensures Valid() && stored == Mark(old(stored), so, overwrite)
    {
      if overwrite { SetObject(so); } else { AddObject(so); }
    }

    /** Two new regions with the same objects; this one is left alone. */
    method Split(at: int) returns (a: RegionObject, b: RegionObject)
      requires Valid() && start <= at < start + size
      ensures fresh(a) && fresh(b) && a != b && a.Valid() && b.Valid()
      ensures a.start == start && a.size == at - start && a.stored == stored
      ensures b.start == at && b.size == start + size - at && b.stored == stored
    {
      a := new RegionObject(start, at - start, stored);
      b := new RegionObject(at, start + size - at, stored);
    }

    method Copy() returns (c: RegionObject)
      requires Valid()
      ensures fresh(c) && c.Valid() && c.start == start && c.size == size && c.stored == stored
    {
      c := new RegionObject(start, size, stored);
    }
  }

  /** Keys name their region's start, and no two keys share a region object. */
  ghost predicate Own(m: map<int, RegionObject>)
    reads set k | k in m :: m[k]
  {
    && (forall k :: k in m ==> m[k].Valid() && m[k].start == k)
    && (forall j, k :: j in m && k in m && j != k ==> m[j] != m[k])
  }

  ghost function ViewOf(m: map<int, RegionObject>): Regions
    reads set k | k in m :: m[k]
  {
    map k | k in m :: Region(m[k].size, m[k].stored)
  }

  lemma Inhabited(s: set<int>)
    requires s != {}
    ensures exists x :: x in s
  {
    assert (forall x :: x !in s) ==> s == {};
  }

  method Least(s: set<int>) returns (x: int)
    requires s != {}
    ensures x in s && forall y :: y in s ==> x <= y
  {
    Inhabited(s);
    x :| x in s;
    var todo := s - {x};
    while todo != {}
      invariant x in s && todo <= s && forall y :: y in s && y !in todo ==> x <= y
    {
      Inhabited(todo);
      var y :| y in todo;
      if y < x { x := y; }
      todo := todo - {y};
    }
  }

  /** `irange`: the keys of a range in increasing order. */
  method KeysBetween(keys: set<int>, lo: int, hi: int) returns (ks: seq<int>)
    ensures Ascending(ks)
    ensures forall k :: k in ks <==> k in keys && lo <= k < hi
  {
    ks := [];
    var todo := set k | k in keys && lo <= k < hi;
    while todo != {}
      invariant todo <= keys && Ascending(ks)
      invariant forall k :: k in keys && lo <= k < hi <==> k in ks || k in todo
      invariant forall i, t :: 0 <= i < |ks| && t in todo ==> ks[i] < t
    {
      var k := Least(todo);
      ks := ks + [k];
      todo := todo - {k};
    }
  }


  /** Placing one more region object in a map of them. */
  lemma PutRegion(m: map<int, RegionObject>, k: int, r: RegionObject)
    requires Own(m) && r.Valid() && r.start == k && forall j :: j in m && j != k ==> m[j] != r
    ensures Own(m[k := r]) && ViewOf(m[k := r]) == ViewOf(m)[k := Region(r.size, r.stored)]
  {
  }

  class KeyedRegion {
    const canonicalSize: nat
    var storage: map<int, RegionObject>
    ghost var repr: set<RegionObject>

    ghost predicate Valid()
      reads this, repr
    {
      (forall k :: k in storage ==> storage[k] in repr) && Own(storage)
    }

    ghost function View(): Regions
      requires Valid()
      reads this, repr
    {
      ViewOf(storage)
    }

    constructor (canonicalSize: nat)
      ensures Valid() && View() == map[] && storage == map[] && repr == {} && this.canonicalSize == canonicalSize
    {
      storage, repr, this.canonicalSize := map[], {}, canonicalSize;
    }

    /** `_canonicalize_size`: an unknown size counts as the canonical one. */
    function Width(size: Option<nat>): nat { if size.Some? then size.value else canonicalSize }

    /** `_get_container`: the region at the greatest key not above the offset, if it reaches it. */
    method GetContainer(offset: int) returns (key: Option<int>)
      requires Valid() && WfRegions(View())
      ensures key.Some? ==> Covers(View(), key.value, offset) && Lookup(View(), offset) == storage[key.value].stored
      ensures key.None? ==> (forall k :: !Covers(View(), k, offset)) && Lookup(View(), offset) == {}
    {
      var below := set k | k in storage && k <= offset;
      if below == {} {
        forall k ensures !Covers(View(), k, offset) { assert k in View() && k <= offset ==> k in below; }
        return None;
      }
      var base := Greatest(below);
      ghost var m := View();
      assert IsFloor(m, offset, base) by {
        forall j | j in m && j <= offset ensures j <= base { assert j in below; }
      }
      FloorAgreesWithScan(m, offset, base);
      if offset < base + storage[base].size {
        assert Covers(m, base, offset);
        key := Some(base);
      } else {
        assert !Covers(m, base, offset);
        key := None;
      }
    }

    /** `get_objects_by_offset`. */
    method ObjectsAt(offset: int) returns (objects: set<int>)
      requires Valid() && WfRegions(View())
      ensures objects == Names(Lookup(View(), offset))
    {
      var key := GetContainer(offset);
      if key.Some? {
        assert storage[key.value].Valid();
        objects := storage[key.value].internal;
      } else {
        objects := {};
      }
    }

    /** `__store`: gap, perfect overlap, or the scan over all overlapping regions.  By `StoresIff` the
        result is a pointwise union (or replacement) on the range if and only if the range is exact
        for the object. */
    method StoreObject(start: int, size: Option<nat>, so: Stored, overwrite: bool)
      requires Valid() && WfRegions(View()) && Width(size) > 0
      modifies this, repr
      ensures Valid() && fresh(repr - old(repr))
      ensures View() == Stores(old(View()), start, start + Width(size), so, overwrite)
    {
      var end := start + Width(size);
      StoreRange(start, end, so, overwrite);
    }

    method StoreRange(start: int, end: int, so: Stored, overwrite: bool)
      requires Valid() && WfRegions(View()) && start < end
      modifies this, repr
      ensures Valid() && fresh(repr - old(repr))
      ensures View() == Stores(old(View()), start, end, so, overwrite)
    {
      var floor := GetContainer(start);
      if floor.None? {
        StoresFresh(View(), start, end, so, overwrite);
        InsertRegion(start, end - start, so);
      } else {
        StoreAtFloor(floor.value, start, end, so, overwrite);
      }
    }

    method StoreAtFloor(f: int, start: int, end: int, so: Stored, overwrite: bool)
      requires Valid() && WfRegions(View()) && start < end && Covers(View(), f, start)
      modifies this, repr
      ensures Valid() && fresh(repr - old(repr))
      ensures View() == Stores(old(View()), start, end, so, overwrite)
    {
      var keys := OverlapKeys(f, start, end);
      StoresOver(View(), start, end, f, keys, so, overwrite);
      StoreOverlapping(f, keys, start, end, so, overwrite);
    }

    method StoreOverlapping(f: int, keys: seq<int>, start: int, end: int, so: Stored, overwrite: bool)
      requires Valid() && WfRegions(View()) && start < end
      requires Covers(View(), f, start) && Overlapping(View(), start, end, f, keys)
      modifies this, repr
      ensures Valid() && fresh(repr - old(repr))
      ensures View() == StoreOver(old(View()), f, keys, start, end, so, overwrite)
    {
      if f == start && f + storage[f].size == end {
        MarkRegion(f, so, overwrite);
      } else {
        OverlappingScans(View(), start, end, f, keys);
        ScanRegions(keys, start, end, so, overwrite);
      }
    }

    method OverlapKeys(f: int, start: int, end: int) returns (keys: seq<int>)
      requires Valid() && Covers(View(), f, start) && start < end
      ensures Overlapping(View(), start, end, f, keys)
    {
      keys := KeysBetween(storage.Keys, start, end);
      if f !in keys {
        forall i | 0 <= i < |keys| ensures f < keys[i] { assert keys[i] in keys; }
        keys := [f] + keys;
      }
    }

    method InsertRegion(start: int, size: nat, so: Stored)
      requires Valid() && size > 0
      modifies this
      ensures Valid() && View() == StoreFresh(old(View()), start, start + size, so)
      ensures fresh(repr - old(repr))
    {
      var region := new RegionObject(start, size, {so});
      PutRegion(storage, start, region);
      storage := storage[start := region];
      repr := repr + {region};
    }

    method MarkRegion(f: int, so: Stored, overwrite: bool)
      requires Valid() && f in storage
      modifies storage[f]
      ensures Valid() && storage == old(storage) && repr == old(repr)
      ensures View() == old(View())[f := Region(old(storage[f].size), Mark(old(storage[f].stored), so, overwrite))]
    {
      assert forall k :: k in storage && k != f ==> storage[k] != storage[f];
      storage[f].MarkObject(so, overwrite);
      assert forall k :: k in storage && k != f ==> View()[k] == old(View())[k];
    }

    /** Collected regions are new, or the region stored under the same key. */
    ghost predicate Linked(update: map<int, RegionObject>)
      reads this
    {
      forall j, k :: j in update && k in storage && update[j] == storage[k] ==> j == k
    }

    /** Splits the region at `k` and marks its head or its tail. */
    method SplitItem(k: int, at: int, head: bool, so: Stored, overwrite: bool, update: map<int, RegionObject>)
      returns (update': map<int, RegionObject>)
      requires Valid() && Own(update) && k in storage && k < at < k + storage[k].size
      ensures Own(update') && update'.Keys == update.Keys + {k, at} && fresh(update'[k]) && fresh(update'[at])
      ensures forall j :: j in update && j != k && j != at ==> update'[j] == update[j]
      ensures ViewOf(update') == ViewOf(update)
                [k := Region(at - k, if head then Mark(storage[k].stored, so, overwrite) else storage[k].stored)]
                [at := Region(k + storage[k].size - at, if head then storage[k].stored else Mark(storage[k].stored, so, overwrite))]
    {
      var a, b := storage[k].Split(at);
      if head { a.MarkObject(so, overwrite); } else { b.MarkObject(so, overwrite); }
      PutRegion(update, k, a);
      PutRegion(update[k := a], at, b);
      update' := update[k := a][at := b];
    }

    method FillGap(at: int, size: nat, so: Stored, update: map<int, RegionObject>) returns (update': map<int, RegionObject>)
      requires Own(update)
      ensures Own(update') && update'.Keys == update.Keys + {at} && fresh(update'[at])
      ensures forall j :: j in update && j != at ==> update'[j] == update[j]
      ensures ViewOf(update') == ViewOf(update)[at := Region(size, {so})]
    {
      var gap := new RegionObject(at, size, {so});
      PutRegion(update, at, gap);
      update' := update[at := gap];
    }

    method MarkItem(k: int, so: Stored, overwrite: bool, update: map<int, RegionObject>)
      returns (update': map<int, RegionObject>)
      requires Valid() && Own(update) && k in storage && forall j :: j in update ==> update[j] != storage[k]
      modifies storage[k]
      ensures Own(storage) && Own(update') && update' == update[k := storage[k]] && storage[k].size == old(storage[k].size)
      ensures ViewOf(update') == old(ViewOf(update))[k := Region(storage[k].size, Mark(old(storage[k].stored), so, overwrite))]
    {
      assert forall j :: j in storage && j != k ==> storage[j] != storage[k];
      storage[k].MarkObject(so, overwrite);
      PutRegion(update, k, storage[k]);
      update' := update[k := storage[k]];
    }

    /** One region of the slow path, with what it adds to the collection. */
    method ScanItem(k: int, start: int, end: int, so: Stored, overwrite: bool, update: map<int, RegionObject>, lastEnd: int)
      returns (update': map<int, RegionObject>, lastEnd': int)
      requires Valid() && Own(update) && Linked(update) && k in storage && k < end
      requires k < start ==> start < k + storage[k].size
      requires forall j :: j in update ==> update[j] != storage[k]
      modifies storage[k]
      ensures Own(storage) && Own(update') && Linked(update') && storage[k].size == old(storage[k].size)
      ensures forall j :: j in update' ==>
                fresh(update'[j]) || (j in update && update'[j] == update[j]) || (j == k && update'[j] == storage[k])
      ensures update.Keys <= update'.Keys
      ensures k !in update' ==> storage[k].stored == old(storage[k].stored)
      ensures Scan(ViewOf(update'), lastEnd') ==
              ScanStep(old(View()), k, start, end, so, overwrite, Scan(old(ViewOf(update)), lastEnd))
    {
      ghost var step := ScanStep(View(), k, start, end, so, overwrite, Scan(ViewOf(update), lastEnd));
      var itemEnd := storage[k].start + storage[k].size;
      if k < start {
        update' := SplitItem(k, start, false, so, overwrite, update);
        lastEnd' := itemEnd;
      } else if k > lastEnd {
        update' := FillGap(lastEnd, k - lastEnd, so, update);
        lastEnd' := k;
      } else if itemEnd > end {
        update' := SplitItem(k, end, true, so, overwrite, update);
        lastEnd' := itemEnd;
      } else {
        update' := MarkItem(k, so, overwrite, update);
        lastEnd' := lastEnd;
      }
      assert Scan(ViewOf(update'), lastEnd') == step;
    }

    /** With `keys` still to come: collected regions are new or already visited, and whatever is not
        collected or not yet visited is as it was in `m`. */
    ghost predicate Collecting(m: Regions, keys: seq<int>, update: map<int, RegionObject>)
      reads this, repr, set k | k in update :: update[k]
    {
      && Valid() && View().Keys == m.Keys && Own(update) && Linked(update)
      && (forall k :: k in storage && k !in update ==> View()[k] == m[k])
      && (forall j :: 0 <= j < |keys| ==> keys[j] in m && View()[keys[j]] == m[keys[j]])
      && (forall k, j :: k in update && 0 <= j < |keys| ==> update[k] != storage[keys[j]])
    }

    method CollectOne(ghost m: Regions, ghost keys: seq<int>, k: int, start: int, end: int, so: Stored, overwrite: bool,
                      update: map<int, RegionObject>, lastEnd: int)
      returns (update': map<int, RegionObject>, lastEnd': int)
      requires Collecting(m, keys, update) && keys != [] && keys[0] == k && Ascending(keys) && ScanKeys(m, keys, start, end)
      modifies storage[k]
      ensures Collecting(m, keys[1..], update')
      ensures forall j :: j in update' ==> fresh(update'[j]) || (j in update && update'[j] == update[j]) || update'[j] in repr
      ensures Scan(ViewOf(update'), lastEnd') == ScanStep(m, k, start, end, so, overwrite, Scan(old(ViewOf(update)), lastEnd))
    {
      assert forall j :: 0 < j < |keys| ==> keys[j] != k && storage[keys[j]] != storage[k];
      assert forall j :: j in storage && j != k ==> storage[j] != storage[k];
      SameStep(m, View(), k, start, end, so, overwrite, Scan(ViewOf(update), lastEnd));
      ghost var was := View();
      update', lastEnd' := ScanItem(k, start, end, so, overwrite, update, lastEnd);
      assert forall j :: j in storage && j != k ==> View()[j] == was[j];
    }

    /** The loop of the slow path: every overlapping region in turn. */
    method CollectRegions(keys: seq<int>, start: int, end: int, so: Stored, overwrite: bool,
                          first: map<int, RegionObject>, ghost made0: set<RegionObject>)
      returns (update: map<int, RegionObject>, ghost made: set<RegionObject>)
      requires Valid() && Ascending(keys) && Collecting(View(), keys, first) && ScanKeys(View(), keys, start, end)
      requires forall k :: k in first ==> first[k] in made0
      modifies repr
      ensures Collecting(old(View()), [], update) && made0 <= made && fresh(made - made0)
      ensures forall k :: k in update ==> update[k] in made || update[k] in repr
      ensures ViewOf(update) == ScanAll(old(View()), keys, start, end, so, overwrite, Scan(old(ViewOf(first)), start)).update
    {
      ghost var m := View();
      var lastEnd := start;
      update, made := first, made0;
      ghost var goal := ScanAll(m, keys, start, end, so, overwrite, Scan(ViewOf(update), lastEnd));
      ghost var rest := keys;
      for i := 0 to |keys|
        invariant rest == keys[i..] && Ascending(rest) && ScanKeys(m, rest, start, end)
        invariant Collecting(m, rest, update)
        invariant made0 <= made && fresh(made - made0) && forall k :: k in update ==> update[k] in made || update[k] in repr
        invariant ScanAll(m, rest, start, end, so, overwrite, Scan(ViewOf(update), lastEnd)) == goal
      {
        RestStep(m, rest, start, end, so, overwrite, Scan(ViewOf(update), lastEnd));
        update, lastEnd := CollectOne(m, rest, keys[i], start, end, so, overwrite, update, lastEnd);
        made := made + set j | j in update && fresh(update[j]) :: update[j];
        rest := rest[1..];
      }
    }

    /** The slow path: collects split, filled and marked regions, then stores them all. */
    method ScanRegions(keys: seq<int>, start: int, end: int, so: Stored, overwrite: bool)
      requires Valid() && start < end && Ascending(keys)
      requires ScanKeys(View(), keys, start, end)
      modifies this, repr
      ensures Valid() && fresh(repr - old(repr))
      ensures View() == old(View()) +
        ScanAll(old(View()), keys, start, end, so, overwrite, Scan(map[start := Region(end - start, {so})], start)).update
    {
      ghost var m := View();
      var first := FirstRegion(keys, start, end, so);
      var update, made := CollectRegions(keys, start, end, so, overwrite, first, {first[start]});
      AdoptAll(m, update, made);
    }

    /** The collection starts with the new region. */
    method FirstRegion(ghost keys: seq<int>, start: int, end: int, so: Stored) returns (first: map<int, RegionObject>)
      requires Valid() && start < end && ScanKeys(View(), keys, start, end)
      ensures first.Keys == {start} && fresh(first[start])
      ensures Collecting(View(), keys, first) && ViewOf(first) == map[start := Region(end - start, {so})]
    {
      first := FillGap(start, end - start, so, map[]);
    }

    method AdoptAll(ghost m: Regions, update: map<int, RegionObject>, ghost made: set<RegionObject>)
      requires Collecting(m, [], update) && forall k :: k in update ==> update[k] in made || update[k] in repr
      modifies this
      ensures Valid() && View() == m + old(ViewOf(update)) && repr == old(repr) + made
    {
      Merge(storage, update);
      Overlay(View(), m, ViewOf(update));
      storage := storage + update;
      repr := repr + made;
    }

    /** A deep copy: same content, no shared region. */
    method Copy() returns (c: KeyedRegion)
      requires Valid()
      ensures fresh(c) && fresh(c.repr) && c.Valid() && c.View() == View() && c.canonicalSize == canonicalSize
    {
      c := new KeyedRegion(canonicalSize);
      var todo := storage.Keys;
      while todo != {}
        invariant todo <= storage.Keys && fresh(c) && fresh(c.repr) && c.Valid()
        invariant CopiedTo(View(), c.View(), todo)
      {
        Inhabited(todo);
        var k :| k in todo;
        CopyRegion(c, k, todo);
        todo := todo - {k};
      }
      CopyDone(View(), c.View());
    }

    method CopyRegion(c: KeyedRegion, k: int, ghost todo: set<int>)
      requires Valid() && c.Valid() && c != this && k in storage && k in todo && CopiedTo(View(), c.View(), todo)
      modifies c
      ensures c.Valid() && fresh(c.repr - old(c.repr)) && CopiedTo(View(), c.View(), todo - {k})
    {
      var r := storage[k].Copy();
      ghost var before := c.View();
      c.AdoptRegion(k, r);
      CopyStep(View(), before, c.View(), todo, k);
    }

    method AdoptRegion(k: int, r: RegionObject)
      requires Valid() && r.Valid() && r.start == k && r !in repr
      modifies this
      ensures Valid() && View() == old(View())[k := Region(r.size, r.stored)] && repr == old(repr) + {r}
    {
      PutRegion(storage, k, r);
      storage := storage[k := r];
      repr := repr + {r};
    }
  }

  /** `n` holds the regions of `m` except those still `todo`. */
  predicate CopiedTo(m: Regions, n: Regions, todo: set<int>) {
    n.Keys == m.Keys - todo && forall k :: k in n ==> n[k] == m[k]
  }

  lemma CopyDone(m: Regions, n: Regions)
    requires CopiedTo(m, n, {})
    ensures n == m
  {
    assert n.Keys == m.Keys;
    forall k | k in n ensures n[k] == m[k] {}
    SameMap(n, m);
  }

  lemma CopyStep(m: Regions, n: Regions, n': Regions, todo: set<int>, k: int)
    requires CopiedTo(m, n, todo) && k in todo && k in m && n' == n[k := m[k]]
    ensures CopiedTo(m, n', todo - {k})
  {
  }

  predicate ScanKeys(m: Regions, keys: seq<int>, start: int, end: int) {
    forall i :: 0 <= i < |keys| ==> keys[i] in m && keys[i] < end && (keys[i] < start ==> start < EndOf(m, keys[i]))
  }

  lemma RestStep(m: Regions, rest: seq<int>, start: int, end: int, so: Stored, overwrite: bool, s: Scan)
    requires rest != [] && Ascending(rest) && ScanKeys(m, rest, start, end)
    ensures Ascending(rest[1..]) && ScanKeys(m, rest[1..], start, end)
    ensures ScanAll(m, rest, start, end, so, overwrite, s)
         == ScanAll(m, rest[1..], start, end, so, overwrite, ScanStep(m, rest[0], start, end, so, overwrite, s))
  {
    forall i | 0 <= i < |rest[1..]| ensures rest[1..][i] == rest[i + 1] {}
  }

  lemma Overlay(a: Regions, m: Regions, u: Regions)
    requires a.Keys == m.Keys && forall k :: k in a && k !in u ==> a[k] == m[k]
    ensures a + u == m + u
  {
    forall k | k in a + u ensures (a + u)[k] == (m + u)[k] {
      if k !in u { assert k in a; }
    }
    SameMap(a + u, m + u);
  }

  lemma SameMap<K, V>(x: map<K, V>, y: map<K, V>)
    requires x.Keys == y.Keys && forall k :: k in x ==> x[k] == y[k]
    ensures x == y
  {
  }

  /** Replacing and adding the collected regions. */
  lemma Merge(m: map<int, RegionObject>, u: map<int, RegionObject>)
    requires Own(m) && Own(u)
    requires forall j, k :: j in u && k in m && u[j] == m[k] ==> j == k
    ensures Own(m + u) && ViewOf(m + u) == ViewOf(m) + ViewOf(u)
  {
  }

  lemma SameStep(m: Regions, n: Regions, k: int, start: int, end: int, so: Stored, overwrite: bool, s: Scan)
    requires k in m && k in n && m[k] == n[k] && k < end && (k < start ==> start <= EndOf(m, k))
    ensures ScanStep(m, k, start, end, so, overwrite, s) == ScanStep(n, k, start, end, so, overwrite, s)
  {
  }

  method Greatest(s: set<int>) returns (x: int)
    requires s != {}
    ensures x in s && forall y :: y in s ==> y <= x
  {
    Inhabited(s);
    x :| x in s;
    var todo := s - {x};
    while todo != {}
      invariant x in s && todo <= s && forall y :: y in s && y !in todo ==> y <= x
    {
      Inhabited(todo);
      var y :| y in todo;
      if y > x { x := y; }
      todo := todo - {y};
    }
  }

  // ------------------------------------------------- runs

  /** The regions are valid, stand for the maps of `p`, and share no region object. */
  ghost predicate Stands(regions: seq<KeyedRegion>, p: seq<Regions>)
    reads set r | r in regions, set r, o | r in regions && o in r.repr :: o
  {
    && |regions| == |p|
    && (forall i :: 0 <= i < |p| ==> regions[i].Valid() && regions[i].View() == p[i])
    && (forall i, j :: 0 <= i < j < |p| ==> regions[i] != regions[j] && regions[i].repr !! regions[j].repr)
  }

  /** A store into one region of a pool changes that region only. */
  method StoreInPool(regions: seq<KeyedRegion>, ghost p: seq<Regions>, r: nat, start: int, end: int, so: Stored, overwrite: bool)
    requires Stands(regions, p) && r < |p| && WfRegions(p[r]) && start < end
    modifies regions[r], regions[r].repr
    ensures Stands(regions, p[r := Stores(p[r], start, end, so, overwrite)])
    ensures fresh(regions[r].repr - old(regions[r].repr))
  {
    regions[r].StoreRange(start, end, so, overwrite);
  }

  /** A copy is a new region of the pool. */
  method CopyInPool(regions: seq<KeyedRegion>, ghost p: seq<Regions>, r: nat) returns (more: seq<KeyedRegion>)
    requires Stands(regions, p) && r < |p|
    ensures |more| == |regions| + 1 && more[..|regions|] == regions
    ensures fresh(more[|regions|]) && fresh(more[|regions|].repr)
    ensures Stands(more, p + [p[r]])
  {
    var c := regions[r].Copy();
    more := regions + [c];
  }

  /** One operation on a pool: no object but the store's own region changes, and what is added is new. */
  method RunOp(regions: seq<KeyedRegion>, ghost p: seq<Regions>, op: Op) returns (more: seq<KeyedRegion>)
    requires Stands(regions, p) && op.region < |p| && WfRegions(p[op.region]) && (op.Store? ==> op.start < op.end)
    modifies regions[op.region], regions[op.region].repr
    ensures Stands(more, After(p, op)) && |more| >= |regions|
    ensures forall i :: 0 <= i < |regions| ==> more[i] == regions[i] && fresh(more[i].repr - old(regions[i].repr))
    ensures forall i :: |regions| <= i < |more| ==> fresh(more[i]) && fresh(more[i].repr)
  {
    match op {
      case Store(r, start, end, so, overwrite) =>
        StoreInPool(regions, p, r, start, end, so, overwrite);
        more := regions;
      case Copy(r) =>
        more := CopyInPool(regions, p, r);
        assert forall i :: 0 <= i < |regions| ==> more[..|regions|][i] == more[i];
    }
  }

  /** Any run of stores and copies: the objects stand for what the code's stores make of the maps,
      copies share nothing, and over exact ranges every region looks up like its plain map. */
  method RunOps(ops: seq<Op>) returns (regions: seq<KeyedRegion>)
    requires WellFormed(ops) && ExactRun(ops)
    ensures Stands(regions, Pool(ops, |ops|)) && Refines(ops, |ops|)
  {
    regions := RunAll(ops);
    RunRefinesPlain(ops, |ops|);
  }

  method RunAll(ops: seq<Op>) returns (regions: seq<KeyedRegion>)
    requires WellFormed(ops) && ExactRun(ops)
    ensures Stands(regions, Pool(ops, |ops|))
  {
    var first := new KeyedRegion(8);
    regions := [first];
    ghost var p := [map[]];
    for n := 0 to |ops|
      invariant p == Pool(ops, n) && Stands(regions, p)
      invariant forall i :: 0 <= i < |regions| ==> fresh(regions[i]) && fresh(regions[i].repr)
    {
      RunWellFormed(ops, n);
      regions := RunOp(regions, p, ops[n]);
      p := After(p, ops[n]);
    }
  }

  /** A copy and its original do not see each other's later stores, in either direction. */
  method CopyThenStore(r: KeyedRegion, inCopy: Op, inOriginal: Op) returns (c: KeyedRegion)
    requires r.Valid() && WfRegions(r.View())
    requires inCopy.Store? && inCopy.start < inCopy.end && inOriginal.Store? && inOriginal.start < inOriginal.end
    modifies r, r.repr
    ensures fresh(c) && c.Valid() && r.Valid()
    ensures c.View() == Stores(old(r.View()), inCopy.start, inCopy.end, inCopy.item, inCopy.overwrite)
    ensures r.View() == Stores(old(r.View()), inOriginal.start, inOriginal.end, inOriginal.item, inOriginal.overwrite)
  {
    ghost var m := r.View();
    c := r.Copy();
    var both := [r, c];
    assert Stands(both, [m, m]);
    StoreInPool(both, [m, m], 1, inCopy.start, inCopy.end, inCopy.item, inCopy.overwrite);
    ghost var n := Stores(m, inCopy.start, inCopy.end, inCopy.item, inCopy.overwrite);
    assert [m, m][1 := n] == [m, n];
    StoreInPool(both, [m, n], 0, inOriginal.start, inOriginal.end, inOriginal.item, inOriginal.overwrite);
    assert both[0].View() == r.View() && both[1].View() == c.View();
  }
}
