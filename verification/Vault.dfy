/** `VaultDict`: a deduplicating serializer over a graph of persistent objects. */
module Vault {
  import opened Wrappers
  import opened VaultModel

  class VaultDict {
    var dict: Heap
    var storing: set<Pid>   // ids whose pickling has begun; never emptied
    var stored: set<Pid>
    ghost var writes: multiset<Pid>
    var cache: map<Pid, Tree>

    ghost function View(): Snap
      reads this
    {
      Snap(dict, storing, writes)
    }

    constructor ()
      ensures View() == Snap(map[], {}, multiset{}) && cache == map[]
    {
      dict, storing, stored, cache, writes := map[], {}, {}, map[], multiset{};
    }

    /** `_store`: whether pickling went through.  Terminates on cyclic heaps, never rewrites an entry,
        begins only what is reached from the object, and fails exactly when some of that cannot be
        pickled.  On failure its id stays begun but unstored, and later calls take it for stored. */
    method StoreId(heap: Heap, pid: Pid) returns (ok: bool)
      requires ClosedHeap(heap) && Good(heap, View()) && pid in heap
      modifies this`dict, this`storing, this`stored, this`writes
      ensures Marks(old(stored), old(dict), stored, dict)
      ensures Visited(heap, old(View()), View(), {pid})
      ensures ok ==> Finished(old(View()), View(), {pid})
      ensures !ok ==> Blocked(heap, old(View()), {pid}) && pid in View().Open()
      decreases heap.Keys - storing, 1
    {
      if pid in storing || pid in dict {
        NothingVisited(heap, View(), {pid});
        return true;
      }
      ok := StoreNew(heap, pid);
    }

    method StoreNew(heap: Heap, pid: Pid) returns (ok: bool)
      requires ClosedHeap(heap) && Good(heap, View()) && pid in heap && !Taken(View(), pid)
      modifies this`dict, this`storing, this`stored, this`writes
      ensures Marks(old(stored), old(dict), stored, dict)
      ensures Visited(heap, old(View()), View(), {pid})
      ensures ok ==> Finished(old(View()), View(), {pid})
      ensures !ok ==> Blocked(heap, old(View()), {pid}) && pid in View().Open()
      decreases heap.Keys - storing, 0
    {
      ghost var a := View();
      storing := storing + {pid};
      assert View() == BeginOne(a, pid);
      ok := Dump(heap, heap[pid]);
      if ok {
        ghost var marked, held := stored, dict;
        WriteObject(heap, pid, a);
        MarksMore(old(stored), old(dict), marked, held, pid, heap[pid]);
      } else {
        BeginVisited(heap, a, View(), pid);
        BeginBlocked(heap, a, pid);
      }
    }

    /** The end of the write context: the object is stored. */
    method WriteObject(heap: Heap, pid: Pid, ghost a: Snap)
      requires pid in heap && !Taken(a, pid) && Picklable(heap[pid])
      requires Visited(heap, BeginOne(a, pid), View(), Refs(heap[pid])) && Finished(BeginOne(a, pid), View(), Refs(heap[pid]))
      modifies this`dict, this`stored, this`writes
      ensures Visited(heap, a, View(), {pid}) && Finished(a, View(), {pid})
      ensures pid !in old(dict) && dict == old(dict)[pid := heap[pid]] && stored == old(stored) + {pid}
    {
      WriteStep(heap, a, View(), pid);
      dict := dict[pid := heap[pid]];
      stored := stored + {pid};
      writes := writes + multiset{pid};
    }

    /** Pickles one value, storing the objects it refers to on the way. */
    method Dump(heap: Heap, v: Val) returns (ok: bool)
      requires ClosedHeap(heap) && Good(heap, View()) && Refs(v) <= heap.Keys
      modifies this`dict, this`storing, this`stored, this`writes
      ensures Marks(old(stored), old(dict), stored, dict)
      ensures Visited(heap, old(View()), View(), Refs(v))
      ensures ok ==> Finished(old(View()), View(), Refs(v)) && Picklable(v)
      ensures !ok ==> !Picklable(v) || Blocked(heap, old(View()), Refs(v))
      decreases heap.Keys - storing, 2, v, 1
    {
      match v
      case Ref(p) => ok := StoreId(heap, p);
      case Inline(ps) =>
        ok := DumpParts(heap, ps);
      case _ =>
        NothingVisited(heap, View(), Refs(v));
        ok := !v.Unpicklable?;
    }

    method DumpParts(heap: Heap, ps: seq<Val>) returns (ok: bool)
      requires ClosedHeap(heap) && Good(heap, View()) && Refs(Inline(ps)) <= heap.Keys
      modifies this`dict, this`storing, this`stored, this`writes
      ensures Marks(old(stored), old(dict), stored, dict)
      ensures Visited(heap, old(View()), View(), Refs(Inline(ps)))
      ensures ok ==> Finished(old(View()), View(), Refs(Inline(ps))) && Picklable(Inline(ps))
      ensures !ok ==> !Picklable(Inline(ps)) || Blocked(heap, old(View()), Refs(Inline(ps)))
      decreases heap.Keys - storing, 2, ps, 1
    {
      ghost var a, rs := View(), Refs(Inline(ps));
      ok := true;
      PartRefs(ps);
      NothingVisited(heap, a, rs);
      for i := 0 to |ps|
        invariant PartsDone(heap, ps, i, rs, a, View()) && Marks(old(stored), old(dict), stored, dict)
      {
        ghost var marked, held := stored, dict;
        ok := DumpPart(heap, ps, i, rs, a);
        MarksTrans(old(stored), old(dict), marked, held, stored, dict);
        if !ok { return; }
      }
      AllPartsDone(heap, ps, a, View());
    }

    /** One part, after those before it. */
    method DumpPart(heap: Heap, ps: seq<Val>, i: nat, ghost rs: set<Pid>, ghost a: Snap) returns (ok: bool)
      requires ClosedHeap(heap) && i < |ps| && Refs(ps[i]) <= rs <= heap.Keys
      requires PartsDone(heap, ps, i, rs, a, View())
      modifies this`dict, this`storing, this`stored, this`writes
      ensures Marks(old(stored), old(dict), stored, dict)
      ensures ok ==> PartsDone(heap, ps, i + 1, rs, a, View())
      ensures !ok ==> Visited(heap, a, View(), rs)
      ensures !ok ==> !Picklable(Inline(ps)) || Blocked(heap, a, rs)
      decreases heap.Keys - storing, 2, ps, 0
    {
      ghost var b := View();
      ok := Dump(heap, ps[i]);
      if ok {
        PartDone(heap, ps, i, rs, a, b, View());
      } else {
        PartFailed(heap, ps, i, rs, a, b, View());
      }
    }

    /** The outermost store.  It succeeds if and only if everything reached from the object through ids
        neither stored nor begun can be pickled; then exactly that is added, and the vault is closed
        under references if and only if it was and none of it refers to an open id.  Every id is
        written at most once. */
    method StoreObject(heap: Heap, pid: Pid) returns (ok: bool)
      requires ClosedHeap(heap) && Good(heap, View()) && pid in heap
      modifies this`dict, this`storing, this`stored, this`writes
      ensures Marks(old(stored), old(dict), stored, dict)
      ensures Good(heap, View()) && Grows(old(View()), View())
      ensures ok <==> forall q :: Reaches(heap, old(View()), pid, q) ==> Picklable(heap[q])
      ensures ok ==> forall q :: q in dict && q !in old(dict) <==> Reaches(heap, old(View()), pid, q)
      ensures ok ==> forall q :: q in storing && q !in old(storing) <==> Reaches(heap, old(View()), pid, q)
      ensures ok ==> (View().Closed() <==> old(View()).Closed() && AvoidsOpen(heap, old(View()), pid))
      ensures ok ==> View().Open() == old(View().Open()) && (pid in dict <==> pid !in old(View().Open()))
      ensures !ok ==> pid in View().Open()
    {
      ghost var a := View();
      ok := StoreId(heap, pid);
      BlockedIs(heap, a, pid);
      if ok {
        StoredExactly(heap, a, View(), pid);
        FinishedPicklable(heap, a, View(), pid);
        ClosedAfterIff(heap, a, View(), pid);
        OpenAfter(heap, a, View(), pid);
      }
    }

    /** `_load`.  Weak entries of the object cache may vanish at any moment; the result is the value of
        the object all the same. */
    method Load(heap: Heap, ghost rank: Pid -> nat, pid: Pid) returns (t: Tree)
      requires Ranked(heap, rank) && pid in heap && CacheSound(heap, rank, cache)
      requires Good(heap, View()) && View().Closed() && pid in dict
      modifies this`cache
      ensures t == Unfold(heap, rank, pid) && CacheSound(heap, rank, cache)
      decreases rank(pid), 0
    {
      var survivors: set<Pid> := *;
      cache := map p | p in cache && p in survivors :: cache[p];
      if pid in cache {
        return cache[pid];
      }
      t := Unpickle(heap, rank, pid, dict[pid]);
      cache := cache[pid := t];
    }

    /** `load`: a vault error when the id is neither cached nor stored. */
    method LoadObject(heap: Heap, ghost rank: Pid -> nat, pid: Pid) returns (t: Option<Tree>)
      requires Ranked(heap, rank) && CacheSound(heap, rank, cache)
      requires Good(heap, View()) && View().Closed()
      modifies this`cache
      ensures pid in dict ==> t.Some?
      ensures t.Some? ==> pid in heap && t.value == Unfold(heap, rank, pid)
      ensures CacheSound(heap, rank, cache)
    {
      if pid in dict {
        var tree := Load(heap, rank, pid);
        return Some(tree);
      }
      var survivors: set<Pid> := *;
      cache := map p | p in cache && p in survivors :: cache[p];
      t := if pid in cache then Some(cache[pid]) else None;
    }

    /** Storing an object without cycles and loading its id rebuilds its value, whatever the cache
        still holds, exactly when all that is reached can be pickled. */
    method StoreThenLoad(heap: Heap, ghost rank: Pid -> nat, pid: Pid) returns (t: Option<Tree>)
      requires Ranked(heap, rank) && CacheSound(heap, rank, cache) && pid in heap
      requires Good(heap, View()) && View().Closed() && pid !in View().Open() && AvoidsOpen(heap, View(), pid)
      modifies this
      ensures t == Some(Unfold(heap, rank, pid)) <==> forall q :: Reaches(heap, old(View()), pid, q) ==> Picklable(heap[q])
      ensures t.Some? ==> t.value == Unfold(heap, rank, pid)
    {
      var ok := StoreObject(heap, pid);
      if !ok { return None; }
      t := LoadObject(heap, rank, pid);
    }

    method Unpickle(heap: Heap, ghost rank: Pid -> nat, ghost owner: Pid, v: Val) returns (t: Tree)
      requires Ranked(heap, rank) && owner in heap && CacheSound(heap, rank, cache)
      requires Good(heap, View()) && View().Closed() && Refs(v) <= dict.Keys
      requires forall p :: p in Refs(v) ==> rank(p) < rank(owner)
      modifies this`cache
      ensures t == UnfoldVal(heap, rank, owner, v) && CacheSound(heap, rank, cache)
      decreases rank(owner), 0, v
    {
      match v
      case Atom(n) => t := Leaf(n);
      case Self => t := Knot;
      case Unpicklable => t := Missing;
      case Ref(p) => t := Load(heap, rank, p);
      case Inline(ps) =>
        var parts: seq<Tree> := [];
        for i := 0 to |ps|
          invariant CacheSound(heap, rank, cache)
          invariant |parts| == i && forall j :: 0 <= j < i ==> parts[j] == UnfoldVal(heap, rank, owner, ps[j])
        {
          assert Refs(ps[i]) <= Refs(v);
          var part := Unpickle(heap, rank, owner, ps[i]);
          parts := parts + [part];
        }
        t := Node(parts);
    }
  }

  /** What was written meanwhile has been marked as stored. */
  ghost predicate Marks(was: set<Pid>, before: Heap, stored: set<Pid>, after: Heap) {
    (forall p :: p in before ==> p in after) && forall p :: p in stored <==> p in was || (p in after && p !in before)
  }

  lemma MarksTrans(a: set<Pid>, d: Heap, b: set<Pid>, e: Heap, c: set<Pid>, f: Heap)
    requires Marks(a, d, b, e) && Marks(b, e, c, f)
    ensures Marks(a, d, c, f)
  {
  }

  lemma MarksMore(was: set<Pid>, before: Heap, stored: set<Pid>, after: Heap, pid: Pid, v: Val)
    requires Marks(was, before, stored, after) && pid !in after
    ensures Marks(was, before, stored + {pid}, after[pid := v])
  {
  }

  /** After a failed dump the vault is no longer closed under references: an object that refers to
      the failed one is stored with a reference to nothing. */
  method FailedDumpDangles(heap: Heap, a: Pid, b: Pid) returns (vault: VaultDict)
    requires heap.Keys == {a, b} && a != b && heap[a] == Unpicklable && heap[b] == Ref(a)
    ensures Good(heap, vault.View()) && b in vault.dict && a !in vault.dict && !vault.View().Closed()
  {
    vault := new VaultDict();
    FailedFirst(vault, heap, a, b);
    ghost var middle := vault.View();
    forall q | Reaches(heap, middle, b, q) ensures Picklable(heap[q]) {
      ReachesFresh(heap, middle, b, q);
    }
    var second := vault.StoreObject(heap, b);
    assert Refs(vault.dict[b]) == {a};
  }

  method FailedFirst(vault: VaultDict, heap: Heap, a: Pid, b: Pid)
    requires heap.Keys == {a, b} && a != b && heap[a] == Unpicklable && heap[b] == Ref(a)
    requires vault.View() == Snap(map[], {}, multiset{})
    modifies vault
    ensures ClosedHeap(heap) && Good(heap, vault.View()) && a in vault.View().Open() && b !in vault.storing
  {
    ghost var s := vault.View();
    ReachesSelf(heap, s, a);
    var ok := vault.StoreId(heap, a);
    if ok { FinishedPicklable(heap, s, vault.View(), a); BlockedIs(heap, s, a); }
    if b in vault.storing { OnlyItself(heap, s, a, b); }
  }

  lemma OnlyItself(heap: Heap, s: Snap, a: Pid, b: Pid)
    requires a in heap && Refs(heap[a]) == {} && ReachesAny(heap, s, {a}, b)
    ensures a == b
  {
    var ps :| ChainTo(heap, s, ps, a, b);
    ChainInside(heap, s, {a}, ps);
  }

  // ------------------------------------------------- the value of an object

  datatype Tree = Leaf(value: int) | Knot | Node(parts: seq<Tree>) | Missing

  /** References go down in rank: the object graph has no cycle. */
  ghost predicate Ranked(heap: Heap, rank: Pid -> nat) {
    ClosedHeap(heap) && forall p, q :: p in heap && q in Refs(heap[p]) ==> rank(q) < rank(p)
  }

  ghost function Unfold(heap: Heap, rank: Pid -> nat, pid: Pid): Tree
    requires Ranked(heap, rank) && pid in heap
    decreases rank(pid), 1
  {
    UnfoldVal(heap, rank, pid, heap[pid])
  }

  ghost function UnfoldVal(heap: Heap, rank: Pid -> nat, owner: Pid, v: Val): Tree
    requires Ranked(heap, rank) && owner in heap && Refs(v) <= heap.Keys
    requires forall p :: p in Refs(v) ==> rank(p) < rank(owner)
    decreases rank(owner), 0, v
  {
    match v
    case Atom(n) => Leaf(n)
    case Self => Knot
    case Unpicklable => Missing
    case Ref(p) => Unfold(heap, rank, p)
    case Inline(ps) =>
      Node(seq(|ps|, i requires 0 <= i < |ps| => (assert Refs(ps[i]) <= Refs(v); UnfoldVal(heap, rank, owner, ps[i]))))
  }

  ghost predicate CacheSound(heap: Heap, rank: Pid -> nat, cache: map<Pid, Tree>)
    requires Ranked(heap, rank)
  {
    forall p :: p in cache ==> p in heap && cache[p] == Unfold(heap, rank, p)
  }

  // ------------------------------------------------- what a value holds

  /** What stands at the end of a path of positions. */
  datatype Item = Number(value: int) | Itself | NotPickled | List(length: nat) | Nowhere

  function InTree(t: Tree, path: seq<nat>): Item {
    match t
    case Leaf(n) => if path == [] then Number(n) else Nowhere
    case Knot => if path == [] then Itself else Nowhere
    case Missing => if path == [] then NotPickled else Nowhere
    case Node(parts) =>
      if path == [] then List(|parts|)
      else if path[0] < |parts| then InTree(parts[path[0]], path[1..])
      else Nowhere
  }

  /** The same in the heap, where references are followed on the way. */
  ghost function InHeap(heap: Heap, rank: Pid -> nat, owner: Pid, v: Val, path: seq<nat>): Item
    requires Ranked(heap, rank) && owner in heap && Refs(v) <= heap.Keys
    requires forall p :: p in Refs(v) ==> rank(p) < rank(owner)
    decreases rank(owner), v
  {
    match v
    case Atom(n) => if path == [] then Number(n) else Nowhere
    case Self => if path == [] then Itself else Nowhere
    case Unpicklable => if path == [] then NotPickled else Nowhere
    case Ref(p) => InHeap(heap, rank, p, heap[p], path)
    case Inline(ps) =>
      if path == [] then List(|ps|)
      else if path[0] < |ps| then
        assert Refs(ps[path[0]]) <= Refs(v);
        InHeap(heap, rank, owner, ps[path[0]], path[1..])
      else Nowhere
  }

  /** The loaded value holds what the object holds, place by place, with the objects that it refers to in
      place of the references. */
  lemma {:induction false} LoadedPlaces(heap: Heap, rank: Pid -> nat, owner: Pid, v: Val, path: seq<nat>)
    requires Ranked(heap, rank) && owner in heap && Refs(v) <= heap.Keys
    requires forall p :: p in Refs(v) ==> rank(p) < rank(owner)
    ensures InTree(UnfoldVal(heap, rank, owner, v), path) == InHeap(heap, rank, owner, v, path)
    decreases rank(owner), v
  {
    match v
    case Ref(p) => LoadedPlaces(heap, rank, p, heap[p], path);
    case Inline(ps) =>
      if path != [] && path[0] < |ps| {
        assert Refs(ps[path[0]]) <= Refs(v);
        LoadedPlaces(heap, rank, owner, ps[path[0]], path[1..]);
      }
    case _ =>
  }
}
