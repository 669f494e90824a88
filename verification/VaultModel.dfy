/** The vault as a value: what it holds, which objects a store reaches, and what follows from that. */
module VaultModel {

  type Pid = string

  /** The content of an object as its pickler sees it: parts with a persistent id are references,
      the object itself is left to pickle's own memo, everything else is written in place. */
  datatype Val =
    | Atom(value: int)
    | Self
    | Inline(parts: seq<Val>)
    | Ref(pid: Pid)
    | Unpicklable

  /** All persistent objects, by id; possibly cyclic. */
  type Heap = map<Pid, Val>

  function Refs(v: Val): set<Pid> {
    match v
    case Ref(p) => {p}
    case Inline(ps) => set i, p | 0 <= i < |ps| && p in Refs(ps[i]) :: p
    case _ => {}
  }

  predicate Picklable(v: Val) {
    match v
    case Inline(ps) => forall i :: 0 <= i < |ps| ==> Picklable(ps[i])
    case Unpicklable => false
    case _ => true
  }

  /** Every reference leads to an object. */
  predicate ClosedHeap(heap: Heap) { forall p :: p in heap ==> Refs(heap[p]) <= heap.Keys }

  // ------------------------------------------------- the vault at one moment

  datatype Snap = Snap(dict: Heap, storing: set<Pid>, writes: multiset<Pid>)
  {
    /** Ids begun by a dump that failed, or that is still going on. */
    function Open(): set<Pid> { storing - dict.Keys }

    /** The dictionary can be read on its own: every stored reference is stored. */
    predicate Closed() { forall p :: p in dict ==> Refs(dict[p]) <= dict.Keys }
  }

  /** What is stored is what the heap says, written at most once, and refers only to ids that are
      stored or have been begun. */
  ghost predicate Good(heap: Heap, s: Snap) {
    && s.dict.Keys <= heap.Keys && s.storing <= heap.Keys
    && (forall p :: p in s.dict ==> s.dict[p] == heap[p])
    && (forall p :: p in s.dict ==> Refs(s.dict[p]) <= s.dict.Keys + s.storing)
    && (forall p :: s.writes[p] <= if p in s.dict then 1 else 0)
  }

  /** The vault only grows, and writes only ids that were neither stored nor begun, after beginning them. */
  ghost predicate Grows(a: Snap, b: Snap) {
    && (forall p :: p in a.dict ==> p in b.dict && b.dict[p] == a.dict[p])
    && a.storing <= b.storing
    && (forall p :: p in b.dict && p !in a.dict ==> p !in a.storing && p in b.storing)
    && (forall p :: a.writes[p] <= b.writes[p] <= if p in a.dict || p in a.storing then a.writes[p] else 1)
  }

  /** Everything begun since `a` has been stored. */
  predicate Settled(a: Snap, b: Snap) { b.storing <= b.dict.Keys + a.storing }

  lemma GrowsTrans(a: Snap, b: Snap, c: Snap)
    requires Grows(a, b) && Grows(b, c)
    ensures Grows(a, c)
    ensures Settled(a, b) && Settled(b, c) ==> Settled(a, c)
  {
    forall p ensures a.writes[p] <= c.writes[p] <= if p in a.dict || p in a.storing then a.writes[p] else 1 {
      assert a.writes[p] <= b.writes[p] <= c.writes[p];
    }
    if Settled(a, b) && Settled(b, c) {
      forall p | p in c.storing ensures p in c.dict.Keys + a.storing {
        if p in b.storing && p in b.dict.Keys { assert p in c.dict; }
      }
    }
  }

  // ------------------------------------------------- the objects a store reaches

  predicate Taken(s: Snap, p: Pid) { p in s.dict || p in s.storing }

  /** A chain of references through objects that are neither stored nor begun. */
  predicate FreshChain(heap: Heap, s: Snap, ps: seq<Pid>) {
    && ps != [] && (forall i :: 0 <= i < |ps| ==> ps[i] in heap && !Taken(s, ps[i]))
    && (forall i :: 0 <= i < |ps| - 1 ==> ps[i + 1] in Refs(heap[ps[i]]))
  }

  ghost predicate ChainTo(heap: Heap, s: Snap, ps: seq<Pid>, p: Pid, q: Pid) {
    FreshChain(heap, s, ps) && ps[0] == p && ps[|ps| - 1] == q
  }

  /** `q` is reached from `p` through objects that are neither stored nor begun, itself included. */
  ghost predicate Reaches(heap: Heap, s: Snap, p: Pid, q: Pid) { exists ps :: ChainTo(heap, s, ps, p, q) }

  ghost predicate ReachesAny(heap: Heap, s: Snap, rs: set<Pid>, q: Pid) { exists r :: r in rs && Reaches(heap, s, r, q) }

  lemma ReachesSelf(heap: Heap, s: Snap, p: Pid)
    requires p in heap && !Taken(s, p)
    ensures Reaches(heap, s, p, p)
  {
    assert ChainTo(heap, s, [p], p, p);
  }

  lemma ReachesFresh(heap: Heap, s: Snap, p: Pid, q: Pid)
    requires Reaches(heap, s, p, q)
    ensures p in heap && q in heap && !Taken(s, p) && !Taken(s, q)
  {
    var ps :| ChainTo(heap, s, ps, p, q);
    assert ps[0] in heap && ps[|ps| - 1] in heap;
  }

  lemma ReachesStep(heap: Heap, s: Snap, p: Pid, q: Pid, r: Pid)
    requires p in heap && !Taken(s, p) && q in Refs(heap[p]) && Reaches(heap, s, q, r)
    ensures Reaches(heap, s, p, r)
  {
    var ps :| ChainTo(heap, s, ps, q, r);
    assert ChainTo(heap, s, [p] + ps, p, r);
  }

  /** What is reached later was reachable before. */
  lemma ReachesEarlier(heap: Heap, a: Snap, b: Snap, p: Pid, q: Pid)
    requires (forall x :: Taken(a, x) ==> Taken(b, x)) && Reaches(heap, b, p, q)
    ensures Reaches(heap, a, p, q)
  {
    var ps :| ChainTo(heap, b, ps, p, q);
    assert ChainTo(heap, a, ps, p, q);
  }

  /** A set that follows every fresh reference holds all it reaches. */
  lemma {:induction false} ChainInside(heap: Heap, s: Snap, inside: set<Pid>, ps: seq<Pid>)
    requires FreshChain(heap, s, ps) && ps[0] in inside
    requires forall p, q :: p in inside && p in heap && q in Refs(heap[p]) && !Taken(s, q) ==> q in inside
    ensures ps[|ps| - 1] in inside
    decreases |ps|
  {
    if |ps| > 1 {
      assert ps[1] in Refs(heap[ps[0]]);
      ChainInside(heap, s, inside, ps[1..]);
    }
  }

  // ------------------------------------------------- one call

  /** Between `a` and `b` a call pickled what is reached from `rs`: it began nothing else, and wrote
      only what can be pickled. */
  ghost predicate Visited(heap: Heap, a: Snap, b: Snap, rs: set<Pid>) {
    && Good(heap, b) && Grows(a, b)
    && (forall p :: p in b.storing && p !in a.storing ==> ReachesAny(heap, a, rs, p))
    && (forall p :: p in b.dict && p !in a.dict ==> Picklable(heap[p]))
  }

  /** The call came through: what it began is stored, and so are its roots, or they were begun before. */
  ghost predicate Finished(a: Snap, b: Snap, rs: set<Pid>) {
    Settled(a, b) && rs <= b.dict.Keys + b.storing
  }

  /** Something that is reached cannot be pickled. */
  ghost predicate Blocked(heap: Heap, s: Snap, rs: set<Pid>) {
    exists q :: ReachesAny(heap, s, rs, q) && !Picklable(heap[q])
  }

  lemma GrowsTakes(a: Snap, b: Snap)
    requires Grows(a, b)
    ensures forall x :: Taken(a, x) ==> Taken(b, x)
  {
  }

  lemma ReachesAnyEarlier(heap: Heap, a: Snap, b: Snap, qs: set<Pid>, rs: set<Pid>, q: Pid)
    requires Grows(a, b) && qs <= rs && ReachesAny(heap, b, qs, q)
    ensures ReachesAny(heap, a, rs, q)
  {
    var r :| r in qs && Reaches(heap, b, r, q);
    GrowsTakes(a, b);
    ReachesEarlier(heap, a, b, r, q);
  }

  lemma BlockedEarlier(heap: Heap, a: Snap, b: Snap, qs: set<Pid>, rs: set<Pid>)
    requires Grows(a, b) && qs <= rs && Blocked(heap, b, qs)
    ensures Blocked(heap, a, rs)
  {
    var q :| ReachesAny(heap, b, qs, q) && !Picklable(heap[q]);
    ReachesAnyEarlier(heap, a, b, qs, rs, q);
  }

  lemma VisitedTrans(heap: Heap, a: Snap, b: Snap, c: Snap, qs: set<Pid>, rs: set<Pid>)
    requires Visited(heap, a, b, rs) && Visited(heap, b, c, qs) && qs <= rs
    ensures Visited(heap, a, c, rs)
  {
    GrowsTrans(a, b, c);
    forall p | p in c.storing && p !in a.storing ensures ReachesAny(heap, a, rs, p) {
      if p !in b.storing {
        ReachesAnyEarlier(heap, a, b, qs, rs, p);
      }
    }
  }

  lemma NothingVisited(heap: Heap, a: Snap, rs: set<Pid>)
    requires Good(heap, a)
    ensures Visited(heap, a, a, rs) && Settled(a, a)
  {
  }

  // ------------------------------------------------- the parts of a value

  lemma PartRefs(ps: seq<Val>)
    ensures forall i :: 0 <= i < |ps| ==> Refs(ps[i]) <= Refs(Inline(ps))
  {
  }

  /** The first `i` parts of a value that refers to `rs` have been pickled since `a`. */
  ghost predicate PartsDone(heap: Heap, ps: seq<Val>, i: nat, rs: set<Pid>, a: Snap, b: Snap)
    requires i <= |ps|
  {
    && Visited(heap, a, b, rs) && Settled(a, b)
    && forall j :: 0 <= j < i ==> Picklable(ps[j]) && Refs(ps[j]) <= b.dict.Keys + b.storing
  }

  lemma PartDone(heap: Heap, ps: seq<Val>, i: nat, rs: set<Pid>, a: Snap, b: Snap, c: Snap)
    requires i < |ps| && PartsDone(heap, ps, i, rs, a, b) && Picklable(ps[i]) && Refs(ps[i]) <= rs
    requires Visited(heap, b, c, Refs(ps[i])) && Finished(b, c, Refs(ps[i]))
    ensures PartsDone(heap, ps, i + 1, rs, a, c)
  {
    VisitedTrans(heap, a, b, c, Refs(ps[i]), rs);
    GrowsTrans(a, b, c);
    TakenLater(ps, i, b, c);
  }

  lemma TakenLater(ps: seq<Val>, i: nat, b: Snap, c: Snap)
    requires i <= |ps| && Grows(b, c) && forall j :: 0 <= j < i ==> Refs(ps[j]) <= b.dict.Keys + b.storing
    ensures forall j :: 0 <= j < i ==> Refs(ps[j]) <= c.dict.Keys + c.storing
  {
    forall j | 0 <= j < i ensures Refs(ps[j]) <= c.dict.Keys + c.storing {
      GrowsTakes(b, c);
      forall p | p in Refs(ps[j]) ensures p in c.dict.Keys + c.storing { assert Taken(b, p); }
    }
  }

  lemma AllPartsDone(heap: Heap, ps: seq<Val>, a: Snap, b: Snap)
    requires PartsDone(heap, ps, |ps|, Refs(Inline(ps)), a, b)
    ensures Finished(a, b, Refs(Inline(ps))) && Picklable(Inline(ps))
  {
  }

  /** A part that failed: the parts before it do not matter. */
  lemma PartFailed(heap: Heap, ps: seq<Val>, i: nat, rs: set<Pid>, a: Snap, b: Snap, c: Snap)
    requires i < |ps| && PartsDone(heap, ps, i, rs, a, b) && Visited(heap, b, c, Refs(ps[i])) && Refs(ps[i]) <= rs
    requires !Picklable(ps[i]) || Blocked(heap, b, Refs(ps[i]))
    ensures Visited(heap, a, c, rs)
    ensures !Picklable(Inline(ps)) || Blocked(heap, a, rs)
  {
    VisitedTrans(heap, a, b, c, Refs(ps[i]), rs);
    if Picklable(ps[i]) { BlockedEarlier(heap, a, b, Refs(ps[i]), rs); }
  }

  // ------------------------------------------------- one object

  function BeginOne(a: Snap, pid: Pid): Snap { a.(storing := a.storing + {pid}) }

  function WriteOne(heap: Heap, b: Snap, pid: Pid): Snap
    requires pid in heap
  {
    Snap(b.dict[pid := heap[pid]], b.storing, b.writes + multiset{pid})
  }

  lemma BegunReaches(heap: Heap, a: Snap, pid: Pid, q: Pid)
    requires pid in heap && !Taken(a, pid) && ReachesAny(heap, BeginOne(a, pid), Refs(heap[pid]), q)
    ensures ReachesAny(heap, a, {pid}, q)
  {
    var r :| r in Refs(heap[pid]) && Reaches(heap, BeginOne(a, pid), r, q);
    ReachesEarlier(heap, a, BeginOne(a, pid), r, q);
    ReachesStep(heap, a, pid, r, q);
  }

  /** Beginning an object and pickling its content. */
  lemma BeginVisited(heap: Heap, a: Snap, b: Snap, pid: Pid)
    requires pid in heap && !Taken(a, pid) && Visited(heap, BeginOne(a, pid), b, Refs(heap[pid]))
    ensures Visited(heap, a, b, {pid}) && pid in b.Open()
  {
    BeginGrows(heap, a, b, pid);
    forall p | p in b.storing && p !in a.storing ensures ReachesAny(heap, a, {pid}, p) {
      if p == pid {
        ReachesSelf(heap, a, pid);
      } else {
        BegunReaches(heap, a, pid, p);
      }
    }
  }

  lemma BeginGrows(heap: Heap, a: Snap, b: Snap, pid: Pid)
    requires Good(heap, b) && !Taken(a, pid) && Grows(BeginOne(a, pid), b)
    ensures Grows(a, b) && pid in b.Open()
  {
  }

  lemma BeginBlocked(heap: Heap, a: Snap, pid: Pid)
    requires pid in heap && !Taken(a, pid)
    requires Blocked(heap, BeginOne(a, pid), Refs(heap[pid])) || !Picklable(heap[pid])
    ensures Blocked(heap, a, {pid})
  {
    if Picklable(heap[pid]) {
      var q :| ReachesAny(heap, BeginOne(a, pid), Refs(heap[pid]), q) && !Picklable(heap[q]);
      BegunReaches(heap, a, pid, q);
    } else {
      ReachesSelf(heap, a, pid);
      assert ReachesAny(heap, a, {pid}, pid);
    }
  }

  /** Storing one object after its parts. */
  lemma WriteStep(heap: Heap, a: Snap, b: Snap, pid: Pid)
    requires pid in heap && !Taken(a, pid) && Picklable(heap[pid])
    requires Visited(heap, BeginOne(a, pid), b, Refs(heap[pid])) && Finished(BeginOne(a, pid), b, Refs(heap[pid]))
    ensures Visited(heap, a, WriteOne(heap, b, pid), {pid}) && Finished(a, WriteOne(heap, b, pid), {pid}) && pid !in b.dict
  {
    BeginVisited(heap, a, b, pid);
    WriteKeepsGood(heap, a, b, pid);
  }

  lemma WriteKeepsGood(heap: Heap, a: Snap, b: Snap, pid: Pid)
    requires pid in heap && !Taken(a, pid) && Good(heap, b)
    requires Grows(BeginOne(a, pid), b) && Finished(BeginOne(a, pid), b, Refs(heap[pid]))
    ensures Good(heap, WriteOne(heap, b, pid)) && Grows(a, WriteOne(heap, b, pid)) && Settled(a, WriteOne(heap, b, pid))
  {
    BeginGrows(heap, a, b, pid);
    WrittenGood(heap, b, pid);
    WrittenGrows(heap, a, b, pid);
  }

  lemma WrittenGood(heap: Heap, b: Snap, pid: Pid)
    requires pid in heap && Good(heap, b) && pid in b.Open() && Refs(heap[pid]) <= b.dict.Keys + b.storing
    ensures Good(heap, WriteOne(heap, b, pid))
  {
    var c := WriteOne(heap, b, pid);
    forall p | p in c.dict ensures Refs(c.dict[p]) <= c.dict.Keys + c.storing {
      if p != pid { assert Refs(b.dict[p]) <= b.dict.Keys + b.storing; }
    }
  }

  lemma WrittenGrows(heap: Heap, a: Snap, b: Snap, pid: Pid)
    requires pid in heap && !Taken(a, pid) && Good(heap, b) && Grows(a, b) && pid in b.Open()
    requires Settled(BeginOne(a, pid), b)
    ensures Grows(a, WriteOne(heap, b, pid)) && Settled(a, WriteOne(heap, b, pid))
  {
  }

  // ------------------------------------------------- what a store does, exactly

  /** A store that came through adds exactly what is reached from its object. */
  lemma StoredExactly(heap: Heap, a: Snap, b: Snap, pid: Pid)
    requires Visited(heap, a, b, {pid}) && Finished(a, b, {pid})
    ensures forall q :: q in b.dict && q !in a.dict <==> Reaches(heap, a, pid, q)
    ensures forall q :: q in b.storing && q !in a.storing <==> Reaches(heap, a, pid, q)
  {
    var inside := set q | q in b.dict && q !in a.dict;
    forall q | Reaches(heap, a, pid, q) ensures q in inside {
      ReachesFresh(heap, a, pid, q);
      ReachedInside(heap, a, b, pid, q, inside);
    }
    forall q | q in b.storing && q !in a.storing ensures Reaches(heap, a, pid, q) {
      assert ReachesAny(heap, a, {pid}, q);
    }
  }

  lemma ReachedInside(heap: Heap, a: Snap, b: Snap, pid: Pid, q: Pid, inside: set<Pid>)
    requires Visited(heap, a, b, {pid}) && Finished(a, b, {pid}) && Reaches(heap, a, pid, q)
    requires !Taken(a, pid) && inside == set x | x in b.dict && x !in a.dict
    ensures q in inside
  {
    forall p, r | p in inside && p in heap && r in Refs(heap[p]) && !Taken(a, r) ensures r in inside {
      assert Refs(b.dict[p]) <= b.dict.Keys + b.storing;
    }
    var ps :| ChainTo(heap, a, ps, pid, q);
    ChainInside(heap, a, inside, ps);
  }

  /** A store comes through only if everything it reaches can be pickled. */
  lemma FinishedPicklable(heap: Heap, a: Snap, b: Snap, pid: Pid)
    requires Visited(heap, a, b, {pid}) && Finished(a, b, {pid})
    ensures !Blocked(heap, a, {pid})
  {
    StoredExactly(heap, a, b, pid);
    forall q | ReachesAny(heap, a, {pid}, q) ensures Picklable(heap[q]) {
      assert Reaches(heap, a, pid, q);
    }
  }

  lemma BlockedIs(heap: Heap, a: Snap, pid: Pid)
    ensures Blocked(heap, a, {pid}) <==> exists q :: Reaches(heap, a, pid, q) && !Picklable(heap[q])
  {
    if q :| Reaches(heap, a, pid, q) && !Picklable(heap[q]) {
      assert ReachesAny(heap, a, {pid}, q);
    }
  }

  /** A store that came through neither opens nor closes an id. */
  lemma OpenAfter(heap: Heap, a: Snap, b: Snap, pid: Pid)
    requires Visited(heap, a, b, {pid}) && Finished(a, b, {pid})
    ensures b.Open() == a.Open() && (pid in b.dict <==> pid !in a.Open())
  {
    forall q ensures q in b.Open() <==> q in a.Open() {}
  }

  /** None of what a store reaches refers to an id that was begun and never stored. */
  ghost predicate AvoidsOpen(heap: Heap, a: Snap, pid: Pid) {
    forall q :: Reaches(heap, a, pid, q) && q in heap ==> Refs(heap[q]) !! a.Open()
  }

  /** A store that came through leaves the vault closed under references if and only if it was closed
      before and nothing the store reached refers to an open id. */
  lemma ClosedAfterIff(heap: Heap, a: Snap, b: Snap, pid: Pid)
    requires Good(heap, a) && Visited(heap, a, b, {pid}) && Finished(a, b, {pid})
    ensures b.Closed() <==> a.Closed() && AvoidsOpen(heap, a, pid)
  {
    StoredExactly(heap, a, b, pid);
    if b.Closed() {
      forall p | p in a.dict ensures Refs(a.dict[p]) <= a.dict.Keys {
        assert Refs(a.dict[p]) <= a.dict.Keys + a.storing && Refs(b.dict[p]) <= b.dict.Keys;
      }
      forall q | Reaches(heap, a, pid, q) && q in heap ensures Refs(heap[q]) !! a.Open() {
        assert q in b.dict && Refs(b.dict[q]) <= b.dict.Keys;
      }
    }
    if a.Closed() && AvoidsOpen(heap, a, pid) {
      forall p | p in b.dict ensures Refs(b.dict[p]) <= b.dict.Keys {
        if p in a.dict {
          assert Refs(a.dict[p]) <= a.dict.Keys;
        } else {
          assert Reaches(heap, a, pid, p) && Refs(heap[p]) !! a.Open();
          assert Refs(b.dict[p]) <= b.dict.Keys + b.storing;
        }
      }
    }
  }
}
