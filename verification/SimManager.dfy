/** `SimulationManager`: stashes, stepping and merging.  Execution, filters and the merge of two
    states are parameters; an error record is the state it names. */
module SimManager {
  import opened Wrappers
  import opened Digraph
  import opened Contraction
  import opened Twigs
  import opened Hierarchy
  import opened MergeRounds

  type Stashes = map<string, seq<SimState>>

  function StatesIn(m: Stashes, stash: string): seq<SimState> { if stash in m then m[stash] else [] }

  // ------------------------------------------------- the multiset of managed states

  ghost function Total(m: Stashes): multiset<SimState> {
    if m.Keys == {} then multiset{}
    else
      var k :| k in m.Keys;
      multiset(m[k]) + Total(m - {k})
  }

  lemma {:induction false} TotalExtract(m: Stashes, k: string)
    requires k in m
    ensures Total(m) == multiset(m[k]) + Total(m - {k})
    decreases m.Keys
  {
    var j :| j in m.Keys && Total(m) == multiset(m[j]) + Total(m - {j});
    if j != k {
      TotalExtract(m - {j}, k);
      TotalExtract(m - {k}, j);
      assert m - {j} - {k} == m - {k} - {j};
      Bring(Total(m), multiset(m[j]), multiset(m[k]), Total(m - {j} - {k}), Total(m - {j}), Total(m - {k}));
    }
  }

  lemma TotalUpdate(m: Stashes, k: string, v: seq<SimState>)
    ensures Total(m[k := v]) + multiset(StatesIn(m, k)) == Total(m) + multiset(v)
  {
    TotalExtract(m[k := v], k);
    if k in m {
      TotalExtract(m, k);
      assert m[k := v] - {k} == m - {k};
      Balance(Total(m[k := v]), Total(m), multiset(v), multiset(m[k]), Total(m - {k}));
    } else {
      assert m[k := v] - {k} == m;
    }
  }

  lemma Balance(a: multiset<SimState>, b: multiset<SimState>, v: multiset<SimState>, w: multiset<SimState>, rest: multiset<SimState>)
    requires a == v + rest && b == w + rest
    ensures a + w == b + v
  {
  }

  // ------------------------------------------------- storing and splitting

  /** `_store_states`: automatically dropped stashes swallow what they are given. */
  function Store(m: Stashes, drop: set<string>, stash: string, states: seq<SimState>): Stashes {
    if stash in drop then m else m[stash := StatesIn(m, stash) + states]
  }

  lemma Cancel(a: multiset<SimState>, b: multiset<SimState>, c: multiset<SimState>, d: multiset<SimState>)
    requires a + b == c + (b + d)
    ensures a == c + d
  {
    forall x ensures a[x] == (c + d)[x] {
      assert (a + b)[x] == (c + (b + d))[x];
    }
  }

  lemma StoreTotal(m: Stashes, drop: set<string>, stash: string, states: seq<SimState>)
    ensures Total(Store(m, drop, stash, states)) ==
            Total(m) + if stash in drop then multiset{} else multiset(states)
  {
    if stash !in drop {
      var v := StatesIn(m, stash) + states;
      TotalUpdate(m, stash, v);
      assert multiset(v) == multiset(StatesIn(m, stash)) + multiset(states);
      Cancel(Total(Store(m, drop, stash, states)), multiset(StatesIn(m, stash)), Total(m), multiset(states));
    }
  }

  /** The state after `split` replaced `from` by `keep` and sent the rest to `to`. */
  function Divide(m: Stashes, drop: set<string>, from: string, to: string,
                  keep: seq<SimState>, split: seq<SimState>): Stashes {
    Store(Store(m[from := []], drop, from, keep), drop, to, split)
  }

  /** Splitting loses exactly what it hands to a dropped stash. */
  lemma DivideTotal(m: Stashes, drop: set<string>, from: string, to: string,
                    keep: seq<SimState>, split: seq<SimState>)
    requires from in m && multiset(keep) + multiset(split) == multiset(m[from])
    ensures Total(Divide(m, drop, from, to, keep, split)) <= Total(m)
    ensures Total(Divide(m, drop, from, to, keep, split)) == Total(m) <==>
            (from in drop ==> keep == []) && (to in drop ==> split == [])
  {
    var emptied := m[from := []];
    var kept := Store(emptied, drop, from, keep);
    var out := Divide(m, drop, from, to, keep, split);
    TotalUpdate(m, from, []);
    StoreTotal(emptied, drop, from, keep);
    StoreTotal(kept, drop, to, split);
    var a, b: multiset<SimState> := multiset(keep), multiset(split);
    var none: multiset<SimState> := multiset{};
    var inKeep, inSplit := if from in drop then none else a, if to in drop then none else b;
    assert Total(out) == Total(emptied) + inKeep + inSplit;
    assert Total(emptied) + (a + b) == Total(m) + none;
    LossExact(Total(emptied), a, b, from in drop, to in drop);
    assert |a| == |keep| && |b| == |split|;
  }

  /** Adding back both halves, except the dropped ones, gives everything exactly when nothing is
      dropped. */
  lemma LossExact(base: multiset<SimState>, a: multiset<SimState>, b: multiset<SimState>, dropA: bool, dropB: bool)
    ensures var out := base + (if dropA then multiset{} else a) + (if dropB then multiset{} else b);
            && out <= base + (a + b)
            && (out == base + (a + b) <==> (dropA ==> |a| == 0) && (dropB ==> |b| == 0))
  {
    var out := base + (if dropA then multiset{} else a) + (if dropB then multiset{} else b);
    assert |out| == |base| + (if dropA then 0 else |a|) + (if dropB then 0 else |b|);
    assert |base + (a + b)| == |base| + |a| + |b|;
    assert |a| == 0 ==> a == multiset{};
    assert |b| == 0 ==> b == multiset{};
  }

  function Select(states: seq<SimState>, p: SimState -> bool, want: bool): seq<SimState> {
    if states == [] then []
    else
      var n := |states| - 1;
      var front := Select(states[..n], p, want);
      if p(states[n]) == want then front + [states[n]] else front
  }

  lemma {:induction false} SelectMembers(states: seq<SimState>, p: SimState -> bool, want: bool)
    ensures forall s :: s in Select(states, p, want) ==> s in states && p(s) == want
  {
    if states != [] {
      SelectMembers(states[..|states| - 1], p, want);
    }
  }

  lemma {:induction false} SelectMultiset(states: seq<SimState>, p: SimState -> bool)
    ensures multiset(Select(states, p, false)) + multiset(Select(states, p, true)) == multiset(states)
    ensures |Select(states, p, false)| + |Select(states, p, true)| == |states|
  {
    if states != [] {
      var n := |states| - 1;
      SelectMultiset(states[..n], p);
      assert states == states[..n] + [states[n]];
      assert multiset(states) == multiset(states[..n]) + multiset{states[n]};
    }
  }

  lemma SelectSplits(states: seq<SimState>, p: SimState -> bool)
    ensures multiset(Select(states, p, false)) + multiset(Select(states, p, true)) == multiset(states)
    ensures |Select(states, p, false)| + |Select(states, p, true)| == |states|
    ensures forall s :: s in Select(states, p, true) ==> s in states && p(s)
    ensures forall s :: s in Select(states, p, false) ==> s in states && !p(s)
  {
    SelectMultiset(states, p);
    SelectMembers(states, p, false);
    SelectMembers(states, p, true);
  }

  /** What one public stash operation does to the stashes. */
  datatype Op =
    | Move(from: string, to: string, p: SimState -> bool)
    | Split(from: string, to: string, limit: nat)
    | Rank(from: string, to: string, limit: nat, sorted: seq<SimState>)

  /** The stash exists, neither stash is dropped, and a ranker only reorders. */
  predicate Ordinary(m: Stashes, drop: set<string>, op: Op) {
    && op.from in m && op.from !in drop && op.to !in drop
    && (op.Rank? ==> multiset(op.sorted) == multiset(m[op.from]))
  }

  function Cut(states: seq<SimState>, limit: nat): (seq<SimState>, seq<SimState>) {
    if limit <= |states| then (states[..limit], states[limit..]) else (states, [])
  }

  function Apply(m: Stashes, drop: set<string>, op: Op): Stashes
    requires op.from in m
  {
    match op
    case Move(from, to, p) => Divide(m, drop, from, to, Select(m[from], p, false), Select(m[from], p, true))
    case Split(from, to, limit) => var c := Cut(m[from], limit); Divide(m, drop, from, to, c.0, c.1)
    case Rank(from, to, limit, sorted) => var c := Cut(sorted, limit); Divide(m, drop, from, to, c.0, c.1)
  }

  lemma CutSplits(states: seq<SimState>, limit: nat)
    ensures multiset(Cut(states, limit).0) + multiset(Cut(states, limit).1) == multiset(states)
  {
    if limit <= |states| { assert states == states[..limit] + states[limit..]; }
  }

  lemma ApplyConserves(m: Stashes, drop: set<string>, op: Op)
    requires Ordinary(m, drop, op)
    ensures Total(Apply(m, drop, op)) == Total(m)
  {
    match op
    case Move(from, to, p) =>
      SelectSplits(m[from], p);
      DivideTotal(m, drop, from, to, Select(m[from], p, false), Select(m[from], p, true));
    case Split(from, to, limit) =>
      CutSplits(m[from], limit);
      var c := Cut(m[from], limit);
      DivideTotal(m, drop, from, to, c.0, c.1);
    case Rank(from, to, limit, sorted) =>
      CutSplits(sorted, limit);
      var c := Cut(sorted, limit);
      DivideTotal(m, drop, from, to, c.0, c.1);
  }

  /** A run in which every operation is ordinary when its turn comes. */
  ghost predicate Runs(m: Stashes, drop: set<string>, ops: seq<Op>, last: Stashes)
    decreases ops
  {
    if ops == [] then m == last
    else Ordinary(m, drop, ops[0]) && Runs(Apply(m, drop, ops[0]), drop, ops[1..], last)
  }

  /** Over any run of move, stash, unstash and split the multiset of managed states is conserved. */
  lemma {:induction false} RunConserves(m: Stashes, drop: set<string>, ops: seq<Op>, last: Stashes)
    requires Runs(m, drop, ops, last)
    ensures Total(last) == Total(m)
    decreases ops
  {
    if ops != [] {
      ApplyConserves(m, drop, ops[0]);
      RunConserves(Apply(m, drop, ops[0]), drop, ops[1..], last);
    }
  }

  /** Selecting keeps exactly the states that satisfy the condition, in order. */
  lemma {:induction false} SelectPicked(states: seq<SimState>, p: SimState -> bool, want: bool)
    ensures Picked(states, s => p(s) == want, Select(states, p, want))
  {
    var q := s => p(s) == want;
    if states == [] {
      PickedNone(q);
    } else {
      var n := |states| - 1;
      SelectPicked(states[..n], p, want);
      PickedLast(states, q, Select(states[..n], p, want));
    }
  }

  /** What a stash holds after states were taken out of one and put behind another. */
  lemma DivideStashes(m: Stashes, drop: set<string>, from: string, to: string, keep: seq<SimState>, split: seq<SimState>, k: string)
    requires from in m && from !in drop && to !in drop
    ensures StatesIn(Divide(m, drop, from, to, keep, split), k)
         == if from == to then (if k == from then keep + split else StatesIn(m, k))
            else if k == from then keep else if k == to then StatesIn(m, to) + split else StatesIn(m, k)
  {
  }

  /** Splitting by a limit keeps the first states in order, and puts the rest behind what the other stash
      had. */
  lemma SplitStashes(m: Stashes, drop: set<string>, from: string, to: string, limit: nat, k: string)
    requires from in m && from !in drop && to !in drop && from != to
    ensures var states, n := m[from], if limit < |m[from]| then limit else |m[from]|;
            StatesIn(Apply(m, drop, Split(from, to, limit)), k)
            == if k == from then states[..n] else if k == to then StatesIn(m, to) + states[n..] else StatesIn(m, k)
  {
    var states := m[from];
    DivideStashes(m, drop, from, to, Cut(states, limit).0, Cut(states, limit).1, k);
    assert states[..|states|] == states && states[|states|..] == [];
  }

  /** A split by rank keeps the first of the sorted states: none of them ranks above one that goes, and as
      many stay as the limit allows. */
  lemma RankStashes(m: Stashes, drop: set<string>, from: string, to: string, limit: nat, sorted: seq<SimState>, rank: SimState -> int)
    requires Ordinary(m, drop, Rank(from, to, limit, sorted)) && from != to
    requires forall i, j :: 0 <= i < j < |sorted| ==> rank(sorted[i]) <= rank(sorted[j])
    ensures var after, n := Apply(m, drop, Rank(from, to, limit, sorted)), if limit < |m[from]| then limit else |m[from]|;
            && n <= |sorted| && StatesIn(after, from) == sorted[..n] && StatesIn(after, to) == StatesIn(m, to) + sorted[n..]
            && forall x, y :: x in sorted[..n] && y in sorted[n..] ==> rank(x) <= rank(y)
  {
    assert |multiset(sorted)| == |multiset(m[from])|;
    var c := Cut(sorted, limit);
    DivideStashes(m, drop, from, to, c.0, c.1, from);
    DivideStashes(m, drop, from, to, c.0, c.1, to);
    assert sorted[..|sorted|] == sorted && sorted[|sorted|..] == [];
    LowestFirst(sorted, |c.0|, rank);
  }

  lemma LowestFirst(sorted: seq<SimState>, n: nat, rank: SimState -> int)
    requires n <= |sorted| && forall i, j :: 0 <= i < j < |sorted| ==> rank(sorted[i]) <= rank(sorted[j])
    ensures forall x, y :: x in sorted[..n] && y in sorted[n..] ==> rank(x) <= rank(y)
  {
    forall x, y | x in sorted[..n] && y in sorted[n..] ensures rank(x) <= rank(y) {
      var i :| 0 <= i < n && sorted[i] == x;
      var j :| 0 <= j < |sorted[n..]| && sorted[n..][j] == y;
      assert rank(sorted[i]) <= rank(sorted[n + j]);
    }
  }

  /** Moving keeps the states that do not satisfy the condition, in order, and puts those that do, in
      order, behind what the other stash had. */
  lemma MoveStashes(m: Stashes, drop: set<string>, from: string, to: string, p: SimState -> bool)
    requires from in m && from !in drop && to !in drop && from != to
    ensures var after, moved := Apply(m, drop, Move(from, to, p)), Select(m[from], p, true);
            && Picked(m[from], s => p(s) == true, moved) && Picked(m[from], s => p(s) == false, StatesIn(after, from))
            && StatesIn(after, to) == StatesIn(m, to) + moved
            && forall k :: k != from && k != to ==> StatesIn(after, k) == StatesIn(m, k)
  {
    var keep, moved := Select(m[from], p, false), Select(m[from], p, true);
    SelectPicked(m[from], p, true);
    SelectPicked(m[from], p, false);
    forall k ensures StatesIn(Divide(m, drop, from, to, keep, moved), k)
                  == if k == from then keep else if k == to then StatesIn(m, to) + moved else StatesIn(m, k)
    {
      DivideStashes(m, drop, from, to, keep, moved, k);
    }
  }

  // ------------------------------------------------- stepping one state

  datatype Outcome =
    | Successors(flat: seq<SimState>, unsat: seq<SimState>, unconstrained: seq<SimState>)
    | Unsatisfiable(lazy: bool)
    | Interrupted
    | Failed

  datatype Goto = Goto(stash: Option<string>, state: SimState)

  /** Everything `step` is told. */
  datatype Plan = Plan(
    stash: string,
    target: string,
    saveUnsat: bool,
    filter: SimState -> Goto,
    selector: SimState -> bool,
    execute: SimState -> Outcome)

  datatype Part = Part(stash: string, states: seq<SimState>)
  datatype Stepped = Stepped(parts: seq<Part>, errors: seq<SimState>)

  /** What one state adds to the bucket and to the error list. */
  function StepOne(plan: Plan, s: SimState): Stepped {
    var goto := plan.filter(s);
    var state := goto.state;
    if goto.stash.Some? && goto.stash.value != plan.stash then Stepped([Part(goto.stash.value, [state])], [])
    else if !plan.selector(state) then Stepped([Part(plan.stash, [state])], [])
    else
      match plan.execute(state)
      case Unsatisfiable(lazy) => if lazy then Stepped([Part("pruned", [state])], []) else Stepped([], [state])
      case Interrupted => Stepped([Part("interrupted", [state])], [])
      case Failed => Stepped([], [state])
      case Successors(flat, unsat, unconstrained) => Stepped(SuccessorParts(plan, state, flat, unsat, unconstrained), [])
  }

  function SuccessorParts(plan: Plan, state: SimState, flat: seq<SimState>, unsat: seq<SimState>, unconstrained: seq<SimState>): seq<Part> {
    if flat == [] && unconstrained == [] then
      if unsat != [] then [Part(plan.target, flat), Part("unsat", unsat), Part("unconstrained", [])]
      else [Part("deadended", [state])]
    else if plan.saveUnsat then [Part(plan.target, flat), Part("unsat", unsat), Part("unconstrained", unconstrained)]
    else [Part(plan.target, flat), Part("unconstrained", unconstrained)]
  }

  predicate IsSuccessor(o: Outcome, x: SimState) {
    o.Successors? && (x in o.flat || x in o.unsat || x in o.unconstrained)
  }

  /** Where a state of the stepped stash can end up: in the bucket, in an error record, or in the
      bucket through a successor. */
  ghost predicate AccountedFor(plan: Plan, s: SimState, bucket: Stashes, errors: seq<SimState>) {
    var state := plan.filter(s).state;
    || (exists k :: InBucket(bucket, k, state))
    || state in errors
    || (exists k, x :: InBucket(bucket, k, x) && IsSuccessor(plan.execute(state), x))
  }

  function PutParts(bucket: Stashes, parts: seq<Part>): Stashes
    decreases parts
  {
    if parts == [] then bucket
    else PutParts(Store(bucket, {}, parts[0].stash, parts[0].states), parts[1..])
  }

  predicate InBucket(b: Stashes, k: string, x: SimState) { k in b && x in b[k] }

  lemma {:induction false} PutPartsKeeps(bucket: Stashes, parts: seq<Part>)
    ensures forall k, x :: InBucket(bucket, k, x) ==> InBucket(PutParts(bucket, parts), k, x)
    ensures forall i, x :: 0 <= i < |parts| && x in parts[i].states ==> InBucket(PutParts(bucket, parts), parts[i].stash, x)
    decreases parts
  {
    if parts != [] {
      var next := Store(bucket, {}, parts[0].stash, parts[0].states);
      PutPartsKeeps(next, parts[1..]);
      forall k, x | InBucket(bucket, k, x) ensures InBucket(PutParts(bucket, parts), k, x) {
        assert InBucket(next, k, x);
      }
      forall i, x | 0 <= i < |parts| && x in parts[i].states ensures InBucket(PutParts(bucket, parts), parts[i].stash, x) {
        if i == 0 { assert InBucket(next, parts[0].stash, x); } else { assert parts[1..][i - 1] == parts[i]; }
      }
    }
  }

  /** Stepping a state leaves it, an error record of it, or one of its successors behind. */
  lemma StepOneAccounts(plan: Plan, s: SimState, bucket: Stashes, errors: seq<SimState>)
    ensures var r := StepOne(plan, s);
            AccountedFor(plan, s, PutParts(bucket, r.parts), errors + r.errors)
  {
    var r := StepOne(plan, s);
    PutPartsKeeps(bucket, r.parts);
    var state, out := plan.filter(s).state, PutParts(bucket, r.parts);
    if r.errors != [] {
      assert state in errors + r.errors;
    } else if |r.parts| == 1 {
      assert state in r.parts[0].states;
      assert InBucket(out, r.parts[0].stash, state);
    } else {
      var last := |r.parts| - 1;
      assert r.parts[0].states != [] || r.parts[1].states != [] || r.parts[last].states != [];
      var x, i := Witness(r.parts);
      assert InBucket(out, r.parts[i].stash, x);
      assert IsSuccessor(plan.execute(state), x);
    }
  }

  /** The states that one state of the stepped stash sends to stash `k`, in order: itself when it is
      rerouted, kept, pruned, interrupted or deadended, its successors otherwise. Unsatisfiable
      successors are dropped unless they are saved or there are no others. */
  function Sent(plan: Plan, s: SimState, k: string): seq<SimState> {
    var goto := plan.filter(s);
    var state := goto.state;
    if goto.stash.Some? && goto.stash.value != plan.stash then Only(k == goto.stash.value, [state])
    else if !plan.selector(state) then Only(k == plan.stash, [state])
    else
      match plan.execute(state)
      case Unsatisfiable(lazy) => Only(lazy && k == "pruned", [state])
      case Interrupted => Only(k == "interrupted", [state])
      case Failed => []
      case Successors(flat, unsat, unconstrained) =>
        if flat == unsat == unconstrained == [] then Only(k == "deadended", [state])
        else SentSuccessors(plan, flat, unsat, unconstrained, k)
  }

  function SentSuccessors(plan: Plan, flat: seq<SimState>, unsat: seq<SimState>, unconstrained: seq<SimState>, k: string): seq<SimState> {
    var keepUnsat := plan.saveUnsat || flat == unconstrained == [];
    Only(k == plan.target, flat) + Only(keepUnsat && k == "unsat", unsat) + Only(k == "unconstrained", unconstrained)
  }

  function Only(c: bool, states: seq<SimState>): seq<SimState> { if c then states else [] }

  /** The error record that one state leaves. */
  function Faults(plan: Plan, s: SimState): seq<SimState> {
    var goto := plan.filter(s);
    var rerouted := goto.stash.Some? && goto.stash.value != plan.stash;
    var out := plan.execute(goto.state);
    Only(!rerouted && plan.selector(goto.state) && (out.Failed? || (out.Unsatisfiable? && !out.lazy)), [goto.state])
  }

  function SentAll(plan: Plan, states: seq<SimState>, n: nat, k: string): seq<SimState>
    requires n <= |states|
  {
    if n == 0 then [] else SentAll(plan, states, n - 1, k) + Sent(plan, states[n - 1], k)
  }

  function FaultsAll(plan: Plan, states: seq<SimState>, n: nat): seq<SimState>
    requires n <= |states|
  {
    if n == 0 then [] else FaultsAll(plan, states, n - 1) + Faults(plan, states[n - 1])
  }

  function PartsFor(parts: seq<Part>, k: string): seq<SimState> {
    if parts == [] then [] else Only(parts[0].stash == k, parts[0].states) + PartsFor(parts[1..], k)
  }

  lemma {:induction false} PutPartsExact(bucket: Stashes, parts: seq<Part>, k: string)
    ensures StatesIn(PutParts(bucket, parts), k) == StatesIn(bucket, k) + PartsFor(parts, k)
    decreases parts
  {
    if parts != [] {
      PutPartsExact(Store(bucket, {}, parts[0].stash, parts[0].states), parts[1..], k);
    }
  }

  lemma PartsForOne(a: Part, k: string)
    ensures PartsFor([a], k) == Only(a.stash == k, a.states)
  {
    PartsForCons(a, [], k);
    assert [a] + [] == [a];
  }

  lemma PartsForTwo(a: Part, b: Part, k: string)
    ensures PartsFor([a, b], k) == Only(a.stash == k, a.states) + Only(b.stash == k, b.states)
  {
    PartsForOne(b, k);
    PartsForCons(a, [b], k);
    assert [a] + [b] == [a, b];
  }

  lemma PartsForThree(a: Part, b: Part, c: Part, k: string)
    ensures PartsFor([a, b, c], k)
         == Only(a.stash == k, a.states) + Only(b.stash == k, b.states) + Only(c.stash == k, c.states)
  {
    PartsForTwo(b, c, k);
    PartsForCons(a, [b, c], k);
    assert [a] + [b, c] == [a, b, c];
  }

  lemma PartsForCons(a: Part, rest: seq<Part>, k: string)
    ensures PartsFor([a] + rest, k) == Only(a.stash == k, a.states) + PartsFor(rest, k)
  {
    assert ([a] + rest)[1..] == rest;
  }

  lemma SuccessorsExact(plan: Plan, state: SimState, flat: seq<SimState>, unsat: seq<SimState>, unconstrained: seq<SimState>, k: string)
    ensures PartsFor(SuccessorParts(plan, state, flat, unsat, unconstrained), k)
         == if flat == unsat == unconstrained == [] then Only(k == "deadended", [state])
            else SentSuccessors(plan, flat, unsat, unconstrained, k)
  {
    var t, u, c := Part(plan.target, flat), Part("unsat", unsat), Part("unconstrained", unconstrained);
    PartsForThree(t, u, c, k);
    PartsForTwo(t, c, k);
    PartsForOne(Part("deadended", [state]), k);
  }

  lemma PartsSent(plan: Plan, s: SimState, k: string)
    ensures PartsFor(StepOne(plan, s).parts, k) == Sent(plan, s, k)
  {
    var goto := plan.filter(s);
    var state := goto.state;
    if goto.stash.Some? && goto.stash.value != plan.stash {
      PartsForOne(Part(goto.stash.value, [state]), k);
    } else if !plan.selector(state) {
      PartsForOne(Part(plan.stash, [state]), k);
    } else {
      match plan.execute(state)
      case Successors(flat, unsat, unconstrained) => SuccessorsExact(plan, state, flat, unsat, unconstrained, k);
      case Unsatisfiable(_) => PartsForOne(Part("pruned", [state]), k);
      case Interrupted => PartsForOne(Part("interrupted", [state]), k);
      case Failed =>
    }
  }

  /** Stepping one state adds to every stash of the bucket exactly what the state sends there. */
  lemma StepOneExact(plan: Plan, s: SimState, bucket: Stashes, k: string)
    ensures StatesIn(PutParts(bucket, StepOne(plan, s).parts), k) == StatesIn(bucket, k) + Sent(plan, s, k)
  {
    PutPartsExact(bucket, StepOne(plan, s).parts, k);
    PartsSent(plan, s, k);
  }

  lemma StepOneFaults(plan: Plan, s: SimState)
    ensures StepOne(plan, s).errors == Faults(plan, s)
  {
  }

  lemma Witness(parts: seq<Part>) returns (x: SimState, i: nat)
    requires exists j :: 0 <= j < |parts| && parts[j].states != []
    ensures i < |parts| && x in parts[i].states
  {
    i :| 0 <= i < |parts| && parts[i].states != [];
    x := parts[i].states[0];
  }

  lemma AccountedMonotone(plan: Plan, s: SimState, b: Stashes, e: seq<SimState>, b': Stashes, e': seq<SimState>)
    requires AccountedFor(plan, s, b, e)
    requires forall k, x :: InBucket(b, k, x) ==> InBucket(b', k, x)
    requires forall x :: x in e ==> x in e'
    ensures AccountedFor(plan, s, b', e')
  {
  }

  ghost predicate AllAccounted(plan: Plan, states: seq<SimState>, bucket: Stashes, errors: seq<SimState>) {
    forall s :: s in states ==> AccountedFor(plan, s, bucket, errors)
  }

  lemma OneMore(plan: Plan, states: seq<SimState>, i: nat, bucket: Stashes, errors: seq<SimState>)
    requires i < |states| && AllAccounted(plan, states[..i], bucket, errors)
    ensures var r := StepOne(plan, states[i]);
            AllAccounted(plan, states[..i + 1], PutParts(bucket, r.parts), errors + r.errors)
  {
    var r := StepOne(plan, states[i]);
    StepOneAccounts(plan, states[i], bucket, errors);
    PutPartsKeeps(bucket, r.parts);
    forall s | s in states[..i + 1] ensures AccountedFor(plan, s, PutParts(bucket, r.parts), errors + r.errors) {
      if s in states[..i] {
        AccountedMonotone(plan, s, bucket, errors, PutParts(bucket, r.parts), errors + r.errors);
      }
    }
  }

  // ------------------------------------------------- merging

  /** The given states inside a state, with multiplicity. */
  function Leaves(s: SimState): multiset<SimState> {
    match s
    case Given(_, _) => multiset{s}
    case Merged(parts, _) => LeavesOf(parts)
  }

  function LeavesOf(states: seq<SimState>): multiset<SimState> {
    if states == [] then multiset{} else Leaves(states[0]) + LeavesOf(states[1..])
  }

  lemma Regroup(a: multiset<SimState>, b: multiset<SimState>, c: multiset<SimState>, bc: multiset<SimState>, all: multiset<SimState>)
    requires b + c == bc && a + bc == all
    ensures a + b + c == all
  {
  }

  lemma SameFirst(a: seq<SimState>, b: seq<SimState>)
    requires a != []
    ensures a + b == [a[0]] + (a[1..] + b)
  {
  }

  lemma {:induction false} LeavesConcat(a: seq<SimState>, b: seq<SimState>)
    ensures LeavesOf(a + b) == LeavesOf(a) + LeavesOf(b)
  {
    if a == [] {
      assert a + b == b;
    } else {
      LeavesConcat(a[1..], b);
      SameFirst(a, b);
      LeavesCons(a[0], a[1..] + b);
      Regroup(Leaves(a[0]), LeavesOf(a[1..]), LeavesOf(b), LeavesOf(a[1..] + b), LeavesOf(a + b));
    }
  }

  function Without(b: seq<SimState>, i: nat): seq<SimState>
    requires i < |b|
  {
    b[..i] + b[i + 1..]
  }

  lemma WithoutMultiset(b: seq<SimState>, i: nat)
    requires i < |b|
    ensures multiset(b) == multiset{b[i]} + multiset(Without(b, i))
  {
    assert b == b[..i] + ([b[i]] + b[i + 1..]);
  }

  lemma Bring(whole: multiset<SimState>, front: multiset<SimState>, one: multiset<SimState>, back: multiset<SimState>,
              mid: multiset<SimState>, rest: multiset<SimState>)
    requires mid == one + back && whole == front + mid && rest == front + back
    ensures whole == one + rest
  {
  }

  lemma LeavesCons(x: SimState, rest: seq<SimState>)
    ensures LeavesOf([x] + rest) == Leaves(x) + LeavesOf(rest)
  {
    assert ([x] + rest)[1..] == rest;
  }

  lemma {:induction false} WithoutLeaves(b: seq<SimState>, i: nat)
    requires i < |b|
    ensures LeavesOf(b) == Leaves(b[i]) + LeavesOf(Without(b, i))
    decreases i
  {
    if i == 0 {
      assert Without(b, 0) == b[1..];
    } else {
      var rest := Without(b[1..], i - 1);
      WithoutLeaves(b[1..], i - 1);
      assert Without(b, i) == [b[0]] + rest;
      LeavesCons(b[0], rest);
      Bring(LeavesOf(b), Leaves(b[0]), Leaves(b[i]), LeavesOf(rest), LeavesOf(b[1..]), LeavesOf(Without(b, i)));
    }
  }

  lemma CancelOne(x: SimState, m: multiset<SimState>, n: multiset<SimState>)
    requires multiset{x} + m == multiset{x} + n
    ensures m == n
  {
    assert m == multiset{x} + m - multiset{x} && n == multiset{x} + n - multiset{x};
  }

  lemma {:induction false} LeavesPermuted(a: seq<SimState>, b: seq<SimState>)
    requires multiset(a) == multiset(b)
    ensures LeavesOf(a) == LeavesOf(b)
  {
    if a == [] {
      assert |multiset(b)| == 0;
    } else {
      var i := Occurrence(a, b);
      WithoutMultiset(a, 0);
      WithoutMultiset(b, i);
      CancelOne(a[0], multiset(Without(a, 0)), multiset(Without(b, i)));
      LeavesPermuted(Without(a, 0), Without(b, i));
      WithoutLeaves(a, 0);
      WithoutLeaves(b, i);
    }
  }

  lemma Occurrence(a: seq<SimState>, b: seq<SimState>) returns (i: nat)
    requires multiset(a) == multiset(b) && a != []
    ensures i < |b| && b[i] == a[0]
  {
    assert a[0] in multiset(b);
    i :| 0 <= i < |b| && b[i] == a[0];
  }

  lemma LeavesSingle(s: SimState)
    ensures LeavesOf([s]) == Leaves(s)
  {
    assert [s][1..] == [];
  }

  /** A number above every node of a set. */
  method Above(s: set<Node>) returns (n: Node)
    ensures forall x :: x in s ==> x < n
  {
    n := 0;
    var todo := s;
    while todo != {}
      invariant todo <= s
      invariant forall x :: x in s && x !in todo ==> x < n
    {
      var x :| x in todo;
      todo := todo - {x};
      if x >= n { n := x + 1; }
    }
  }

  ghost predicate GoodTraversal(t: Graph -> seq<Node>) {
    forall g :: WfGraph(g) && Acyclic(g) ==> IsPostorder(g, t(g))
  }

  ghost function SomePostorder(g: Graph): seq<Node> {
    if WfGraph(g) && Acyclic(g) then
      PostorderExists(g);
      var order :| IsPostorder(g, order);
      order
    else []
  }

  /** There is such a traversal, so nothing that asks for one is empty. */
  lemma TraversalExists()
    ensures exists t :: GoodTraversal(t)
  {
    assert GoodTraversal(g => SomePostorder(g));
  }

  /** Some states made of these leaves cannot be merged. */
  ghost predicate Unmergeable(how: Merger, leaves: multiset<SimState>) {
    exists l :: l != [] && !how.compatible(l) && LeavesOf(l) <= leaves
  }

  /** The states to merge now, and the others. */
  method ChooseOptimal(hierarchy: StateHierarchy?, how: Merger, states: seq<SimState>)
    returns (optimal: seq<SimState>, others: seq<SimState>)
    requires GoodTraversal(how.traversal) && (hierarchy != null ==> hierarchy.Valid())
    ensures LeavesOf(optimal) + LeavesOf(others) == LeavesOf(states)
    ensures |optimal| + |others| == |states| && (others != [] ==> hierarchy != null && |optimal| >= 2)
    ensures hierarchy != null ==> Chosen(hierarchy.graph, states, optimal, others)
    ensures hierarchy == null ==> optimal == states
  {
    optimal, others := states, [];
    if hierarchy != null {
      var found := MostMergeable(states, hierarchy.graph, how.traversal(hierarchy.graph));
      if found.Found? {
        optimal, others := found.optimal, found.others;
        LeavesPermuted(optimal + others, states);
        LeavesConcat(optimal, others);
        FoundChosen(hierarchy.graph, states, found.common);
      } else {
        NothingChosen(hierarchy.graph, states);
      }
    }
  }

  /** A history for a merged state, under its parent. */
  method AddMergedHistory(hierarchy: StateHierarchy?, parent: Option<Node>) returns (history: Node)
    requires hierarchy != null ==> hierarchy.Valid()
    modifies hierarchy
    ensures hierarchy != null ==> hierarchy.Valid()
    ensures hierarchy != null ==>
              && history !in old(GraphOf(hierarchy)).nodes && parent != Some(history)
              && AddedTo(old(hierarchy.View()), hierarchy.View(), history, parent)
    ensures hierarchy == null ==> history == 0
  {
    history := 0;
    if hierarchy != null {
      history := Above(hierarchy.graph.nodes + if parent.Some? then {parent.value} else {});
      hierarchy.AddHistory(history, parent);
    }
  }

  /** What the hierarchy keeps, nothing without one. */
  ghost function UpkeepOf(h: StateHierarchy?): Upkeep
    reads h
  {
    if h == null then Upkeep(Graph({}, {}), {}, {}) else h.View()
  }

  ghost function GraphOf(h: StateHierarchy?): Graph
    reads h
  {
    UpkeepOf(h).graph
  }

  ghost function TwigsOf(h: StateHierarchy?): set<Node>
    reads h
  {
    UpkeepOf(h).twigs
  }

  /** What one round leaves: the leaves are those of its states, and the group is all of them unless
      there is something to go on with. */
  ghost predicate RoundParts(states: seq<SimState>, round: Round, others: seq<SimState>) {
    && round.states == states && round.rest == others && round.group != []
    && LeavesOf(round.group) + LeavesOf(others) == LeavesOf(states)
    && |round.group| + |others| == |states| && (others != [] ==> |round.group| >= 2)
  }

  /** One round of `_merge_states`; without a merged state the group could not be merged. */
  method MergeRound(hierarchy: StateHierarchy?, how: Merger, states: seq<SimState>)
    returns (merged: Option<SimState>, others: seq<SimState>, ghost round: Round)
    requires states != [] && GoodTraversal(how.traversal) && (hierarchy != null ==> hierarchy.Valid())
    modifies hierarchy
    ensures hierarchy != null ==> hierarchy.Valid()
    ensures RoundParts(states, round, others) && (hierarchy == null ==> round.group == states)
    ensures merged == if how.compatible(round.group) then Some(round.merged) else None
    ensures merged.Some? ==> round.merged == Merged(round.group, if hierarchy == null then 0 else round.merged.history)
    ensures round.before == old(GraphOf(hierarchy)) && round.after == GraphOf(hierarchy)
    ensures hierarchy != null ==> GoodRound(how, round)
  {
    ghost var before := GraphOf(hierarchy);
    var optimal;
    optimal, others := ChooseOptimal(hierarchy, how, states);
    if !how.compatible(optimal) {
      return None, others, Round(before, states, optimal, others, states[0], before);
    }
    var history := AddMergedHistory(hierarchy, how.parentOf(optimal));
    merged := Some(Merged(optimal, history));
    round := Round(before, states, optimal, others, merged.value, GraphOf(hierarchy));
  }

  /** `_merge_states`: merges the states under their deepest common ancestor, then merges the result
      with the rest.  Every list of states ends in one state holding each of them exactly once, nested
      as the rounds say, each of which chooses on the graph as it then is; without a hierarchy the code
      looks up the ancestor of nothing and fails. */
  method MergeStates(hierarchy: StateHierarchy?, how: Merger, states: seq<SimState>) returns (r: MergeResult, ghost rounds: seq<Round>)
    requires states != [] && GoodTraversal(how.traversal)
    requires hierarchy != null ==> hierarchy.Valid()
    modifies hierarchy
    ensures hierarchy != null ==> hierarchy.Valid()
    ensures r.NoHierarchy? <==> hierarchy == null && |states| >= 2
    ensures MergedLeaves(how, states, r)
    ensures hierarchy != null ==> MergedBy(how, old(GraphOf(hierarchy)), states, rounds, r, GraphOf(hierarchy))
    ensures hierarchy == null && |states| == 1 ==> r == if how.compatible(states) then Done(Merged(states, 0)) else MergeError
    decreases |states|
  {
    rounds := [];
    if hierarchy == null && |states| >= 2 {
      return NoHierarchy, rounds;
    }
    var merged, others;
    ghost var round;
    merged, others, round := MergeRound(hierarchy, how, states);
    if merged.None? || others == [] {
      r := if merged.None? then MergeError else Done(merged.value);
      LastLeaves(how, states, round, others, r);
      if hierarchy != null { LastRound(how, round, r); }
      rounds := [round];
    } else {
      r, rounds := MergeStates(hierarchy, how, others + [merged.value]);
      MoreLeaves(how, states, round, others, r);
      if hierarchy != null { FirstRound(how, round, rounds, r, GraphOf(hierarchy)); }
      rounds := [round] + rounds;
    }
  }

  /** A merged state holds the leaves of all states; an error means that some of them cannot be merged. */
  ghost predicate MergedLeaves(how: Merger, states: seq<SimState>, r: MergeResult) {
    match r
    case Done(s) => s.Merged? && Leaves(s) == LeavesOf(states)
    case MergeError => Unmergeable(how, LeavesOf(states))
    case NoHierarchy => true
  }

  lemma LastLeaves(how: Merger, states: seq<SimState>, round: Round, others: seq<SimState>, r: MergeResult)
    requires RoundParts(states, round, others)
    requires how.compatible(round.group) ==> others == [] && round.merged.Merged? && round.merged.parts == round.group
    requires r == if how.compatible(round.group) then Done(round.merged) else MergeError
    ensures MergedLeaves(how, states, r)
  {
  }

  lemma MoreLeaves(how: Merger, states: seq<SimState>, round: Round, others: seq<SimState>, r: MergeResult)
    requires RoundParts(states, round, others) && round.merged.Merged? && round.merged.parts == round.group
    requires MergedLeaves(how, others + [round.merged], r)
    ensures MergedLeaves(how, states, r)
  {
    LeavesConcat(others, [round.merged]);
    LeavesSingle(round.merged);
  }

  // ------------------------------------------------- the mutable manager

  class SimulationManager {
    var stashes: Stashes
    var errored: seq<SimState>
    var hierarchy: StateHierarchy?
    const autoDrop: set<string>

    constructor (autoDrop: set<string>)
      ensures stashes == map[] && errored == [] && this.autoDrop == autoDrop + {"_DROP"}
      ensures fresh(hierarchy) && hierarchy != null && hierarchy.Valid()
    {
      stashes, errored := map[], [];
      hierarchy := new StateHierarchy();
      this.autoDrop := autoDrop + {"_DROP"};
    }

    method StoreStates(stash: string, states: seq<SimState>)
      modifies this`stashes
      ensures stashes == Store(old(stashes), autoDrop, stash, states)
    {
      if stash !in autoDrop {
        if stash !in stashes {
          stashes := stashes[stash := []];
        }
        stashes := stashes[stash := stashes[stash] + states];
        assert stashes == Store(old(stashes), autoDrop, stash, states);
      }
    }

    /** `split` once its callback has chosen; a missing stash is an attribute error. */
    method Replace(from: string, to: string, keep: seq<SimState>, split: seq<SimState>)
      requires from in stashes
      modifies this`stashes
      ensures stashes == Divide(old(stashes), autoDrop, from, to, keep, split)
    {
      stashes := stashes[from := []];
      StoreStates(from, keep);
      StoreStates(to, split);
    }

    method MoveStates(from: string, to: string, p: SimState -> bool) returns (ok: bool)
      modifies this`stashes
      ensures ok <==> from in old(stashes)
      ensures !ok ==> stashes == old(stashes)
      ensures ok ==> stashes == Apply(old(stashes), autoDrop, Move(from, to, p))
    {
      if from !in stashes { return false; }
      var hit, miss := FilterStates(p, stashes[from]);
      Replace(from, to, miss, hit);
      ok := true;
    }

    method SplitStates(from: string, to: string, limit: nat) returns (ok: bool)
      modifies this`stashes
      ensures ok <==> from in old(stashes)
      ensures !ok ==> stashes == old(stashes)
      ensures ok ==> stashes == Apply(old(stashes), autoDrop, Split(from, to, limit))
    {
      if from !in stashes { return false; }
      var states := stashes[from];
      if limit <= |states| { Replace(from, to, states[..limit], states[limit..]); } else { Replace(from, to, states, []); }
      ok := true;
    }

    /** `step`: fills a bucket from every state of the stash, then empties the stash and pours the
        bucket out.  No state of the stash is lost: each is in the bucket, named by an error record,
        or represented by a successor in the bucket. */
    method Step(plan: Plan) returns (ok: bool, bucket: Stashes)
      modifies this`stashes, this`errored
      ensures ok <==> plan.stash in old(stashes)
      ensures !ok ==> stashes == old(stashes) && errored == old(errored)
      ensures ok ==> forall k ::
                StatesIn(bucket, k) == SentAll(plan, old(stashes)[plan.stash], |old(stashes)[plan.stash]|, k)
      ensures ok ==>
                errored == old(errored) + FaultsAll(plan, old(stashes)[plan.stash], |old(stashes)[plan.stash]|)
      ensures ok ==> forall s :: s in old(stashes)[plan.stash] ==> AccountedFor(plan, s, bucket, errored)
      ensures ok ==> forall k :: k !in autoDrop && k in bucket ==>
                k in stashes && stashes[k] == (if k == plan.stash then [] else StatesIn(old(stashes), k)) + bucket[k]
      ensures ok ==> forall k :: k in old(stashes) && (k in autoDrop || k !in bucket) ==>
                k in stashes && stashes[k] == if k == plan.stash then [] else old(stashes)[k]
    {
      bucket := map[];
      if plan.stash !in stashes { return false, bucket; }
      bucket := FillBucket(plan, stashes[plan.stash]);
      stashes := stashes[plan.stash := []];
      Pour(bucket);
      ok := true;
    }

    /** The loop over the stash. */
    method FillBucket(plan: Plan, states: seq<SimState>) returns (bucket: Stashes)
      modifies this`errored
      ensures forall k :: StatesIn(bucket, k) == SentAll(plan, states, |states|, k)
      ensures errored == old(errored) + FaultsAll(plan, states, |states|)
      ensures forall s :: s in states ==> AccountedFor(plan, s, bucket, errored)
    {
      bucket := map[];
      for i := 0 to |states|
        invariant forall k :: StatesIn(bucket, k) == SentAll(plan, states, i, k)
        invariant errored == old(errored) + FaultsAll(plan, states, i)
        invariant AllAccounted(plan, states[..i], bucket, errored)
      {
        var r := StepOne(plan, states[i]);
        OneMore(plan, states, i, bucket, errored);
        forall k ensures StatesIn(PutParts(bucket, r.parts), k) == SentAll(plan, states, i + 1, k) {
          StepOneExact(plan, states[i], bucket, k);
        }
        StepOneFaults(plan, states[i]);
        bucket := PutParts(bucket, r.parts);
        errored := errored + r.errors;
      }
      assert states[..|states|] == states;
    }

    method Pour(bucket: Stashes)
      modifies this`stashes
      ensures forall k :: k !in autoDrop && k in bucket ==>
                k in stashes && stashes[k] == StatesIn(old(stashes), k) + bucket[k]
      ensures forall k :: k in old(stashes) && (k in autoDrop || k !in bucket) ==>
                k in stashes && stashes[k] == old(stashes)[k]
    {
      var todo := bucket.Keys;
      while todo != {}
        invariant todo <= bucket.Keys
        invariant forall k :: k !in autoDrop && k in bucket && k !in todo ==>
          k in stashes && stashes[k] == StatesIn(old(stashes), k) + bucket[k]
        invariant forall k :: k in todo || k in autoDrop || k !in bucket ==>
          (k in stashes <==> k in old(stashes)) && StatesIn(stashes, k) == StatesIn(old(stashes), k)
      {
        var k :| k in todo;
        StoreStates(k, bucket[k]);
        todo := todo - {k};
      }
    }

    /** `prune`: moves the unsatisfiable states that match the filter, and prunes their histories. */
    method Prune(from: string, to: string, p: SimState -> bool, satisfiable: SimState -> bool, reachable: Node -> bool)
      returns (ok: bool)
      requires hierarchy != null ==> Sound(hierarchy, reachable)
      requires forall s :: !satisfiable(s) ==> !reachable(s.history)
      modifies this`stashes, hierarchy
      ensures hierarchy == old(hierarchy) && (hierarchy != null ==> Sound(hierarchy, reachable))
      ensures hierarchy != null ==> AncestryKept(old(GraphOf(hierarchy)), hierarchy.graph)
      ensures hierarchy != null ==> LostOnly(old(GraphOf(hierarchy)), old(TwigsOf(hierarchy)), hierarchy.graph, reachable)
      ensures hierarchy != null && ok ==> forall s :: s in StatesIn(old(stashes), from) && p(s) && !satisfiable(s) ==>
                s.history !in hierarchy.graph.nodes
      ensures hierarchy != null && !ok ==> hierarchy.View() == old(UpkeepOf(hierarchy))
      ensures ok <==> from in old(stashes)
      ensures !ok ==> stashes == old(stashes)
      ensures ok ==> stashes == Apply(old(stashes), autoDrop, Move(from, to, Prunes(p, satisfiable)))
      ensures ok && from != to && from !in autoDrop && to !in autoDrop ==>
                PrunedStashes(old(stashes), stashes, from, to, p, satisfiable)
    {
      if from in stashes && hierarchy != null {
        PruneHistories(hierarchy, stashes[from], Prunes(p, satisfiable), reachable);
      }
      ok := MoveStates(from, to, Prunes(p, satisfiable));
      if ok && from != to && from !in autoDrop && to !in autoDrop {
        PruneMoves(old(stashes), autoDrop, from, to, p, satisfiable);
      }
    }

    /** `merge` with its default of pruning the stash first. */
    method PruneAndMerge(stash: string, key: SimState -> int, how: Merger, satisfiable: SimState -> bool, reachable: Node -> bool)
      returns (r: MergeOutcome, ghost pruned: Stashes, ghost left: Graph, ghost classes: seq<seq<SimState>>,
               ghost parts: seq<seq<SimState>>, ghost merges: seq<Merging>)
      requires (hierarchy != null ==> Sound(hierarchy, reachable)) && GoodTraversal(how.traversal)
      requires forall s :: !satisfiable(s) ==> !reachable(s.history)
      modifies this`stashes, hierarchy
      ensures hierarchy == old(hierarchy) && (hierarchy != null ==> hierarchy.Valid())
      ensures r.NoSuchStash? <==> stash !in old(stashes)
      ensures r.NoSuchStash? ==> stashes == old(stashes)
      ensures !r.NoSuchStash? ==>
                && pruned == Apply(old(stashes), autoDrop, Move(stash, "pruned", Prunes(_ => true, satisfiable))) && stash in pruned
                && (stash != "pruned" && stash !in autoDrop && "pruned" !in autoDrop ==>
                      PrunedStashes(old(stashes), pruned, stash, "pruned", _ => true, satisfiable))
                && GroupedBy(key, pruned[stash], classes)
      ensures r.Crashed? <==> stash in old(stashes) && hierarchy == null && Groups(classes) != []
      ensures r.Crashed? ==> stashes == pruned
      ensures r.Stored? ==>
                && Folded(how, Groups(classes), parts)
                && Threaded(how, left, Groups(classes), parts, merges, GraphOf(hierarchy))
                && stashes == pruned[stash := if stash in autoDrop then [] else Singles(classes) + Concat(parts)]
    {
      pruned, left, classes, parts, merges := stashes, GraphOf(hierarchy), [], [], [];
      var ok := Prune(stash, "pruned", _ => true, satisfiable, reachable);
      if !ok { return NoSuchStash, pruned, left, classes, parts, merges; }
      pruned, left := stashes, GraphOf(hierarchy);
      r, classes, parts, merges := Merge(stash, key, how);
    }

    /** `merge`: groups the stash by key and merges each group of two or more; a group that cannot be
        merged is put back as it was.  Without a hierarchy the first merge fails, before anything is
        changed.  The given states inside the stash are conserved. */
    method Merge(stash: string, key: SimState -> int, how: Merger)
      returns (r: MergeOutcome, ghost classes: seq<seq<SimState>>, ghost parts: seq<seq<SimState>>, ghost merges: seq<Merging>)
      requires (hierarchy != null ==> hierarchy.Valid()) && GoodTraversal(how.traversal)
      modifies this`stashes, hierarchy
      ensures hierarchy == old(hierarchy) && (hierarchy != null ==> hierarchy.Valid())
      ensures r.NoSuchStash? <==> stash !in old(stashes)
      ensures !r.NoSuchStash? ==> GroupedBy(key, old(stashes)[stash], classes)
      ensures r.Crashed? <==> stash in old(stashes) && hierarchy == null && Groups(classes) != []
      ensures !r.Stored? ==> stashes == old(stashes)
      ensures r.Stored? ==> Folded(how, Groups(classes), parts)
      ensures r.Stored? ==> Threaded(how, old(GraphOf(hierarchy)), Groups(classes), parts, merges, GraphOf(hierarchy))
      ensures r.Stored? ==>
                stashes == old(stashes)[stash := if stash in autoDrop then [] else Singles(classes) + Concat(parts)]
    {
      parts, merges := [], [];
      if stash !in stashes { return NoSuchStash, [], [], []; }
      var done, crashed;
      done, crashed, classes, parts, merges := MergeByKey(hierarchy, how, key, stashes[stash]);
      if crashed { return Crashed, classes, parts, merges; }
      stashes := stashes[stash := []];
      StoreStates(stash, done);
      assert [] + done == done;
      r := Stored;
    }
  }

  /** The states that `prune` takes. */
  function Prunes(p: SimState -> bool, satisfiable: SimState -> bool): SimState -> bool {
    s => p(s) && !satisfiable(s)
  }

  /** The moved states are the unsatisfiable ones that match, in order; they are behind what their new stash
      had. */
  ghost predicate MovedBehind(m: Stashes, n: Stashes, from: string, to: string, p: SimState -> bool, satisfiable: SimState -> bool, moved: seq<SimState>)
    requires from in m
  {
    Picked(m[from], s => p(s) && !satisfiable(s), moved) && StatesIn(n, to) == StatesIn(m, to) + moved
  }

  /** Pruning leaves the satisfiable states, and those that do not match, in order where they were. */
  ghost predicate PrunedStashes(m: Stashes, n: Stashes, from: string, to: string, p: SimState -> bool, satisfiable: SimState -> bool)
    requires from in m
  {
    && (exists moved :: MovedBehind(m, n, from, to, p, satisfiable, moved))
    && Picked(m[from], s => !p(s) || satisfiable(s), StatesIn(n, from))
    && forall k :: k != from && k != to ==> StatesIn(n, k) == StatesIn(m, k)
  }

  lemma PruneMoves(m: Stashes, drop: set<string>, from: string, to: string, p: SimState -> bool, satisfiable: SimState -> bool)
    requires from in m && from !in drop && to !in drop && from != to
    ensures PrunedStashes(m, Apply(m, drop, Move(from, to, Prunes(p, satisfiable))), from, to, p, satisfiable)
  {
    var gone := Prunes(p, satisfiable);
    var n, moved := Apply(m, drop, Move(from, to, gone)), Select(m[from], gone, true);
    MoveStashes(m, drop, from, to, gone);
    PickedAs(m[from], s => gone(s) == true, s => p(s) && !satisfiable(s), moved);
    PickedAs(m[from], s => gone(s) == false, s => !p(s) || satisfiable(s), StatesIn(n, from));
    assert MovedBehind(m, n, from, to, p, satisfiable, moved);
  }

  /** A forest in which everything above a reachable history is reachable. */
  ghost predicate Sound(h: StateHierarchy, reachable: Node -> bool)
    reads h
  {
    h.Valid() && SingleParents(h.graph) && Monotone(h.graph, reachable)
  }

  /** The histories that are left have the ancestors they had. */
  ghost predicate AncestryKept(g: Graph, k: Graph) {
    k.nodes <= g.nodes && forall u, v :: u in k.nodes && v in k.nodes ==> (Reach(k, u, v) <==> Reach(g, u, v))
  }

  lemma KeptMonotone(g: Graph, k: Graph, reachable: Node -> bool)
    requires WfGraph(k) && Monotone(g, reachable) && AncestryKept(g, k)
    ensures Monotone(k, reachable)
  {
    forall u, v | Reach(k, u, v) && reachable(v) ensures reachable(u) {
      var p :| PathFrom(k, p, u, v);
      PathNodes(k, p, 0);
      PathNodes(k, p, |p| - 1);
      assert Reach(g, u, v);
    }
  }

  /** What went between two graphs: unreachable histories, the twigs there were, and reachable histories
      none of whose descendants is left. */
  ghost predicate LostOnly(g: Graph, twigs: set<Node>, k: Graph, reachable: Node -> bool) {
    forall x :: x in g.nodes && x !in k.nodes ==> MayGo(g, twigs, k, reachable, x)
  }

  ghost predicate MayGo(g: Graph, twigs: set<Node>, k: Graph, reachable: Node -> bool, x: Node) {
    !reachable(x) || x in twigs || forall y :: Reach(g, x, y) ==> y !in k.nodes
  }

  lemma LostTwice(g: Graph, twigs: set<Node>, k: Graph, later: set<Node>, l: Graph, reachable: Node -> bool)
    requires LostOnly(g, twigs, k, reachable) && LostOnly(k, later, l, reachable) && later <= twigs
    requires AncestryKept(g, k) && AncestryKept(k, l)
    ensures LostOnly(g, twigs, l, reachable)
  {
    forall x | x in g.nodes && x !in l.nodes ensures MayGo(g, twigs, l, reachable, x) {
      if x in k.nodes {
        assert MayGo(k, later, l, reachable, x);
      } else {
        assert MayGo(g, twigs, k, reachable, x);
      }
    }
  }

  /** Every history of an unsatisfiable state is pruned and the graph simplified after each: those
      histories are gone, and no reachable one went but twigs and those left without descendants. */
  method PruneHistories(h: StateHierarchy, states: seq<SimState>, p: SimState -> bool, reachable: Node -> bool)
    requires Sound(h, reachable) && forall s :: p(s) ==> !reachable(s.history)
    modifies h
    ensures Sound(h, reachable) && AncestryKept(old(h.graph), h.graph)
    ensures LostOnly(old(h.graph), old(h.twigs), h.graph, reachable)
    ensures forall s :: s in states && p(s) ==> s.history !in h.graph.nodes
  {
    for i := 0 to |states|
      invariant Sound(h, reachable) && AncestryKept(old(h.graph), h.graph) && h.twigs <= old(h.twigs)
      invariant LostOnly(old(h.graph), old(h.twigs), h.graph, reachable)
      invariant forall j :: 0 <= j < i && p(states[j]) ==> states[j].history !in h.graph.nodes
    {
      if p(states[i]) {
        ghost var g, twigs := h.graph, h.twigs;
        ghost var root := PruneHistory(h, states[i].history, reachable);
        LostTwice(old(h.graph), old(h.twigs), g, twigs, h.graph, reachable);
      }
    }
  }

  /** The subtree below an unreachable root, the twigs, and a parent that it leaves without children. */
  ghost predicate Cleared(g: Graph, twigs: set<Node>, root: Node, k: Graph) {
    forall x :: x in k.nodes <==> x in g.nodes && x != root && !Reach(g, root, x) && x !in twigs && !OnlyEdge(g, x, root)
  }

  /** One of them: what goes is the subtree below an unreachable root that holds the history, the twigs,
      and the parent that is left without children. */
  method PruneHistory(h: StateHierarchy, history: Node, reachable: Node -> bool) returns (ghost root: Node)
    requires Sound(h, reachable) && !reachable(history)
    modifies h
    ensures Sound(h, reachable) && AncestryKept(old(h.graph), h.graph) && h.twigs == {}
    ensures history !in h.graph.nodes && LostOnly(old(h.graph), old(h.twigs), h.graph, reachable)
    ensures history in old(h.graph.nodes) ==>
              && !reachable(root) && (root == history || Reach(old(h.graph), root, history))
              && Cleared(old(h.graph), old(h.twigs), root, h.graph)
    ensures history !in old(h.graph.nodes) ==> h.graph.nodes == old(h.graph.nodes) - old(h.twigs)
  {
    ghost var was, twigs := h.graph, h.twigs;
    root := h.UnreachableHistory(history, reachable);
    PrunedKeeps(was, root);
    ghost var g := h.graph;
    h.Simplify();
    assert AncestryKept(g, h.graph);
    KeptMonotone(g, h.graph, reachable);
    if history in was.nodes {
      assert Cleared(was, twigs, root, h.graph);
      ClearedLoses(was, twigs, root, h.graph, reachable);
    }
  }

  lemma ClearedLoses(g: Graph, twigs: set<Node>, root: Node, k: Graph, reachable: Node -> bool)
    requires WfGraph(g) && Cleared(g, twigs, root, k) && Monotone(g, reachable) && !reachable(root)
    ensures LostOnly(g, twigs, k, reachable)
  {
    forall x | x in g.nodes && x !in k.nodes ensures MayGo(g, twigs, k, reachable, x) {
      if OnlyEdge(g, x, root) {
        forall y | Reach(g, x, y) ensures y !in k.nodes { BelowOnly(g, x, root, y); }
      }
    }
  }

  /** What is below the parent is the only child or below it. */
  lemma BelowOnly(g: Graph, x: Node, root: Node, y: Node)
    requires OnlyEdge(g, x, root) && Reach(g, x, y)
    ensures y == root || Reach(g, root, y)
  {
    var p :| PathFrom(g, p, x, y);
    assert (p[0], p[1]) in g.edges;
    if |p| > 2 { PathSlice(g, p, 1, |p| - 1); }
  }

  datatype MergeOutcome = Stored | NoSuchStash | Crashed

  method FilterStates(p: SimState -> bool, states: seq<SimState>) returns (hit: seq<SimState>, miss: seq<SimState>)
    ensures hit == Select(states, p, true) && miss == Select(states, p, false)
  {
    hit, miss := [], [];
    for i := 0 to |states|
      invariant hit == Select(states[..i], p, true) && miss == Select(states[..i], p, false)
    {
      assert states[..i + 1][..i] == states[..i];
      if p(states[i]) { hit := hit + [states[i]]; } else { miss := miss + [states[i]]; }
    }
    assert states[..|states|] == states;
  }

  // ------------------------------------------------- grouping by key

  function Concat(parts: seq<seq<SimState>>): seq<SimState> {
    if parts == [] then [] else Concat(parts[..|parts| - 1]) + parts[|parts| - 1]
  }

  function LeavesAll(parts: seq<seq<SimState>>): multiset<SimState> {
    if parts == [] then multiset{} else LeavesAll(parts[..|parts| - 1]) + LeavesOf(parts[|parts| - 1])
  }

  /** Nonempty classes, each of one key, no two of the same. */
  ghost predicate KeyClasses(key: SimState -> int, classes: seq<seq<SimState>>) {
    && (forall i :: 0 <= i < |classes| ==> classes[i] != [] && OneKey(key, classes[i]))
    && (forall i, j :: 0 <= i < j < |classes| ==> key(classes[i][0]) != key(classes[j][0]))
  }

  predicate OneKey(key: SimState -> int, c: seq<SimState>)
    requires c != []
  {
    forall x :: x in c ==> key(x) == key(c[0])
  }

  /** The states grouped by key: every state in one class, with its leaves, each class in the order of the
      states and the classes in the order of their first ones. */
  ghost predicate GroupedBy(key: SimState -> int, states: seq<SimState>, classes: seq<seq<SimState>>) {
    && KeyClasses(key, classes) && LeavesAll(classes) == LeavesOf(states) && InOrder(key, states, classes)
    && forall s :: s in states ==> Keyed(key, classes, |classes|, s)
  }

  /** The states that are alone in their class. */
  function Singles(classes: seq<seq<SimState>>): seq<SimState> {
    if classes == [] then []
    else
      var last := classes[|classes| - 1];
      Singles(classes[..|classes| - 1]) + if |last| <= 1 then last else []
  }

  /** The classes of two states or more. */
  function Groups(classes: seq<seq<SimState>>): seq<seq<SimState>> {
    if classes == [] then []
    else
      var last := classes[|classes| - 1];
      Groups(classes[..|classes| - 1]) + if |last| <= 1 then [] else [last]
  }

  /** Each group has become one merged state holding its leaves, or is unchanged; it is not left
      unchanged unless some list of its leaves cannot be merged. */
  ghost predicate Folded(how: Merger, groups: seq<seq<SimState>>, parts: seq<seq<SimState>>) {
    && |parts| == |groups|
    && forall i :: 0 <= i < |groups| ==> FoldedGroup(how, groups[i], parts[i])
  }

  ghost predicate FoldedGroup(how: Merger, group: seq<SimState>, part: seq<SimState>) {
    || (|part| == 1 && part[0].Merged? && Leaves(part[0]) == LeavesOf(group))
    || (part == group && Unmergeable(how, LeavesOf(group)))
  }

  /** Every class is of one key that no state outside the classes has. */
  ghost predicate Apart(key: SimState -> int, classes: seq<seq<SimState>>, rest: seq<SimState>) {
    && KeyClasses(key, classes)
    && forall i, x :: 0 <= i < |classes| && x in rest ==> key(x) != key(classes[i][0])
  }

  lemma ApartStep(key: SimState -> int, classes: seq<seq<SimState>>, toMerge: seq<SimState>, group: seq<SimState>, rest: seq<SimState>)
    requires Apart(key, classes, toMerge) && group != [] && OneKey(key, group)
    requires group[0] in toMerge && forall x :: x in rest ==> x in toMerge && key(x) != key(group[0])
    ensures Apart(key, classes + [group], rest)
  {
    var all := classes + [group];
    forall i | 0 <= i < |all| ensures all[i] != [] && OneKey(key, all[i]) {
      if i < |classes| { assert all[i] == classes[i]; }
    }
    forall i, j | 0 <= i < j < |all| ensures key(all[i][0]) != key(all[j][0]) {
      if j == |classes| { assert all[j] == group; }
    }
  }

  lemma ClassesSnoc(classes: seq<seq<SimState>>, group: seq<SimState>)
    ensures Singles(classes + [group]) == Singles(classes) + if |group| <= 1 then group else []
    ensures Groups(classes + [group]) == Groups(classes) + if |group| <= 1 then [] else [group]
    ensures LeavesAll(classes + [group]) == LeavesAll(classes) + LeavesOf(group)
  {
    assert (classes + [group])[..|classes|] == classes;
  }

  /** The states with the key of the first one, and the rest. */
  method TakeGroup(key: SimState -> int, toMerge: seq<SimState>) returns (group: seq<SimState>, rest: seq<SimState>)
    requires toMerge != []
    ensures group != [] && OneKey(key, group) && group[0] == toMerge[0]
    ensures Picked(toMerge, s => key(s) == key(group[0]), group) && Picked(toMerge, s => key(s) != key(group[0]), rest)
    ensures forall x :: x in rest ==> x in toMerge && key(x) != key(group[0])
    ensures LeavesOf(group) + LeavesOf(rest) == LeavesOf(toMerge) && |rest| < |toMerge|
  {
    var base := key(toMerge[0]);
    var same := s => key(s) == base;
    group, rest := FilterStates(same, toMerge);
    GroupProps(toMerge, same);
    SelectMembers(toMerge, same, true);
    SelectMembers(toMerge, same, false);
    SelectPicked(toMerge, same, true);
    SelectPicked(toMerge, same, false);
    SelectHead(toMerge, same);
    assert group[0] in group;
    PickedAs(toMerge, s => same(s) == true, s => key(s) == key(group[0]), group);
    PickedAs(toMerge, s => same(s) == false, s => key(s) != key(group[0]), rest);
  }

  lemma {:induction false} SelectHead(states: seq<SimState>, p: SimState -> bool)
    requires states != [] && p(states[0])
    ensures Select(states, p, true) != [] && Select(states, p, true)[0] == states[0]
  {
    var n := |states| - 1;
    if n > 0 { SelectHead(states[..n], p); }
  }

  /** The grouping loop of `merge`: takes the states with the key of the first one, and goes on with
      the rest. */
  method GroupByKey(key: SimState -> int, states: seq<SimState>)
    returns (singles: seq<SimState>, groups: seq<seq<SimState>>, ghost classes: seq<seq<SimState>>)
    ensures GroupedBy(key, states, classes)
    ensures singles == Singles(classes) && groups == Groups(classes)
  {
    var toMerge := states;
    singles, groups, classes := [], [], [];
    AllLeft(key, states);
    while toMerge != []
      invariant Apart(key, classes, toMerge) && Left(key, states, classes, toMerge) && InOrder(key, states, classes)
      invariant LeavesAll(classes) + LeavesOf(toMerge) == LeavesOf(states)
      invariant singles == Singles(classes) && groups == Groups(classes)
      decreases |toMerge|
    {
      var group, rest := TakeGroup(key, toMerge);
      ApartStep(key, classes, toMerge, group, rest);
      OrderStep(key, states, classes, toMerge, group, rest);
      ClassesSnoc(classes, group);
      Regroup(LeavesAll(classes), LeavesOf(group), LeavesOf(rest), LeavesOf(toMerge), LeavesOf(states));
      classes := classes + [group];
      if |group| <= 1 { singles := singles + group; } else { groups := groups + [group]; }
      toMerge := rest;
    }
    NoneLeft(key, states, classes);
  }

  // ------------------------------------------------- the order of groups

  /** One of the first `n` classes has the key of the state. */
  ghost predicate Keyed(key: SimState -> int, classes: seq<seq<SimState>>, n: nat, s: SimState)
    requires n <= |classes|
  {
    exists i :: 0 <= i < n && ClassKey(key, classes, i, key(s))
  }

  predicate ClassKey(key: SimState -> int, classes: seq<seq<SimState>>, i: nat, k: int)
    requires i < |classes|
  {
    classes[i] != [] && key(classes[i][0]) == k
  }

  /** Class `i` lists the states with its key in order, and begins with the first state that no earlier
      class has. */
  ghost predicate ClassInOrder(key: SimState -> int, states: seq<SimState>, classes: seq<seq<SimState>>, i: nat)
    requires i < |classes|
  {
    && classes[i] != [] && Picked(states, s => key(s) == key(classes[i][0]), classes[i])
    && exists j :: FirstAt(key, states, classes, i, j)
  }

  ghost predicate FirstAt(key: SimState -> int, states: seq<SimState>, classes: seq<seq<SimState>>, i: nat, j: nat)
    requires i < |classes|
  {
    && classes[i] != [] && j < |states| && states[j] == classes[i][0]
    && forall k :: 0 <= k < j ==> Keyed(key, classes, i, states[k])
  }

  ghost predicate InOrder(key: SimState -> int, states: seq<SimState>, classes: seq<seq<SimState>>) {
    forall i :: 0 <= i < |classes| ==> ClassInOrder(key, states, classes, i)
  }

  /** What is left to group: the states whose key no class has, in order. */
  ghost predicate Left(key: SimState -> int, states: seq<SimState>, classes: seq<seq<SimState>>, rest: seq<SimState>) {
    Picked(states, s => !Keyed(key, classes, |classes|, s), rest)
  }

  lemma AllLeft(key: SimState -> int, states: seq<SimState>)
    ensures Left(key, states, [], states)
  {
    PickedAll(states, s => !Keyed(key, [], 0, s));
  }

  lemma NoneLeft(key: SimState -> int, states: seq<SimState>, classes: seq<seq<SimState>>)
    requires Left(key, states, classes, [])
    ensures forall s :: s in states ==> Keyed(key, classes, |classes|, s)
  {
    forall s | s in states ensures Keyed(key, classes, |classes|, s) {
      var j :| 0 <= j < |states| && states[j] == s;
      PickedNothing(states, s => !Keyed(key, classes, |classes|, s), j);
    }
  }

  lemma KeyedMore(key: SimState -> int, classes: seq<seq<SimState>>, group: seq<SimState>, n: nat, s: SimState)
    requires n <= |classes| && group != []
    ensures Keyed(key, classes + [group], n, s) <==> Keyed(key, classes, n, s)
    ensures Keyed(key, classes + [group], |classes| + 1, s) <==> Keyed(key, classes, |classes|, s) || key(s) == key(group[0])
  {
    var all := classes + [group];
    forall i: nat | i < |classes| ensures ClassKey(key, all, i, key(s)) <==> ClassKey(key, classes, i, key(s)) {}
    assert ClassKey(key, all, |classes|, key(s)) <==> key(s) == key(group[0]);
    if i: nat :| i < |classes| && ClassKey(key, classes, i, key(s)) { assert ClassKey(key, all, i, key(s)); }
    if i: nat :| i < n && ClassKey(key, classes, i, key(s)) { assert ClassKey(key, all, i, key(s)); }
  }

  lemma OrderStep(key: SimState -> int, states: seq<SimState>, classes: seq<seq<SimState>>, toMerge: seq<SimState>,
                  group: seq<SimState>, rest: seq<SimState>)
    requires InOrder(key, states, classes) && Left(key, states, classes, toMerge) && toMerge != [] && group != []
    requires group[0] == toMerge[0]
    requires Picked(toMerge, s => key(s) == key(group[0]), group) && Picked(toMerge, s => key(s) != key(group[0]), rest)
    ensures InOrder(key, states, classes + [group]) && Left(key, states, classes + [group], rest)
  {
    NewClass(key, states, classes, toMerge, group);
    forall i | 0 <= i < |classes| ensures ClassInOrder(key, states, classes + [group], i) {
      OldClass(key, states, classes, group, i);
    }
    StillLeft(key, states, classes, toMerge, group, rest);
  }

  lemma StillLeft(key: SimState -> int, states: seq<SimState>, classes: seq<seq<SimState>>, toMerge: seq<SimState>,
                  group: seq<SimState>, rest: seq<SimState>)
    requires Left(key, states, classes, toMerge) && group != [] && Picked(toMerge, s => key(s) != key(group[0]), rest)
    ensures Left(key, states, classes + [group], rest)
  {
    var left, other := s => !Keyed(key, classes, |classes|, s), s => key(s) != key(group[0]);
    var more := s => !Keyed(key, classes + [group], |classes + [group]|, s);
    PickedTwice(states, left, toMerge, other, rest);
    forall s ensures more(s) <==> Both(left, other)(s) { KeyedMore(key, classes, group, |classes|, s); }
    PickedAs(states, Both(left, other), more, rest);
  }

  lemma OldClass(key: SimState -> int, states: seq<SimState>, classes: seq<seq<SimState>>, group: seq<SimState>, i: nat)
    requires i < |classes| && ClassInOrder(key, states, classes, i) && group != []
    ensures ClassInOrder(key, states, classes + [group], i)
  {
    var all := classes + [group];
    var j :| FirstAt(key, states, classes, i, j);
    forall k | 0 <= k < j ensures Keyed(key, all, i, states[k]) { KeyedMore(key, classes, group, i, states[k]); }
    assert FirstAt(key, states, all, i, j);
  }

  lemma NewClass(key: SimState -> int, states: seq<SimState>, classes: seq<seq<SimState>>, toMerge: seq<SimState>, group: seq<SimState>)
    requires Left(key, states, classes, toMerge) && toMerge != [] && group != [] && group[0] == toMerge[0]
    requires Picked(toMerge, s => key(s) == key(group[0]), group)
    ensures ClassInOrder(key, states, classes + [group], |classes|)
  {
    var n, all := |classes|, classes + [group];
    var left := s => !Keyed(key, classes, n, s);
    var j := PickedHead(states, left, toMerge);
    PickedMember(states, left, toMerge, 0);
    forall k | 0 <= k < j ensures Keyed(key, all, n, states[k]) { KeyedMore(key, classes, group, n, states[k]); }
    assert FirstAt(key, states, all, n, j);
    var same := s => key(s) == key(group[0]);
    PickedTwice(states, left, toMerge, same, group);
    forall s | same(s) ensures left(s) { SameKey(key, classes, s, group[0]); }
    PickedAs(states, Both(left, same), s => key(s) == key(group[0]), group);
    PickedAs(states, s => key(s) == key(group[0]), s => key(s) == key(all[n][0]), group);
  }

  lemma SameKey(key: SimState -> int, classes: seq<seq<SimState>>, s: SimState, t: SimState)
    requires key(s) == key(t)
    ensures Keyed(key, classes, |classes|, s) <==> Keyed(key, classes, |classes|, t)
  {
  }

  lemma {:induction false} GroupsAreLarge(classes: seq<seq<SimState>>)
    ensures forall i :: 0 <= i < |Groups(classes)| ==> |Groups(classes)[i]| >= 2
  {
    if classes != [] { GroupsAreLarge(classes[..|classes| - 1]); }
  }

  /** Grouping, then merging group after group. */
  method MergeByKey(hierarchy: StateHierarchy?, how: Merger, key: SimState -> int, states: seq<SimState>)
    returns (done: seq<SimState>, crashed: bool, ghost classes: seq<seq<SimState>>, ghost parts: seq<seq<SimState>>, ghost merges: seq<Merging>)
    requires (hierarchy != null ==> hierarchy.Valid()) && GoodTraversal(how.traversal)
    modifies hierarchy
    ensures hierarchy != null ==> hierarchy.Valid()
    ensures GroupedBy(key, states, classes)
    ensures crashed <==> hierarchy == null && Groups(classes) != []
    ensures !crashed ==> Folded(how, Groups(classes), parts) && done == Singles(classes) + Concat(parts)
    ensures !crashed ==> Threaded(how, old(GraphOf(hierarchy)), Groups(classes), parts, merges, GraphOf(hierarchy))
  {
    var singles, groups;
    singles, groups, classes := GroupByKey(key, states);
    GroupsAreLarge(classes);
    done, crashed, parts, merges := MergeGroups(hierarchy, how, singles, groups);
  }

  /** The merging loop of `merge`. */
  method MergeGroups(hierarchy: StateHierarchy?, how: Merger, singles: seq<SimState>, groups: seq<seq<SimState>>)
    returns (done: seq<SimState>, crashed: bool, ghost parts: seq<seq<SimState>>, ghost merges: seq<Merging>)
    requires (hierarchy != null ==> hierarchy.Valid()) && GoodTraversal(how.traversal)
    requires forall i :: 0 <= i < |groups| ==> |groups[i]| >= 2
    modifies hierarchy
    ensures hierarchy != null ==> hierarchy.Valid()
    ensures crashed <==> hierarchy == null && groups != []
    ensures !crashed ==> GroupsDone(how, old(GraphOf(hierarchy)), groups, parts, merges, GraphOf(hierarchy))
    ensures !crashed ==> done == singles + Concat(parts)
  {
    done, crashed, parts, merges := singles, false, [], [];
    ghost var first, now := GraphOf(hierarchy), GraphOf(hierarchy);
    NoneDone(how, first, groups);
    for i := 0 to |groups|
      invariant (hierarchy != null ==> hierarchy.Valid()) && now == GraphOf(hierarchy)
      invariant hierarchy == null ==> i == 0
      invariant !crashed && done == singles + Concat(parts)
      invariant GroupsDone(how, first, groups[..i], parts, merges, now)
    {
      var part;
      part, crashed, merges, now := MergeNext(hierarchy, how, groups, i, first, parts, merges, now);
      if crashed { return; }
      ConcatOne(parts, part);
      parts, done := parts + [part], done + part;
    }
    AllDone(how, first, groups, parts, merges, now);
  }

  lemma NoneDone(how: Merger, g: Graph, groups: seq<seq<SimState>>)
    ensures GroupsDone(how, g, groups[..0], [], [], g)
  {
  }

  lemma AllDone(how: Merger, g: Graph, groups: seq<seq<SimState>>, parts: seq<seq<SimState>>, merges: seq<Merging>, last: Graph)
    requires GroupsDone(how, g, groups[..|groups|], parts, merges, last)
    ensures GroupsDone(how, g, groups, parts, merges, last)
  {
    assert groups[..|groups|] == groups;
  }

  /** The next group, after those before it. */
  method MergeNext(hierarchy: StateHierarchy?, how: Merger, groups: seq<seq<SimState>>, i: nat, ghost first: Graph,
                   ghost parts: seq<seq<SimState>>, ghost merges: seq<Merging>, ghost before: Graph)
    returns (part: seq<SimState>, crashed: bool, ghost more: seq<Merging>, ghost after: Graph)
    requires (hierarchy != null ==> hierarchy.Valid()) && GoodTraversal(how.traversal) && before == GraphOf(hierarchy)
    requires i < |groups| && |groups[i]| >= 2 && GroupsDone(how, first, groups[..i], parts, merges, before)
    modifies hierarchy
    ensures (hierarchy != null ==> hierarchy.Valid()) && after == GraphOf(hierarchy)
    ensures crashed <==> hierarchy == null
    ensures !crashed ==> GroupsDone(how, first, groups[..i + 1], parts + [part], more, after)
  {
    ghost var merging;
    part, crashed, merging := MergeGroup(hierarchy, how, groups[i]);
    more, after := merges, GraphOf(hierarchy);
    if !crashed {
      GroupDone(how, first, groups, i, parts, merges, before, merging, part);
      more := merges + [merging];
    }
  }

  lemma ConcatOne(parts: seq<seq<SimState>>, part: seq<SimState>)
    ensures Concat(parts + [part]) == Concat(parts) + part
  {
    assert (parts + [part])[..|parts|] == parts;
  }

  /** Some groups are folded, one on the graph that another leaves. */
  ghost predicate GroupsDone(how: Merger, g: Graph, groups: seq<seq<SimState>>, parts: seq<seq<SimState>>, merges: seq<Merging>, last: Graph) {
    Folded(how, groups, parts) && Threaded(how, g, groups, parts, merges, last)
  }

  lemma GroupDone(how: Merger, g: Graph, groups: seq<seq<SimState>>, i: nat, parts: seq<seq<SimState>>, merges: seq<Merging>,
                  mid: Graph, m: Merging, part: seq<SimState>)
    requires i < |groups| && GroupsDone(how, g, groups[..i], parts, merges, mid)
    requires m.before == mid && MergedGroup(how, m, groups[i], part) && FoldedGroup(how, groups[i], part)
    ensures GroupsDone(how, g, groups[..i + 1], parts + [part], merges + [m], m.after)
    ensures Concat(parts + [part]) == Concat(parts) + part
  {
    FoldedOneMore(how, groups, i, parts, part);
    ThreadedMore(how, g, groups, i, parts, merges, m, part);
  }

  lemma FoldedOneMore(how: Merger, groups: seq<seq<SimState>>, i: nat, parts: seq<seq<SimState>>, part: seq<SimState>)
    requires i < |groups| && Folded(how, groups[..i], parts) && FoldedGroup(how, groups[i], part)
    ensures Folded(how, groups[..i + 1], parts + [part]) && Concat(parts + [part]) == Concat(parts) + part
  {
    assert (parts + [part])[..i] == parts;
  }

  /** One group of `merge`. */
  method MergeGroup(hierarchy: StateHierarchy?, how: Merger, group: seq<SimState>)
    returns (part: seq<SimState>, crashed: bool, ghost merging: Merging)
    requires (hierarchy != null ==> hierarchy.Valid()) && GoodTraversal(how.traversal) && |group| >= 2
    modifies hierarchy
    ensures hierarchy != null ==> hierarchy.Valid()
    ensures crashed <==> hierarchy == null
    ensures !crashed ==> FoldedGroup(how, group, part)
    ensures !crashed ==> merging.before == old(GraphOf(hierarchy)) && merging.after == GraphOf(hierarchy)
    ensures !crashed ==> MergedGroup(how, merging, group, part)
  {
    ghost var before := GraphOf(hierarchy);
    var m;
    ghost var rounds;
    m, rounds := MergeStates(hierarchy, how, group);
    crashed := m.NoHierarchy?;
    part := if m.Done? then [m.state] else group;
    merging := Merging(before, rounds, m, GraphOf(hierarchy));
  }

  lemma ConcatSnoc(parts: seq<seq<SimState>>, part: seq<SimState>)
    ensures LeavesOf(Concat(parts + [part])) == LeavesOf(Concat(parts)) + LeavesOf(part)
  {
    assert (parts + [part])[..|parts|] == parts;
    LeavesConcat(Concat(parts), part);
  }

  /** Merging conserves the leaves: singles and merged groups hold what the classes held. */
  lemma {:induction false} FoldedLeaves(how: Merger, groups: seq<seq<SimState>>, parts: seq<seq<SimState>>)
    requires Folded(how, groups, parts)
    ensures LeavesOf(Concat(parts)) == LeavesAll(groups)
    decreases |parts|
  {
    if parts != [] {
      var n := |parts| - 1;
      FoldedLeaves(how, groups[..n], parts[..n]);
      assert parts == parts[..n] + [parts[n]];
      ConcatSnoc(parts[..n], parts[n]);
      assert FoldedGroup(how, groups[n], parts[n]);
      if parts[n] != groups[n] {
        assert parts[n] == [parts[n][0]];
        LeavesSingle(parts[n][0]);
      }
    }
  }

  lemma {:induction false} ClassesSplit(classes: seq<seq<SimState>>)
    ensures LeavesOf(Singles(classes)) + LeavesAll(Groups(classes)) == LeavesAll(classes)
  {
    if classes != [] {
      var n := |classes| - 1;
      var front, last := classes[..n], classes[n];
      ClassesSplit(front);
      if |last| <= 1 {
        LeavesConcat(Singles(front), last);
        assert Groups(classes) == Groups(front);
        Interleave(LeavesOf(Singles(front)), LeavesOf(last), LeavesAll(Groups(front)), LeavesAll(front));
      } else {
        assert Singles(classes) == Singles(front);
        assert Groups(classes)[..|Groups(front)|] == Groups(front);
        Regroup2(LeavesOf(Singles(front)), LeavesAll(Groups(front)), LeavesOf(last), LeavesAll(front));
      }
    }
  }

  lemma Interleave(a: multiset<SimState>, b: multiset<SimState>, c: multiset<SimState>, ac: multiset<SimState>)
    requires a + c == ac
    ensures a + b + c == ac + b
  {
  }

  lemma Regroup2(a: multiset<SimState>, b: multiset<SimState>, c: multiset<SimState>, ab: multiset<SimState>)
    requires a + b == ab
    ensures a + (b + c) == ab + c
  {
  }

  /** The whole of `merge` conserves the leaves of the stash. */
  lemma MergeConserves(how: Merger, classes: seq<seq<SimState>>, parts: seq<seq<SimState>>)
    requires Folded(how, Groups(classes), parts)
    ensures LeavesOf(Singles(classes) + Concat(parts)) == LeavesAll(classes)
  {
    LeavesConcat(Singles(classes), Concat(parts));
    FoldedLeaves(how, Groups(classes), parts);
    ClassesSplit(classes);
  }

  lemma GroupProps(states: seq<SimState>, same: SimState -> bool)
    requires states != [] && same(states[0])
    ensures LeavesOf(Select(states, same, true)) + LeavesOf(Select(states, same, false)) == LeavesOf(states)
    ensures |Select(states, same, true)| + |Select(states, same, false)| == |states|
    ensures Select(states, same, true) != []
  {
    var hit, miss := Select(states, same, true), Select(states, same, false);
    SelectSplits(states, same);
    LeavesPermuted(miss + hit, states);
    LeavesConcat(miss, hit);
    assert states[0] in multiset(states);
    assert states[0] !in multiset(miss);
  }
}
