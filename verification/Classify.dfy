/** Eightbyte classification of System V AMD64 arguments (section 3.2.3 of the psABI). */
module Classify {
  import opened Wrappers
  import opened TypeLayout
  import opened Leaves

  datatype Class = NoClass | SseUp | Sse | Integer | Memory

  /** What the source raises: a subscript out of range, or an exhausted list of return registers. */
  datatype LayoutError = IndexError | NoReturnRegister

  const MAX_AGGREGATE: nat := 64

  function Rank(c: Class): nat {
    match c
    case NoClass => 0
    case SseUp => 1
    case Sse => 2
    case Integer => 3
    case Memory => 4
  }

  /** `_combine_classes`. */
  function Combine(a: Class, b: Class): (c: Class)
    ensures Rank(c) == Max(Rank(a), Rank(b))
  {
    if a == b then a
    else if a == NoClass then b
    else if b == NoClass then a
    else if a == Memory || b == Memory then Memory
    else if a == Integer || b == Integer then Integer
    else Sse
  }

  function Chunks(size: nat, chunk: nat): nat
    requires chunk > 0
  {
    (size + chunk - 1) / chunk
  }

  function Repeat(c: Class, n: nat): seq<Class> { seq(n, i => c) }

  /** The classes of a scalar, one per chunk. */
  function ScalarClasses(t: SimType, chunk: nat): seq<Class>
    requires Scalar(t) && chunk > 0
  {
    var n := Chunks(Size(t), chunk);
    if t.Num? then Repeat(Integer, n) else [Sse] + Repeat(SseUp, if n > 0 then n - 1 else 0)
  }

  function ScalarClass(t: SimType): Class
    requires Scalar(t)
  {
    if t.Num? then Integer else Sse
  }

  // ------------------------------------------------- what a leaf touches

  function FirstChunk(l: Leaf): nat { l.offset / WORD }

  function LastChunk(l: Leaf): nat
    requires Scalar(l.ty) && Size(l.ty) > 0
  {
    (l.offset + Size(l.ty) - 1) / WORD
  }

  predicate Overlaps(l: Leaf, c: nat)
    requires Scalar(l.ty)
  {
    Size(l.ty) > 0 && l.offset < (c + 1) * WORD && c * WORD < l.offset + Size(l.ty)
  }

  /** A leaf does not straddle an eightbyte boundary it is too small to own. */
  predicate Fits(l: Leaf)
    requires Scalar(l.ty)
  {
    Size(l.ty) > 0 ==> (LastChunk(l) - FirstChunk(l)) * WORD < Size(l.ty)
  }

  predicate ScalarLeaves(ls: seq<Leaf>) { forall i :: 0 <= i < |ls| ==> Scalar(ls[i].ty) }

  predicate AllFit(ls: seq<Leaf>)
    requires ScalarLeaves(ls)
  {
    forall i :: 0 <= i < |ls| ==> Fits(ls[i])
  }

  /** The class of eightbyte `c`: the highest class among the leaves that overlap it. */
  ghost predicate IsMergedClass(ls: seq<Leaf>, c: nat, r: Class)
    requires ScalarLeaves(ls)
  {
    && (forall i :: 0 <= i < |ls| && Overlaps(ls[i], c) ==> Rank(ScalarClass(ls[i].ty)) <= Rank(r))
    && (r == NoClass || exists i :: 0 <= i < |ls| && Overlaps(ls[i], c) && ScalarClass(ls[i].ty) == r)
  }

  lemma OverlapsIffTouched(l: Leaf, c: nat)
    requires Scalar(l.ty) && Size(l.ty) > 0
    ensures Overlaps(l, c) <==> FirstChunk(l) <= c <= LastChunk(l)
  {
  }

  /** The class the inner loop reads for the `i`-th chunk of a leaf that fits. */
  lemma SubclassOfFit(l: Leaf, i: nat)
    requires Scalar(l.ty) && Size(l.ty) > 0
    ensures |ScalarClasses(l.ty, 1)| == Size(l.ty)
    ensures Fits(l) && i <= LastChunk(l) - FirstChunk(l) ==>
              i * WORD < Size(l.ty) && ScalarClasses(l.ty, 1)[i * WORD] == ScalarClass(l.ty)
    ensures !Fits(l) ==> Size(l.ty) <= (LastChunk(l) - FirstChunk(l)) * WORD
  {
  }

  // ------------------------------------------------- the merging loop

  predicate InChunks(ls: seq<Leaf>, n: nat)
    requires ScalarLeaves(ls)
  {
    forall i :: 0 <= i < |ls| && Size(ls[i].ty) > 0 ==> LastChunk(ls[i]) < n
  }

  ghost predicate Merged(ls: seq<Leaf>, result: seq<Class>)
    requires ScalarLeaves(ls)
  {
    forall c :: 0 <= c < |result| ==> IsMergedClass(ls, c, result[c])
  }

  /** Folds one leaf into the class list; `IndexError` is the subscript the source would raise. */
  method MergeLeaf(l: Leaf, classes: seq<Class>) returns (r: Result<seq<Class>, LayoutError>)
    requires Scalar(l.ty) && Size(l.ty) > 0 && LastChunk(l) < |classes|
    ensures r.Ok? <==> Fits(l)
    ensures r.Ok? ==> |r.value| == |classes|
    ensures r.Ok? ==> forall c :: 0 <= c < |classes| ==>
              r.value[c] == if Overlaps(l, c) then Combine(classes[c], ScalarClass(l.ty)) else classes[c]
  {
    var sub := ScalarClasses(l.ty, 1);
    var result := classes;
    var first, last := FirstChunk(l), LastChunk(l);
    var i := 0;
    while first + i <= last
      invariant 0 <= i <= last - first + 1
      invariant i > 0 ==> (i - 1) * WORD < Size(l.ty)
      invariant |result| == |classes|
      invariant forall c :: 0 <= c < |classes| ==>
        result[c] == if first <= c < first + i then Combine(classes[c], ScalarClass(l.ty)) else classes[c]
    {
      SubclassOfFit(l, i);
      if i * WORD >= |sub| {
        return Err(IndexError);
      }
      assert sub[i * WORD] == ScalarClass(l.ty) by { NarrowSubclass(l, i); }
      result := result[first + i := Combine(result[first + i], sub[i * WORD])];
      i := i + 1;
    }
    forall c | 0 <= c < |classes| ensures Overlaps(l, c) <==> first <= c < first + i {
      OverlapsIffTouched(l, c);
    }
    r := Ok(result);
  }

  lemma NarrowSubclass(l: Leaf, i: nat)
    requires Scalar(l.ty) && Size(l.ty) > 0 && i * WORD < Size(l.ty)
    ensures |ScalarClasses(l.ty, 1)| == Size(l.ty)
    ensures ScalarClasses(l.ty, 1)[i * WORD] == ScalarClass(l.ty)
  {
  }

  lemma MergedStep(ls: seq<Leaf>, k: nat, before: seq<Class>, after: seq<Class>)
    requires k < |ls| && ScalarLeaves(ls) && |before| == |after|
    requires Merged(ls[..k], before)
    requires forall c :: 0 <= c < |before| ==>
      after[c] == if Overlaps(ls[k], c) then Combine(before[c], ScalarClass(ls[k].ty)) else before[c]
    ensures Merged(ls[..k + 1], after)
  {
    forall c | 0 <= c < |after| ensures IsMergedClass(ls[..k + 1], c, after[c]) {
      var a, b := ls[..k], ls[..k + 1];
      assert forall i :: 0 <= i < k ==> a[i] == b[i];
      assert b[k] == ls[k];
      assert IsMergedClass(a, c, before[c]);
      if after[c] == before[c] {
        if after[c] != NoClass {
          var i :| 0 <= i < |a| && Overlaps(a[i], c) && ScalarClass(a[i].ty) == before[c];
          assert Overlaps(b[i], c) && ScalarClass(b[i].ty) == after[c];
        }
      }
    }
  }

  method MergeLeaves(ls: seq<Leaf>, n: nat) returns (r: Result<seq<Class>, LayoutError>)
    requires ScalarLeaves(ls) && InChunks(ls, n)
    ensures r.Ok? <==> AllFit(ls)
    ensures r.Ok? ==> |r.value| == n && Merged(ls, r.value)
  {
    var result := Repeat(NoClass, n);
    for k := 0 to |ls|
      invariant |result| == n && Merged(ls[..k], result)
      invariant forall i :: 0 <= i < k ==> Fits(ls[i])
    {
      var before := result;
      if Size(ls[k].ty) > 0 {
        var step := MergeLeaf(ls[k], result);
        if step.Err? {
          return Err(IndexError);
        }
        result := step.value;
      }
      MergedStep(ls, k, before, result);
    }
    assert ls[..|ls|] == ls;
    r := Ok(result);
  }

  // ------------------------------------------------- classification

  /** `_classify` of a struct, union or array, after the merging loop. */
  function Finish(merged: seq<Class>): seq<Class> {
    var n := |merged|;
    if Memory in merged then Repeat(Memory, n)
    else if n > 2 && (merged[0] != Sse || exists i :: 1 <= i < n && merged[i] != SseUp) then Repeat(Memory, n)
    else if n == 2 && merged[1] == SseUp && merged[0] != Sse && merged[0] != SseUp then merged[1 := Sse]
    else merged
  }

  /** What a caller may rely on: classes of the whole argument, in eightbytes. */
  ghost predicate Classified(t: SimType, cs: seq<Class>)
    requires Wf(t)
  {
    && |cs| == Chunks(Size(t), WORD)
    && (Scalar(t) ==> forall c :: 0 <= c < |cs| ==> cs[c] == ScalarClass(t))
    && (!Scalar(t) ==>
          if Size(t) > MAX_AGGREGATE || AnyPacked(t) || |cs| > 2
          then forall c :: 0 <= c < |cs| ==> cs[c] == Memory
          else forall c :: 0 <= c < |cs| ==> cs[c] in {Sse, Integer} && IsMergedClass0(t, c, cs[c]))
  }

  ghost predicate IsMergedClass0(t: SimType, c: nat, r: Class)
    requires Wf(t)
  {
    LeavesContained(t, 0);
    IsMergedClass(LeavesAt(t, 0), c, r)
  }

  /** Classification succeeds unless a leaf straddles an eightbyte. */
  predicate Classifiable(t: SimType)
    requires Wf(t)
  {
    Scalar(t) || Size(t) > MAX_AGGREGATE || AnyPacked(t) ||
    (LeavesContained(t, 0); AllFit(LeavesAt(t, 0)))
  }

  lemma MergedIsSimple(ls: seq<Leaf>, merged: seq<Class>)
    requires ScalarLeaves(ls) && Merged(ls, merged)
    ensures forall c :: 0 <= c < |merged| ==> merged[c] in {NoClass, Sse, Integer}
  {
    forall c | 0 <= c < |merged| ensures merged[c] in {NoClass, Sse, Integer} {
      assert IsMergedClass(ls, c, merged[c]);
    }
  }

  lemma OccupiedEightbyte(ls: seq<Leaf>, p: nat, c: nat, r: Class)
    requires ScalarLeaves(ls) && Occupied(ls, p) && c == p / WORD && IsMergedClass(ls, c, r)
    ensures r != NoClass
  {
    var i :| 0 <= i < |ls| && Scalar(ls[i].ty) && ls[i].offset <= p < ls[i].offset + Size(ls[i].ty);
    assert Overlaps(ls[i], c);
  }

  lemma LastEightbyte(size: nat)
    requires size > 0
    ensures (size - 1) / WORD == Chunks(size, WORD) - 1
  {
  }

  /** At most two eightbytes: none of them is padding only. */
  lemma FullEightbytes(t: SimType, merged: seq<Class>)
    requires Wf(t) && 0 < |merged| <= 2 && |merged| == Chunks(Size(t), WORD)
    requires ScalarLeaves(LeavesAt(t, 0)) && Merged(LeavesAt(t, 0), merged)
    ensures forall c :: 0 <= c < |merged| ==> merged[c] != NoClass
  {
    var ls, last := LeavesAt(t, 0), |merged| - 1;
    EndsOccupied(t, 0);
    LastEightbyte(Size(t));
    OccupiedEightbyte(ls, 0, 0, merged[0]);
    OccupiedEightbyte(ls, Size(t) - 1, last, merged[last]);
  }

  lemma FinishClassified(t: SimType, merged: seq<Class>)
    requires Wf(t) && !Scalar(t) && Size(t) <= MAX_AGGREGATE && !AnyPacked(t)
    requires |merged| == Chunks(Size(t), WORD)
    requires LeavesWithin(LeavesAt(t, 0), 0, Size(t)) && Merged(LeavesAt(t, 0), merged)
    ensures Classified(t, Finish(merged))
  {
    MergedIsSimple(LeavesAt(t, 0), merged);
    if 0 < |merged| <= 2 {
      FullEightbytes(t, merged);
      assert Finish(merged) == merged;
      forall c | 0 <= c < |merged| ensures IsMergedClass0(t, c, merged[c]) {}
    } else if |merged| > 2 {
      assert merged[1] != SseUp;
      assert Finish(merged) == Repeat(Memory, |merged|);
    }
  }

  lemma LeavesInChunks(t: SimType)
    requires Wf(t)
    ensures LeavesWithin(LeavesAt(t, 0), 0, Size(t))
    ensures InChunks(LeavesAt(t, 0), Chunks(Size(t), WORD))
  {
    LeavesContained(t, 0);
  }

  /** `_classify`: fails on a straddling leaf and on nothing else; the eightbytes of an aggregate
      are all MEMORY or at most two, each the highest class of the leaves overlapping it.  In
      particular no argument is ever classified NO_CLASS or SSEUP. */
  method ClassifyType(t: SimType) returns (r: Result<seq<Class>, LayoutError>)
    requires Wf(t)
    ensures r.Ok? <==> Classifiable(t)
    ensures r.Ok? ==> Classified(t, r.value)
  {
    var n := Chunks(Size(t), WORD);
    if Scalar(t) {
      return Ok(ScalarClasses(t, WORD));
    }
    if Size(t) > MAX_AGGREGATE || AnyPacked(t) {
      return Ok(Repeat(Memory, n));
    }
    LeavesInChunks(t);
    var merged := MergeLeaves(LeavesAt(t, 0), n);
    if merged.Err? {
      return Err(IndexError);
    }
    FinishClassified(t, merged.value);
    r := Ok(Finish(merged.value));
  }

  /** A classification is determined by the type. */
  lemma ClassifiedUnique(t: SimType, a: seq<Class>, b: seq<Class>)
    requires Wf(t) && Classified(t, a) && Classified(t, b)
    ensures a == b
  {
    forall c | 0 <= c < |a| ensures a[c] == b[c] {
      if !Scalar(t) && !(Size(t) > MAX_AGGREGATE || AnyPacked(t) || |a| > 2) {
        assert IsMergedClass0(t, c, a[c]) && IsMergedClass0(t, c, b[c]);
        assert Rank(a[c]) == Rank(b[c]);
      }
    }
  }
}
