/** Sequential traversal (the seq_exec / seq_segit policies) of ranges, lists and
    hybrid index sets, the reductions built on it, and the getIndices utilities.
    A loop body is modelled as a pure step `(state, index) -> state`; whatever the
    body does to memory or to reduction variables is carried in the state. */
module SeqTraversal {
  import opened Memory
  import R = RangeSegment
  import L = ListSegment
  import opened HybridIndexSet
  import opened Wrappers

  /** Reference semantics: the body applied to each index of `xs`, first to last. */
  function Fold<S>(xs: seq<int>, body: (S, int) -> S, s: S): S
    decreases |xs|
  {
    if xs == [] then s else Fold(xs[1..], body, body(s, xs[0]))
  }

  lemma {:induction false} FoldConcat<S>(a: seq<int>, b: seq<int>, body: (S, int) -> S, s: S)
    ensures Fold(a + b, body, s) == Fold(b, body, Fold(a, body, s))
    decreases |a|
  {
    if a != [] {
      assert a + b != [];
      assert (a + b)[1..] == a[1..] + b;
      assert (a + b)[0] == a[0];
      FoldConcat(a[1..], b, body, body(s, a[0]));
    } else {
      assert a + b == b;
    }
  }

  // ---------------------------------------------------------------------------
  // Segment loops.
  // ---------------------------------------------------------------------------

  /** forall(seq_exec, RangeISet): `for (ii = begin; ii < end; ++ii) body(ii)`. */
  function ForallRange<S>(b: int, e: int, body: (S, int) -> S, s: S): S
    decreases e - b
  {
    if b >= e then s else ForallRange(b + 1, e, body, body(s, b))
  }

  /** forall(seq_exec, ListISet) from position `k`: `for (; k < len; ++k) body(idx[k])`. */
  function ListLoop<S>(h: Heap, l: L.ListISet, k: nat, body: (S, int) -> S, s: S): S
    requires L.Readable(h, l)
    decreases l.len - k
  {
    if k >= l.len then s
    else ListLoop(h, l, k + 1, body, body(s, h[l.indx.buf].elems[l.indx.off + k]))
  }

  function ForallList<S>(h: Heap, l: L.ListISet, body: (S, int) -> S, s: S): S
    requires L.Readable(h, l)
  {
    ListLoop(h, l, 0, body, s)
  }

  /** The segment switch: ranges and lists run their own loop, any other segment
      type is ignored. */
  function ForallSegment<S>(h: Heap, seg: Segment, body: (S, int) -> S, s: S): S
    requires SegmentReadable(h, seg)
  {
    match seg.payload
    case RangePayload(r) => ForallRange(r.begin, r.end, body, s)
    case ListPayload(l) => ForallList(h, l, body, s)
    case NoPayload => s
  }

  /** forall(IndexSet::ExecPolicy<seq_segit, seq_exec>) from segment `isi` on. */
  function SegmentLoop<S>(h: Heap, segs: seq<Segment>, isi: nat, body: (S, int) -> S, s: S): S
    requires WellFormed(h, segs)
    decreases |segs| - isi
  {
    if isi >= |segs| then s
    else SegmentLoop(h, segs, isi + 1, body, ForallSegment(h, segs[isi], body, s))
  }

  function ForallISet<S>(h: Heap, hs: IndexSet, body: (S, int) -> S, s: S): S
    requires WellFormed(h, hs.segments)
  {
    SegmentLoop(h, hs.segments, 0, body, s)
  }

  /** A range loop visits begin, begin+1, ..., end-1 in that order (nothing for
      an empty or reversed range). */
  lemma {:induction false} ForallRangeVisitsInterval<S>(b: int, e: int, body: (S, int) -> S, s: S)
    ensures ForallRange(b, e, body, s) == Fold(R.Interval(b, e), body, s)
    decreases e - b
  {
    if b < e {
      ForallRangeVisitsInterval(b + 1, e, body, body(s, b));
      assert R.Interval(b, e)[1..] == R.Interval(b + 1, e);
    }
  }

  lemma {:induction false} ListLoopVisits<S>(h: Heap, l: L.ListISet, k: nat, body: (S, int) -> S, s: S)
    requires L.Readable(h, l) && k <= l.len
    ensures ListLoop(h, l, k, body, s) == Fold(L.Indices(h, l)[k..], body, s)
    decreases l.len - k
  {
    if k < l.len {
      var xs := L.Indices(h, l);
      assert xs[k..][0] == xs[k];
      assert xs[k..][1..] == xs[k + 1..];
      ListLoopVisits(h, l, k + 1, body, body(s, xs[k]));
    }
  }

  /** A list loop visits the list's array elements in array order. */
  lemma ForallListVisitsElements<S>(h: Heap, l: L.ListISet, body: (S, int) -> S, s: S)
    requires L.Readable(h, l)
    ensures ForallList(h, l, body, s) == Fold(L.Indices(h, l), body, s)
  {
    if l.len > 0 {
      ListLoopVisits(h, l, 0, body, s);
      assert L.Indices(h, l)[0..] == L.Indices(h, l);
    }
  }

  lemma ForallSegmentVisits<S>(h: Heap, seg: Segment, body: (S, int) -> S, s: S)
    requires SegmentReadable(h, seg)
    ensures ForallSegment(h, seg, body, s) == Fold(SegmentIndices(h, seg), body, s)
  {
    match seg.payload {
      case RangePayload(r) => ForallRangeVisitsInterval(r.begin, r.end, body, s);
      case ListPayload(l) => ForallListVisitsElements(h, l, body, s);
      case NoPayload =>
    }
  }

  lemma {:induction false} SegmentLoopVisits<S>(h: Heap, segs: seq<Segment>, isi: nat, body: (S, int) -> S, s: S)
    requires WellFormed(h, segs) && isi <= |segs|
    ensures WellFormed(h, segs[isi..])
    ensures SegmentLoop(h, segs, isi, body, s) == Fold(Flat(h, segs[isi..]), body, s)
    decreases |segs| - isi
  {
    assert WellFormed(h, segs[isi..]) by {
      forall i | 0 <= i < |segs[isi..]| ensures segs[isi..][i] == segs[isi + i] { }
    }
    if isi < |segs| {
      var rest := segs[isi..];
      assert rest[0] == segs[isi] && rest[1..] == segs[isi + 1..];
      ForallSegmentVisits(h, segs[isi], body, s);
      SegmentLoopVisits(h, segs, isi + 1, body, ForallSegment(h, segs[isi], body, s));
      FoldConcat(SegmentIndices(h, segs[isi]), Flat(h, segs[isi + 1..]), body, s);
    }
  }

  /** Traversing a hybrid index set visits its segments in order, each segment's
      indices in that segment's order, with the state carried from one segment to
      the next; segments of unknown type contribute nothing. */
  lemma ForallISetVisitsIndices<S>(h: Heap, hs: IndexSet, body: (S, int) -> S, s: S)
    requires WellFormed(h, hs.segments)
    ensures ForallISet(h, hs, body, s) == Fold(Indices(h, hs), body, s)
  {
    SegmentLoopVisits(h, hs.segments, 0, body, s);
    assert hs.segments[0..] == hs.segments;
  }

  // ---------------------------------------------------------------------------
  // getIndices / getIndicesConditional.
  // ---------------------------------------------------------------------------

  function Push(v: seq<int>, i: int): seq<int>
  {
    v + [i]
  }

  function PushIf(cond: int -> bool): (seq<int>, int) -> seq<int>
  {
    (v: seq<int>, i: int) => if cond(i) then v + [i] else v
  }

  /** getIndices: reserve room for getLength() indices, then push every
      visited index onto the vector.  A negative running length converts to a
      size beyond the vector's maximum, so the reservation throws and no
      vector is returned. */
  function GetIndices(h: Heap, hs: IndexSet): Option<seq<int>>
    requires WellFormed(h, hs.segments)
  {
    if GetLength(hs) < 0 then None else Some(ForallISet(h, hs, Push, []))
  }

  /** getIndicesConditional: the same reservation, then push every visited
      index that satisfies `cond`. */
  function GetIndicesConditional(h: Heap, hs: IndexSet, cond: int -> bool): Option<seq<int>>
    requires WellFormed(h, hs.segments)
  {
    if GetLength(hs) < 0 then None else Some(ForallISet(h, hs, PushIf(cond), []))
  }

  /** The indices of `xs` that satisfy `cond`, in order. */
  function Filter(cond: int -> bool, xs: seq<int>): (r: seq<int>)
    decreases |xs|
  {
    if xs == [] then [] else (if cond(xs[0]) then [xs[0]] else []) + Filter(cond, xs[1..])
  }

  lemma {:induction false} FoldPush(xs: seq<int>, v: seq<int>)
    ensures Fold(xs, Push, v) == v + xs
    decreases |xs|
  {
    if xs != [] {
      FoldPush(xs[1..], v + [xs[0]]);
      assert v + [xs[0]] + xs[1..] == v + xs;
    }
  }

  lemma {:induction false} FoldPushIf(cond: int -> bool, xs: seq<int>, v: seq<int>)
    ensures Fold(xs, PushIf(cond), v) == v + Filter(cond, xs)
    decreases |xs|
  {
    if xs != [] {
      var x, rest := xs[0], xs[1..];
      var v' := PushIf(cond)(v, x);
      assert Fold(xs, PushIf(cond), v) == Fold(rest, PushIf(cond), v');
      FoldPushIf(cond, rest, v');
      var f := Filter(cond, rest);
      if cond(x) {
        assert Filter(cond, xs) == [x] + f;
        assert v' + f == v + ([x] + f);
      } else {
        assert Filter(cond, xs) == [] + f == f;
      }
    }
  }

  lemma {:induction false} FilterIsSubset(cond: int -> bool, xs: seq<int>)
    ensures forall x :: x in Filter(cond, xs) ==> x in xs && cond(x)
    ensures forall x :: x in xs && cond(x) ==> x in Filter(cond, xs)
    decreases |xs|
  {
    if xs != [] {
      FilterIsSubset(cond, xs[1..]);
      assert xs == [xs[0]] + xs[1..];
    }
  }

  /** getIndices fails exactly when the running length is negative, and
      otherwise returns exactly the set's indices in traversal order. */
  lemma GetIndicesIsTraversal(h: Heap, hs: IndexSet)
    requires WellFormed(h, hs.segments)
    ensures GetIndices(h, hs).None? <==> GetLength(hs) < 0
    ensures GetIndices(h, hs).Some? ==> GetIndices(h, hs).value == Indices(h, hs)
  {
    ForallISetVisitsIndices(h, hs, Push, []);
    FoldPush(Indices(h, hs), []);
  }

  /** getIndicesConditional fails exactly when getIndices does; otherwise it
      keeps, in traversal order, exactly the indices the condition accepts:
      every kept index is one of the set's and passes the condition, and every
      index of the set that passes is kept. */
  lemma GetIndicesConditionalIsFilter(h: Heap, hs: IndexSet, cond: int -> bool)
    requires WellFormed(h, hs.segments)
    ensures GetIndicesConditional(h, hs, cond).None? <==> GetLength(hs) < 0
    ensures GetIndicesConditional(h, hs, cond).Some? ==>
              GetIndicesConditional(h, hs, cond).value == Filter(cond, Indices(h, hs)) &&
              forall x :: x in GetIndicesConditional(h, hs, cond).value <==> x in Indices(h, hs) && cond(x)
  {
    ForallISetVisitsIndices(h, hs, PushIf(cond), []);
    FoldPushIf(cond, Indices(h, hs), []);
    FilterIsSubset(cond, Indices(h, hs));
  }

  /** A set holding only the reversed range `addRange(5, 3)` holds no index,
      but its running length is -2, so getIndices throws instead of returning
      the empty vector. */
  lemma ReversedRangeFailsGetIndices(h: Heap)
    ensures var hs := AddRange(Empty(), 5, 3);
            WellFormed(h, hs.segments) && Indices(h, hs) == [] && GetIndices(h, hs) == None
  {
    var hs := AddRange(Empty(), 5, 3);
    AddRangeAppendsInterval(h, Empty(), 5, 3);
    GetIndicesIsTraversal(h, hs);
  }

  /** Number of indices actually held: a reversed range reports a negative length
      but holds nothing, so the recorded length equals the number of indices
      getIndices returns only when no range is reversed. */
  predicate NoReversedRange(segs: seq<Segment>)
  {
    forall i :: 0 <= i < |segs| && segs[i].payload.RangePayload? ==>
      segs[i].payload.range.begin <= segs[i].payload.range.end
  }

  lemma {:induction false} FlatLength(h: Heap, segs: seq<Segment>)
    requires WellFormed(h, segs) && NoReversedRange(segs)
    ensures |Flat(h, segs)| == SumLengths(segs)
    decreases |segs|
  {
    if segs != [] {
      assert WellFormed(h, segs[1..]) && NoReversedRange(segs[1..]) by {
        forall i | 0 <= i < |segs[1..]| ensures segs[1..][i] == segs[i + 1] { }
      }
      FlatLength(h, segs[1..]);
    }
  }

  /** A set whose running length is consistent and which holds no reversed range
      has exactly getLength() indices, so getIndices succeeds and returns them. */
  lemma LengthCountsIndices(h: Heap, hs: IndexSet)
    requires WellFormed(h, hs.segments) && LengthConsistent(hs) && NoReversedRange(hs.segments)
    ensures |Indices(h, hs)| == GetLength(hs)
    ensures GetIndices(h, hs) == Some(Indices(h, hs))
  {
    GetIndicesIsTraversal(h, hs);
    FlatLength(h, hs.segments);
  }

  // ---------------------------------------------------------------------------
  // Reductions: the hybrid sum, minloc and maxloc pass the same accumulator
  // through every segment.
  // ---------------------------------------------------------------------------

  /** A reduction body `body(i, acc)` as a traversal step. */
  function SumStep<T>(body: (int, T) -> T): (T, int) -> T
  {
    (acc: T, i: int) => body(i, acc)
  }

  /** A location-reduction body `body(i, value, loc)` as a traversal step. */
  function LocStep<T>(body: (int, T, int) -> (T, int)): ((T, int), int) -> (T, int)
  {
    (acc: (T, int), i: int) => body(i, acc.0, acc.1)
  }

  /** forall_sum over a hybrid index set; `body(i, sum)` is the updated sum. */
  function ForallSum<T>(h: Heap, hs: IndexSet, sum: T, body: (int, T) -> T): T
    requires WellFormed(h, hs.segments)
  {
    ForallISet(h, hs, SumStep(body), sum)
  }

  /** forall_minloc over a hybrid index set; `body(i, min, loc)` is the updated pair. */
  function ForallMinloc<T>(h: Heap, hs: IndexSet, min: T, loc: int, body: (int, T, int) -> (T, int)): (T, int)
    requires WellFormed(h, hs.segments)
  {
    ForallISet(h, hs, LocStep(body), (min, loc))
  }

  /** forall_maxloc over a hybrid index set; `body(i, max, loc)` is the updated pair. */
  function ForallMaxloc<T>(h: Heap, hs: IndexSet, max: T, loc: int, body: (int, T, int) -> (T, int)): (T, int)
    requires WellFormed(h, hs.segments)
  {
    ForallISet(h, hs, LocStep(body), (max, loc))
  }

  function SumOver(f: int -> int, xs: seq<int>): int
    decreases |xs|
  {
    if xs == [] then 0 else f(xs[0]) + SumOver(f, xs[1..])
  }

  function AddTerm(f: int -> int): (int, int) -> int
  {
    (i: int, acc: int) => acc + f(i)
  }

  lemma {:induction false} FoldSum(f: int -> int, xs: seq<int>, acc: int)
    ensures Fold(xs, SumStep(AddTerm(f)), acc) == acc + SumOver(f, xs)
    decreases |xs|
  {
    if xs != [] {
      FoldSum(f, xs[1..], acc + f(xs[0]));
    }
  }

  /** A summing body (`*sum += f(i)`) run over the whole set adds f of every index
      once to the initial value, regardless of how the indices are split into
      segments. */
  lemma SumReducesOverAllIndices(h: Heap, hs: IndexSet, f: int -> int, sum: int)
    requires WellFormed(h, hs.segments)
    ensures ForallSum(h, hs, sum, AddTerm(f)) == sum + SumOver(f, Indices(h, hs))
  {
    ForallISetVisitsIndices(h, hs, SumStep(AddTerm(f)), sum);
    FoldSum(f, Indices(h, hs), sum);
  }

  /** The usual minloc body: `if (f(i) < *min) { *min = f(i); *loc = i; }`. */
  function MinStep(f: int -> int): (int, int, int) -> (int, int)
  {
    (i: int, m: int, loc: int) => if f(i) < m then (f(i), i) else (m, loc)
  }

  /** The usual maxloc body: `if (f(i) > *max) { *max = f(i); *loc = i; }`. */
  function MaxStep(f: int -> int): (int, int, int) -> (int, int)
  {
    (i: int, m: int, loc: int) => if f(i) > m then (f(i), i) else (m, loc)
  }

  lemma {:induction false} FoldMin(f: int -> int, xs: seq<int>, m: int, loc: int)
    ensures var r := Fold(xs, LocStep(MinStep(f)), (m, loc));
      r.0 <= m && (forall x :: x in xs ==> r.0 <= f(x)) &&
      (r == (m, loc) || (r.1 in xs && f(r.1) == r.0))
    decreases |xs|
  {
    if xs != [] {
      var step := MinStep(f)(xs[0], m, loc);
      FoldMin(f, xs[1..], step.0, step.1);
      assert forall x :: x in xs ==> x == xs[0] || x in xs[1..];
    }
  }

  lemma {:induction false} FoldMax(f: int -> int, xs: seq<int>, m: int, loc: int)
    ensures var r := Fold(xs, LocStep(MaxStep(f)), (m, loc));
      r.0 >= m && (forall x :: x in xs ==> r.0 >= f(x)) &&
      (r == (m, loc) || (r.1 in xs && f(r.1) == r.0))
    decreases |xs|
  {
    if xs != [] {
      var step := MaxStep(f)(xs[0], m, loc);
      FoldMax(f, xs[1..], step.0, step.1);
      assert forall x :: x in xs ==> x == xs[0] || x in xs[1..];
    }
  }

  /** With the usual body, minloc over the whole set ends with the least value of
      f over all segments (or the initial value, if none is smaller) and a
      location that is one of the set's indices attaining it. */
  lemma MinlocFindsGlobalMinimum(h: Heap, hs: IndexSet, f: int -> int, min: int, loc: int)
    requires WellFormed(h, hs.segments)
    ensures var r := ForallMinloc(h, hs, min, loc, MinStep(f));
      r.0 <= min && (forall x :: x in Indices(h, hs) ==> r.0 <= f(x)) &&
      (r == (min, loc) || (r.1 in Indices(h, hs) && f(r.1) == r.0))
  {
    ForallISetVisitsIndices(h, hs, LocStep(MinStep(f)), (min, loc));
    FoldMin(f, Indices(h, hs), min, loc);
  }

  /** Dually for maxloc. */
  lemma MaxlocFindsGlobalMaximum(h: Heap, hs: IndexSet, f: int -> int, max: int, loc: int)
    requires WellFormed(h, hs.segments)
    ensures var r := ForallMaxloc(h, hs, max, loc, MaxStep(f));
      r.0 >= max && (forall x :: x in Indices(h, hs) ==> r.0 >= f(x)) &&
      (r == (max, loc) || (r.1 in Indices(h, hs) && f(r.1) == r.0))
  {
    ForallISetVisitsIndices(h, hs, LocStep(MaxStep(f)), (max, loc));
    FoldMax(f, Indices(h, hs), max, loc);
  }
}
