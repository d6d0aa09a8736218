/** buildIndexSet: split an index array into aligned contiguous runs (added as
    RangeISet segments) and the stretches between them (added as ListISet
    segments), provided that this representation is smaller than the array;
    otherwise, or for short arrays, the whole array becomes one list.

    `RANGE_MIN_LENGTH` and `RANGE_ALIGN` are configuration constants defined
    outside this model; they are the parameters `minLen` and `align`. */
module Builder {
  import opened Memory
  import opened HybridIndexSet
  import R = RangeSegment

  /** One call the builder makes on the index set: `addRange(begin, end)`, or
      `addList(&indices_in[start], count)` (an Owned copy). */
  datatype AddCall = RangeCall(begin: int, end: int) | ListCall(start: nat, count: nat)

  // ---------------------------------------------------------------------------
  // Reference decomposition.
  // ---------------------------------------------------------------------------

  /** Position `p` starts a range: the next element continues it and `a[p]` is
      aligned.  (`%` truncates in C and is Euclidean here; both agree on whether
      the remainder is zero.) */
  predicate RangeStartAt(a: seq<int>, p: int, align: int)
    requires align >= 1
  {
    0 <= p && p + 1 < |a| && a[p + 1] == a[p] + 1 && a[p] % align == 0
  }

  /** The first position `r >= j` at which the run of consecutive values ends
      (`a[r] != a[r-1] + 1`, or the end of the array). */
  function RunEnd(a: seq<int>, j: int): (r: int)
    requires 1 <= j <= |a|
    ensures j <= r <= |a|
    ensures forall k :: j <= k < r ==> a[k] == a[k - 1] + 1
    ensures r < |a| ==> a[r] != a[r - 1] + 1
    decreases |a| - j
  {
    if j == |a| || a[j] != a[j - 1] + 1 then j else RunEnd(a, j + 1)
  }

  /** The first range start at or after `p` (or the end of the array). */
  function NextRangeStart(a: seq<int>, p: int, align: int): (r: int)
    requires 0 <= p <= |a| && align >= 1
    ensures p <= r <= |a|
    ensures forall q :: p <= q < r ==> !RangeStartAt(a, q, align)
    ensures r < |a| ==> RangeStartAt(a, r, align)
    decreases |a| - p
  {
    if p == |a| || RangeStartAt(a, p, align) then p else NextRangeStart(a, p + 1, align)
  }

  /** Where the segment starting at position `i` ends: at a range start, the
      end of the maximal run of consecutive values; elsewhere, the next range
      start. */
  function SegEnd(a: seq<int>, i: int, align: int): (r: int)
    requires 0 <= i < |a| && align >= 1
    ensures i < r <= |a|
  {
    if RangeStartAt(a, i, align) then RunEnd(a, i + 1) else NextRangeStart(a, i + 1, align)
  }

  /** The segment starting at position `i`: a range of the run's values, or a
      list of the positions up to the next range start. */
  function SegHead(a: seq<int>, i: int, align: int): AddCall
    requires 0 <= i < |a| && align >= 1
  {
    var e := SegEnd(a, i, align);
    if RangeStartAt(a, i, align) then RangeCall(a[i], a[i] + (e - i)) else ListCall(i, e - i)
  }

  /** The segments the emission pass produces from position `i` on. */
  function Seg(a: seq<int>, i: int, align: int): seq<AddCall>
    requires 0 <= i <= |a| && align >= 1
    decreases |a| - i
  {
    if i == |a| then [] else [SegHead(a, i, align)] + Seg(a, SegEnd(a, i, align), align)
  }

  /** The size of the compressed representation the statistics pass counts: a
      range costs its begin and its length, a list its length and its elements. */
  function Cost(calls: seq<AddCall>): int
  {
    if calls == [] then 0
    else (match calls[0] case RangeCall(_, _) => 2 case ListCall(_, c) => 1 + c) + Cost(calls[1..])
  }

  /** A list call reads inside an array of `n` elements. */
  predicate CallFits(c: AddCall, n: int)
  {
    c.ListCall? ==> c.start + c.count <= n
  }

  predicate CallsFit(calls: seq<AddCall>, n: int)
  {
    forall k :: 0 <= k < |calls| ==> CallFits(calls[k], n)
  }

  /** The indices one call adds, reading list elements from `a`. */
  function CallIndices(a: seq<int>, c: AddCall): seq<int>
    requires CallFits(c, |a|)
  {
    match c
    case RangeCall(b, e) => R.Interval(b, e)
    case ListCall(st, cnt) => a[st .. st + cnt]
  }

  /** The indices a sequence of calls adds, in order. */
  function Flatten(a: seq<int>, calls: seq<AddCall>): seq<int>
    requires CallsFit(calls, |a|)
  {
    if calls == [] then [] else CallIndices(a, calls[0]) + Flatten(a, calls[1..])
  }

  lemma FlattenCons(a: seq<int>, c: AddCall, t: seq<AddCall>)
    requires CallFits(c, |a|) && CallsFit(t, |a|)
    ensures CallsFit([c] + t, |a|)
    ensures Flatten(a, [c] + t) == CallIndices(a, c) + Flatten(a, t)
  {
    assert ([c] + t)[1..] == t;
  }

  lemma SegStepList(a: seq<int>, d: int, n: int, align: int)
    requires align >= 1 && 0 <= d < n <= |a|
    requires forall q :: d <= q < n ==> !RangeStartAt(a, q, align)
    requires n < |a| ==> RangeStartAt(a, n, align)
    ensures Seg(a, d, align) == [ListCall(d, n - d)] + Seg(a, n, align)
  {
    var m := NextRangeStart(a, d + 1, align);
    assert m == n;
  }

  lemma SegStepRange(a: seq<int>, s: int, e: int, align: int)
    requires align >= 1 && 0 <= s < e <= |a| && RangeStartAt(a, s, align)
    requires forall k :: s < k < e ==> a[k] == a[k - 1] + 1
    requires e < |a| ==> a[e] != a[e - 1] + 1
    ensures Seg(a, s, align) == [RangeCall(a[s], a[s] + (e - s))] + Seg(a, e, align)
  {
    var m := RunEnd(a, s + 1);
    assert m == e;
  }

  // ---------------------------------------------------------------------------
  // The two passes.  Both run the same scan over the array (the same `inrange`,
  // `scanVal` and `sliceCount` updates); the statistics pass adds up the cost of
  // each segment the scan closes, the emission pass adds the segment.  Only the
  // emission pass needs `dobegin`; carrying it in the statistics pass changes
  // nothing there.
  // ---------------------------------------------------------------------------

  /** `inrange` is -1 before the first comparison, 1 inside a range and 0 inside a
      list.  `dobegin` is the first value of the current range, or the position
      of the first element of the current list. */
  datatype ScanState = ScanState(inrange: int, scanVal: int, sliceCount: int, dobegin: int)

  /** What one iteration hands over: nothing, a finished list (position and
      count), a finished range (first value and count), or, after a loop that
      never ran, the lone value `scanVal`. */
  datatype Event = NoEvent | ListClosed(start: int, count: int) | RangeClosed(first: int, count: int) | LoneValue(v: int)

  function StartState(a: seq<int>): ScanState
    requires |a| >= 1
  {
    ScanState(-1, a[0], 0, a[0])
  }

  /** One iteration of the scan loop, looking ahead at `a[ii]`. */
  function ScanStep(a: seq<int>, align: int, ii: int, st: ScanState): (ScanState, Event)
    requires align >= 1 && 1 <= ii < |a|
  {
    var lookAhead := a[ii];
    var st1 :=
      if st.inrange != -1 then st
      else if lookAhead == st.scanVal + 1 && st.scanVal % align == 0 then st.(inrange := 1)
      else st.(inrange := 0, dobegin := ii - 1);
    var (st2, ev) :=
      if lookAhead == st1.scanVal + 1 then
        if st1.inrange == 0 && st1.scanVal % align == 0 then
          (st1.(inrange := 1, dobegin := st1.scanVal, sliceCount := 1),
           if st1.sliceCount != 0 then ListClosed(st1.dobegin, st1.sliceCount) else NoEvent)
        else (st1.(sliceCount := st1.sliceCount + 1), NoEvent)
      else if st1.inrange == 1 then
        (st1.(inrange := 0, sliceCount := 0, dobegin := ii), RangeClosed(st1.dobegin, st1.sliceCount + 1))
      else (st1.(sliceCount := st1.sliceCount + 1), NoEvent);
    (st2.(scanVal := lookAhead), ev)
  }

  /** The code after the loop: close the open range or list; if the loop never
      ran, the lone value is handed over unless it is -1. */
  function ScanEnd(st: ScanState): Event
  {
    if st.inrange != -1 then
      if st.inrange == 1 then RangeClosed(st.dobegin, st.sliceCount + 1)
      else ListClosed(st.dobegin, st.sliceCount + 1)
    else if st.scanVal != -1 then LoneValue(st.scanVal)
    else NoEvent
  }

  /** What the statistics pass adds to `docount` for an event. */
  function EventCost(ev: Event): int
  {
    match ev
    case NoEvent => 0
    case ListClosed(_, c) => 1 + c
    case RangeClosed(_, _) => 2
    case LoneValue(_) => 2
  }

  /** What the emission pass adds to the index set for an event.  A lone value
      is added as `addList(&scanVal, 1)`; the loop never ran, so that value is
      `a[0]` and the list is the array's first element. */
  function EventCalls(ev: Event): seq<AddCall>
    requires ev.ListClosed? ==> ev.start >= 0 && ev.count >= 0
  {
    match ev
    case NoEvent => []
    case ListClosed(st, c) => [ListCall(st, c)]
    case RangeClosed(b, c) => [RangeCall(b, b + c)]
    case LoneValue(_) => [ListCall(0, 1)]
  }

  predicate EventOk(ev: Event)
  {
    ev.ListClosed? ==> ev.start >= 0 && ev.count >= 0
  }

  /** The elements `a[k]` for `lo < k < hi` each continue the previous one. */
  predicate Consecutive(a: seq<int>, lo: int, hi: int)
    requires 0 <= lo && hi <= |a|
  {
    forall k :: lo < k < hi ==> a[k] == a[k - 1] + 1
  }

  /** No range starts at a position in `[lo, hi)`. */
  predicate NoStartIn(a: seq<int>, lo: int, hi: int, align: int)
    requires align >= 1
  {
    forall q :: lo <= q < hi ==> !RangeStartAt(a, q, align)
  }

  /** `out` followed by the decomposition from `start` is the whole decomposition. */
  predicate Decomposes(a: seq<int>, align: int, full: seq<AddCall>, out: seq<AddCall>, start: int)
    requires align >= 1
  {
    0 <= start <= |a| && out + Seg(a, start, align) == full
  }

  /** Inside a range that began at position `start`, before looking ahead at `a[ii]`. */
  predicate InRange(a: seq<int>, align: int, ii: int, st: ScanState, start: int)
    requires align >= 1
  {
    1 <= ii <= |a| && st.inrange == 1 && st.scanVal == a[ii - 1] &&
    0 <= start && start + 2 <= ii && RangeStartAt(a, start, align) && st.dobegin == a[start] &&
    st.sliceCount == ii - 1 - start && Consecutive(a, start, ii)
  }

  /** Inside a list that began at position `start`, before looking ahead at `a[ii]`. */
  predicate InList(a: seq<int>, align: int, ii: int, st: ScanState, start: int)
    requires align >= 1
  {
    2 <= ii <= |a| && st.inrange == 0 && st.scanVal == a[ii - 1] &&
    start == st.dobegin && 0 <= start <= ii - 1 && st.sliceCount == ii - 1 - start &&
    NoStartIn(a, start, ii - 1, align)
  }

  /** The scan's loop invariant before looking ahead at `a[ii]`: either nothing
      has been compared yet, or the scan is inside a range or a list starting at
      `start` and `out` holds the segments already closed. */
  predicate ScanInv(a: seq<int>, align: int, full: seq<AddCall>, ii: int, st: ScanState, out: seq<AddCall>, start: int)
    requires align >= 1
  {
    (ii == 1 && 1 <= |a| && st == StartState(a) && out == [] && full == Seg(a, 0, align)) ||
    ((InRange(a, align, ii, st, start) || InList(a, align, ii, st, start)) && Decomposes(a, align, full, out, start))
  }

  /** Closing a non-empty list that ends where a range starts (or at the end). */
  lemma ListCloses(a: seq<int>, align: int, full: seq<AddCall>, out: seq<AddCall>, start: int, d: int)
    requires align >= 1 && 0 <= start < d <= |a|
    requires NoStartIn(a, start, d, align) && (d < |a| ==> RangeStartAt(a, d, align))
    requires Decomposes(a, align, full, out, start)
    ensures Decomposes(a, align, full, out + [ListCall(start, d - start)], d)
  {
    SegStepList(a, start, d, align);
    assert out + [ListCall(start, d - start)] + Seg(a, d, align) == out + Seg(a, start, align);
  }

  /** Closing a range at the first element that does not continue it (or at the end). */
  lemma RangeCloses(a: seq<int>, align: int, full: seq<AddCall>, out: seq<AddCall>, start: int, e: int)
    requires align >= 1 && 0 <= start < e <= |a| && RangeStartAt(a, start, align)
    requires Consecutive(a, start, e) && (e < |a| ==> a[e] != a[e - 1] + 1)
    requires Decomposes(a, align, full, out, start)
    ensures Decomposes(a, align, full, out + [RangeCall(a[start], a[start] + (e - start))], e)
  {
    SegStepRange(a, start, e, align);
    assert out + [RangeCall(a[start], a[start] + (e - start))] + Seg(a, e, align) == out + Seg(a, start, align);
  }

  lemma ScanFirstStep(a: seq<int>, align: int, full: seq<AddCall>) returns (start': int)
    requires align >= 1 && 2 <= |a| && full == Seg(a, 0, align)
    ensures var (st', ev) := ScanStep(a, align, 1, StartState(a));
      EventOk(ev) && ScanInv(a, align, full, 2, st', [] + EventCalls(ev), start')
  {
    start' := 0;
    var (st', ev) := ScanStep(a, align, 1, StartState(a));
    assert ev == NoEvent && [] + EventCalls(ev) == [];
    assert InRange(a, align, 2, st', 0) || InList(a, align, 2, st', 0);
  }

  /** In a list, an aligned pair closes the list (if it holds anything) and opens a range. */
  lemma ListMeetsRangeStart(a: seq<int>, align: int, full: seq<AddCall>, ii: int, st: ScanState, out: seq<AddCall>, start: int)
    returns (start': int)
    requires align >= 1 && ii < |a| && InList(a, align, ii, st, start) && Decomposes(a, align, full, out, start)
    requires RangeStartAt(a, ii - 1, align)
    ensures var (st', ev) := ScanStep(a, align, ii, st);
      EventOk(ev) && ScanInv(a, align, full, ii + 1, st', out + EventCalls(ev), start')
  {
    start' := ii - 1;
    if start < ii - 1 {
      ListClosedByRange(a, align, full, ii, st, out, start);
    } else {
      EmptyListMeetsRange(a, align, full, ii, st, out, start);
    }
  }

  /** A non-empty list is closed when an aligned pair opens a range. */
  lemma ListClosedByRange(a: seq<int>, align: int, full: seq<AddCall>, ii: int, st: ScanState, out: seq<AddCall>, start: int)
    requires align >= 1 && ii < |a| && InList(a, align, ii, st, start) && Decomposes(a, align, full, out, start)
    requires RangeStartAt(a, ii - 1, align) && start < ii - 1
    ensures var (st', ev) := ScanStep(a, align, ii, st);
      EventOk(ev) && ScanInv(a, align, full, ii + 1, st', out + EventCalls(ev), ii - 1)
  {
    var st' := ScanState(1, a[ii], 1, a[ii - 1]);
    var ev := if st.sliceCount != 0 then ListClosed(start, st.sliceCount) else NoEvent;
    assert ScanStep(a, align, ii, st) == (st', ev);
    assert Consecutive(a, ii - 1, ii + 1);
    assert InRange(a, align, ii + 1, st', ii - 1);
    ListCloses(a, align, full, out, start, ii - 1);
  }

  /** An empty list is dropped when an aligned pair opens a range. */
  lemma EmptyListMeetsRange(a: seq<int>, align: int, full: seq<AddCall>, ii: int, st: ScanState, out: seq<AddCall>, start: int)
    requires align >= 1 && ii < |a| && InList(a, align, ii, st, start) && Decomposes(a, align, full, out, start)
    requires RangeStartAt(a, ii - 1, align) && start >= ii - 1
    ensures var (st', ev) := ScanStep(a, align, ii, st);
      EventOk(ev) && ScanInv(a, align, full, ii + 1, st', out + EventCalls(ev), ii - 1)
  {
    var st' := ScanState(1, a[ii], 1, a[ii - 1]);
    var ev := if st.sliceCount != 0 then ListClosed(start, st.sliceCount) else NoEvent;
    assert ScanStep(a, align, ii, st) == (st', ev);
    assert Consecutive(a, ii - 1, ii + 1);
    assert InRange(a, align, ii + 1, st', ii - 1);
    assert out + EventCalls(ev) == out;
  }

  /** In a list, any other pair extends the list. */
  lemma ListContinues(a: seq<int>, align: int, full: seq<AddCall>, ii: int, st: ScanState, out: seq<AddCall>, start: int)
    returns (start': int)
    requires align >= 1 && ii < |a| && InList(a, align, ii, st, start) && Decomposes(a, align, full, out, start)
    requires !RangeStartAt(a, ii - 1, align)
    ensures var (st', ev) := ScanStep(a, align, ii, st);
      EventOk(ev) && ScanInv(a, align, full, ii + 1, st', out + EventCalls(ev), start')
  {
    start' := start;
    var st' := st.(scanVal := a[ii], sliceCount := st.sliceCount + 1);
    assert ScanStep(a, align, ii, st) == (st', NoEvent);
    assert out + EventCalls(NoEvent) == out;
    assert InList(a, align, ii + 1, st', start);
  }

  /** In a range, a consecutive value extends the range. */
  lemma RangeContinues(a: seq<int>, align: int, full: seq<AddCall>, ii: int, st: ScanState, out: seq<AddCall>, start: int)
    returns (start': int)
    requires align >= 1 && ii < |a| && InRange(a, align, ii, st, start) && Decomposes(a, align, full, out, start)
    requires a[ii] == a[ii - 1] + 1
    ensures var (st', ev) := ScanStep(a, align, ii, st);
      EventOk(ev) && ScanInv(a, align, full, ii + 1, st', out + EventCalls(ev), start')
  {
    start' := start;
    var st' := st.(scanVal := a[ii], sliceCount := st.sliceCount + 1);
    assert ScanStep(a, align, ii, st) == (st', NoEvent);
    assert out + EventCalls(NoEvent) == out;
    assert InRange(a, align, ii + 1, st', start);
  }

  /** In a range, a break closes the range and opens a list at the breaking element. */
  lemma RangeBreaks(a: seq<int>, align: int, full: seq<AddCall>, ii: int, st: ScanState, out: seq<AddCall>, start: int)
    returns (start': int)
    requires align >= 1 && ii < |a| && InRange(a, align, ii, st, start) && Decomposes(a, align, full, out, start)
    requires a[ii] != a[ii - 1] + 1
    ensures var (st', ev) := ScanStep(a, align, ii, st);
      EventOk(ev) && ScanInv(a, align, full, ii + 1, st', out + EventCalls(ev), start')
  {
    start' := ii;
    var st' := ScanState(0, a[ii], 0, ii);
    var ev := RangeClosed(a[start], ii - start);
    assert ScanStep(a, align, ii, st) == (st', ev);
    RangeCloses(a, align, full, out, start, ii);
    assert InList(a, align, ii + 1, st', ii);
  }

  /** Each iteration keeps the scan invariant. */
  lemma ScanStepKeeps(a: seq<int>, align: int, full: seq<AddCall>, ii: int, st: ScanState, out: seq<AddCall>, start: int)
    returns (start': int)
    requires align >= 1 && ii < |a| && ScanInv(a, align, full, ii, st, out, start)
    ensures var (st', ev) := ScanStep(a, align, ii, st);
      EventOk(ev) && ScanInv(a, align, full, ii + 1, st', out + EventCalls(ev), start')
  {
    if InList(a, align, ii, st, start) && Decomposes(a, align, full, out, start) {
      if RangeStartAt(a, ii - 1, align) {
        start' := ListMeetsRangeStart(a, align, full, ii, st, out, start);
      } else {
        start' := ListContinues(a, align, full, ii, st, out, start);
      }
    } else if InRange(a, align, ii, st, start) && Decomposes(a, align, full, out, start) {
      if a[ii] == a[ii - 1] + 1 {
        start' := RangeContinues(a, align, full, ii, st, out, start);
      } else {
        start' := RangeBreaks(a, align, full, ii, st, out, start);
      }
    } else {
      start' := ScanFirstStep(a, align, full);
    }
  }

  /** Once the whole array is scanned, the closing event completes the decomposition. */
  lemma ScanEndCompletes(a: seq<int>, align: int, full: seq<AddCall>, st: ScanState, out: seq<AddCall>, start: int)
    requires align >= 1 && ScanInv(a, align, full, |a|, st, out, start)
    ensures EventOk(ScanEnd(st))
    ensures |a| >= 2 ==> out + EventCalls(ScanEnd(st)) == full
    ensures |a| == 1 ==> out + EventCalls(ScanEnd(st)) == (if a[0] == -1 then [] else [ListCall(0, 1)])
  {
    if InRange(a, align, |a|, st, start) && Decomposes(a, align, full, out, start) {
      RangeCloses(a, align, full, out, start, |a|);
    } else if InList(a, align, |a|, st, start) && Decomposes(a, align, full, out, start) {
      ListCloses(a, align, full, out, start, |a|);
    }
  }

  lemma {:induction false} CostConcat(x: seq<AddCall>, y: seq<AddCall>)
    ensures Cost(x + y) == Cost(x) + Cost(y)
    decreases |x|
  {
    if x == [] {
      assert x + y == y;
    } else {
      assert (x + y)[1..] == x[1..] + y;
      assert (x + y)[0] == x[0];
      CostConcat(x[1..], y);
    }
  }

  lemma EventCostIsCost(ev: Event)
    requires EventOk(ev)
    ensures EventCost(ev) == Cost(EventCalls(ev))
  {
  }

  /** The statistics pass's loop invariant: the scan invariant, with `docount`
      the cost of the calls emitted so far. */
  predicate CountInv(a: seq<int>, align: int, full: seq<AddCall>, ii: int, st: ScanState, out: seq<AddCall>, start: int,
                     docount: int)
    requires align >= 1
  {
    1 <= ii <= |a| && ScanInv(a, align, full, ii, st, out, start) && docount == Cost(out)
  }

  /** One step of the statistics pass: it keeps the scan invariant and counts
      the calls the step emits. */
  method CountStep(a: seq<int>, align: int, ghost full: seq<AddCall>, ii: int, st: ScanState, docount: int,
                   ghost out: seq<AddCall>, ghost start: int)
    returns (st': ScanState, docount': int, ghost out': seq<AddCall>, ghost start': int)
    requires align >= 1 && ii < |a| && CountInv(a, align, full, ii, st, out, start, docount)
    ensures CountInv(a, align, full, ii + 1, st', out', start', docount')
  {
    var ev;
    st', ev := ScanStep(a, align, ii, st).0, ScanStep(a, align, ii, st).1;
    start' := ScanStepKeeps(a, align, full, ii, st, out, start);
    CostStep(out, ev);
    docount' := docount + EventCost(ev);
    out' := out + EventCalls(ev);
  }

  /** Counting an event adds the cost of the calls it emits. */
  lemma CostStep(out: seq<AddCall>, ev: Event)
    requires EventOk(ev)
    ensures Cost(out) + EventCost(ev) == Cost(out + EventCalls(ev))
  {
    EventCostIsCost(ev);
    CostConcat(out, EventCalls(ev));
  }

  /** The statistics pass: `docount` is one (the terminator) plus the cost of the
      decomposition the emission pass would produce.  A single index is
      costed 3, or 1 when that index is -1. */
  method CountStatistics(a: seq<int>, align: int) returns (docount: int)
    requires |a| >= 1 && align >= 1
    ensures |a| >= 2 ==> docount == 1 + Cost(Seg(a, 0, align))
    ensures |a| == 1 ==> docount == (if a[0] == -1 then 1 else 3)
  {
    ghost var full := Seg(a, 0, align);
    ScanStartHolds(a, align, full);
    var c, st, out, start := CountScan(a, align, full);
    var ev := ScanEnd(st);
    CountEnd(a, align, full, st, out, start, c);
    docount := c + EventCost(ev) + 1;
  }

  /** The loop of the statistics pass: the cost of everything emitted before
      the final event. */
  method CountScan(a: seq<int>, align: int, ghost full: seq<AddCall>)
    returns (docount: int, st: ScanState, ghost out: seq<AddCall>, ghost start: int)
    requires |a| >= 1 && align >= 1 && CountInv(a, align, full, 1, StartState(a), [], 0, 0)
    ensures CountInv(a, align, full, |a|, st, out, start, docount)
  {
    docount, st, out, start := 0, StartState(a), [], 0;
    var ii := 1;
    while ii < |a|
      invariant CountInv(a, align, full, ii, st, out, start, docount)
    {
      st, docount, out, start := CountStep(a, align, full, ii, st, docount, out, start);
      ii := ii + 1;
    }
  }

  lemma ScanStartHolds(a: seq<int>, align: int, full: seq<AddCall>)
    requires |a| >= 1 && align >= 1 && full == Seg(a, 0, align)
    ensures CountInv(a, align, full, 1, StartState(a), [], 0, 0)
  {
  }

  /** The final event of the statistics pass completes the count. */
  lemma CountEnd(a: seq<int>, align: int, full: seq<AddCall>, st: ScanState, out: seq<AddCall>, start: int, docount: int)
    requires align >= 1 && CountInv(a, align, full, |a|, st, out, start, docount)
    ensures |a| >= 2 ==> docount + EventCost(ScanEnd(st)) == Cost(full)
    ensures |a| == 1 ==> docount + EventCost(ScanEnd(st)) == (if a[0] == -1 then 0 else 2)
  {
    ScanEndCompletes(a, align, full, st, out, start);
    CostStep(out, ScanEnd(st));
    if |a| == 1 && a[0] != -1 {
      assert Cost([ListCall(0, 1)]) == 2;
    }
  }

  /** The emission pass: the calls it makes on the index set, in order.  For a
      one-element array it adds that element as a list, unless it is -1. */
  method EmitSegments(a: seq<int>, align: int) returns (out: seq<AddCall>)
    requires |a| >= 1 && align >= 1
    ensures |a| >= 2 ==> out == Seg(a, 0, align)
    ensures |a| == 1 ==> out == (if a[0] == -1 then [] else [ListCall(0, 1)])
  {
    var st := StartState(a);
    ghost var start := 0;
    ghost var full := Seg(a, 0, align);
    out := [];
    var ii := 1;
    while ii < |a|
      invariant ScanInv(a, align, full, ii, st, out, start)
    {
      var (st', ev) := ScanStep(a, align, ii, st);
      start := ScanStepKeeps(a, align, full, ii, st, out, start);
      out := out + EventCalls(ev);
      st := st';
      ii := ii + 1;
    }
    ScanEndCompletes(a, align, full, st, out, start);
    out := out + EventCalls(ScanEnd(st));
  }

  // ---------------------------------------------------------------------------
  // Properties of the decomposition.
  // ---------------------------------------------------------------------------

  /** The shape of one call in the decomposition: a range begins at an aligned
      value and holds at least two indices, a list is never empty. */
  predicate CallShaped(c: AddCall, align: int)
    requires align >= 1
  {
    match c
    case RangeCall(b, e) => e - b >= 2 && b % align == 0
    case ListCall(_, cnt) => cnt >= 1
  }

  /** The shape the decomposition promises: every call is shaped, and no two lists
      are adjacent (a list always ends where a range starts). */
  predicate WellShaped(calls: seq<AddCall>, align: int)
    requires align >= 1
  {
    (forall k :: 0 <= k < |calls| ==> CallShaped(calls[k], align)) &&
    (forall k :: 0 <= k < |calls| - 1 ==> !(calls[k].ListCall? && calls[k + 1].ListCall?))
  }

  lemma ShapeCons(c: AddCall, t: seq<AddCall>, align: int)
    requires align >= 1 && CallShaped(c, align) && WellShaped(t, align)
    requires c.ListCall? && t != [] ==> t[0].RangeCall?
    ensures WellShaped([c] + t, align)
  {
    var s := [c] + t;
    forall k | 1 <= k < |s| ensures s[k] == t[k - 1] { }
  }

  /** The segment at position `i` reads inside the array, stands for exactly
      the elements up to where it ends, and has the promised shape; a list ends
      only at a range start or at the end. */
  lemma SegHeadFacts(a: seq<int>, i: int, align: int)
    requires 0 <= i < |a| && align >= 1
    ensures var c, e := SegHead(a, i, align), SegEnd(a, i, align);
      CallFits(c, |a|) && CallIndices(a, c) == a[i..e] && CallShaped(c, align) &&
      (c.RangeCall? <==> RangeStartAt(a, i, align)) &&
      (c.ListCall? && e < |a| ==> RangeStartAt(a, e, align))
  {
    var e := SegEnd(a, i, align);
    if RangeStartAt(a, i, align) {
      assert a[i + 1] == a[i] + 1;
      IntervalOfRun(a, i, e);
    }
  }

  /** Every list of the decomposition reads inside the array. */
  lemma {:induction false} SegFits(a: seq<int>, i: int, align: int)
    requires 0 <= i <= |a| && align >= 1
    ensures CallsFit(Seg(a, i, align), |a|)
    decreases |a| - i
  {
    if i < |a| {
      SegHeadFacts(a, i, align);
      SegFits(a, SegEnd(a, i, align), align);
      FlattenCons(a, SegHead(a, i, align), Seg(a, SegEnd(a, i, align), align));
    }
  }

  /** The decomposition reproduces the array exactly. */
  lemma {:induction false} SegReassembles(a: seq<int>, i: int, align: int)
    requires 0 <= i <= |a| && align >= 1
    ensures CallsFit(Seg(a, i, align), |a|)
    ensures Flatten(a, Seg(a, i, align)) == a[i..]
    decreases |a| - i
  {
    SegFits(a, i, align);
    if i < |a| {
      var e, c := SegEnd(a, i, align), SegHead(a, i, align);
      var rest := Seg(a, e, align);
      assert Seg(a, i, align) == [c] + rest;
      SegHeadFacts(a, i, align);
      SegReassembles(a, e, align);
      FlattenCons(a, c, rest);
      assert Flatten(a, Seg(a, i, align)) == a[i..e] + a[e..];
      SliceJoin(a, i, e);
    }
  }

  /** The decomposition has the promised shape; it opens with a range exactly at
      a range start. */
  lemma {:induction false} SegShaped(a: seq<int>, i: int, align: int)
    requires 0 <= i <= |a| && align >= 1
    ensures WellShaped(Seg(a, i, align), align)
    ensures i < |a| ==> Seg(a, i, align) != [] && (Seg(a, i, align)[0].RangeCall? <==> RangeStartAt(a, i, align))
    decreases |a| - i
  {
    if i < |a| {
      var e := SegEnd(a, i, align);
      SegHeadFacts(a, i, align);
      SegShaped(a, e, align);
      ShapeCons(SegHead(a, i, align), Seg(a, e, align), align);
    }
  }

  /** A run of consecutive values is the interval from its first value. */
  lemma {:induction false} IntervalOfRun(a: seq<int>, s: int, e: int)
    requires 0 <= s < e <= |a|
    requires forall k :: s < k < e ==> a[k] == a[k - 1] + 1
    ensures R.Interval(a[s], a[s] + (e - s)) == a[s..e]
    decreases e - s
  {
    if e == s + 1 {
      assert a[s..e] == [a[s]];
    } else {
      IntervalOfRun(a, s, e - 1);
      assert a[e - 2] == a[s..e - 1][e - 2 - s];
      assert a[e - 1] == a[s] + (e - 1 - s);
      R.IntervalSplit(a[s], a[s] + (e - 1 - s), a[s] + (e - s));
      assert R.Interval(a[s] + (e - 1 - s), a[s] + (e - s)) == [a[e - 1]];
      assert a[s..e] == a[s..e - 1] + [a[e - 1]];
    }
  }

  // ---------------------------------------------------------------------------
  // Performing the calls.
  // ---------------------------------------------------------------------------

  function ApplyCall(h: Heap, hs: IndexSet, p: Ptr, n: int, c: AddCall): (r: (Heap, IndexSet))
    requires Memory.Readable(h, p, n) && CallFits(c, n)
    ensures Extends(h, r.0)
  {
    match c
    case RangeCall(b, e) => (h, AddRange(hs, b, e))
    case ListCall(st, cnt) =>
      if cnt == 0 then AddList(h, hs, p, 0, Owned)
      else AddList(h, hs, Ptr(p.buf, p.off + st), cnt, Owned)
  }

  /** Perform the calls in order on the index set; lists are copied out of the
      `n`-element array at `p`. */
  function Apply(h: Heap, hs: IndexSet, p: Ptr, n: int, calls: seq<AddCall>): (r: (Heap, IndexSet))
    requires Memory.Readable(h, p, n) && CallsFit(calls, n)
    ensures Extends(h, r.0)
    decreases |calls|
  {
    if calls == [] then (h, hs)
    else
      var (h1, s1) := ApplyCall(h, hs, p, n, calls[0]);
      ReadStable(h, h1, p, n);
      Apply(h1, s1, p, n, calls[1..])
  }

  function CallLength(c: AddCall): int
  {
    match c
    case RangeCall(b, e) => e - b
    case ListCall(_, cnt) => cnt
  }

  function CallsLength(calls: seq<AddCall>): int
  {
    if calls == [] then 0 else CallLength(calls[0]) + CallsLength(calls[1..])
  }

  /** The segment a call adds: a range segment with the call's bounds, or a list
      segment with the call's count. */
  predicate Represents(seg: Segment, c: AddCall)
  {
    match c
    case RangeCall(b, e) => seg.payload == RangePayload(R.RangeISet(b, e))
    case ListCall(_, cnt) => seg.payload.ListPayload? && seg.payload.list.len == cnt
  }

  /** What one call does to the index set: it appends one fresh segment holding
      the call's indices. */
  predicate AppendsCall(h: Heap, hs: IndexSet, a: seq<int>, c: AddCall, h1: Heap, s1: IndexSet)
    requires WellFormed(h, hs.segments) && CallFits(c, |a|)
  {
    WellFormed(h1, s1.segments) &&
    Indices(h1, s1) == Indices(h, hs) + CallIndices(a, c) &&
    SegmentAppended(hs, c, |h|, s1)
  }

  /** The segment bookkeeping of one call: one segment standing for the call is
      appended, and its list (if any) is allocated at or after heap size `n`. */
  predicate SegmentAppended(hs: IndexSet, c: AddCall, n: nat, s1: IndexSet)
  {
    s1.len == hs.len + CallLength(c) &&
    (LengthConsistent(hs) ==> LengthConsistent(s1)) &&
    |s1.segments| == |hs.segments| + 1 && s1.segments[..|hs.segments|] == hs.segments &&
    Represents(s1.segments[|hs.segments|], c) &&
    FreshOwnedLists(s1.segments, |hs.segments|, n) && FreshMetadata(s1.segments, |hs.segments|)
  }

  lemma ApplyRangeCall(h: Heap, hs: IndexSet, p: Ptr, n: int, b: int, e: int)
    requires Memory.Readable(h, p, n) && WellFormed(h, hs.segments)
    ensures AppendsCall(h, hs, Read(h, p, n), RangeCall(b, e),
      ApplyCall(h, hs, p, n, RangeCall(b, e)).0, ApplyCall(h, hs, p, n, RangeCall(b, e)).1)
  {
    AddRangeAppendsInterval(h, hs, b, e);
    AddSegmentAppends(h, hs, RangePayload(R.RangeISet(b, e)));
  }

  /** The `cnt` elements from position `st` of the array are a slice of it. */
  lemma ReadSlice(h: Heap, p: Ptr, n: int, st: nat, cnt: nat)
    requires Memory.Readable(h, p, n) && st + cnt <= n
    ensures var q := if cnt == 0 then p else Ptr(p.buf, p.off + st);
      Memory.Readable(h, q, cnt) && Read(h, q, cnt) == Read(h, p, n)[st .. st + cnt]
  {
  }

  /** An Owned addList appends one list segment of the requested count whose
      array, if any, is freshly allocated. */
  lemma ListSegmentAppended(h: Heap, hs: IndexSet, q: Ptr, st: nat, cnt: nat)
    requires Memory.Readable(h, q, cnt)
    ensures SegmentAppended(hs, ListCall(st, cnt), |h|, AddList(h, hs, q, cnt, Owned).1)
  {
    var (h1, l) := L.Init(h, q, cnt, Owned);
    SumAppend(hs.segments, NewSegment(ListPayload(l)));
  }

  lemma ApplyListCall(h: Heap, hs: IndexSet, p: Ptr, n: int, st: nat, cnt: nat)
    requires Memory.Readable(h, p, n) && st + cnt <= n && WellFormed(h, hs.segments)
    ensures AppendsCall(h, hs, Read(h, p, n), ListCall(st, cnt),
      ApplyCall(h, hs, p, n, ListCall(st, cnt)).0, ApplyCall(h, hs, p, n, ListCall(st, cnt)).1)
  {
    var q := if cnt == 0 then p else Ptr(p.buf, p.off + st);
    ReadSlice(h, p, n, st, cnt);
    var (h1, s1) := AddList(h, hs, q, cnt, Owned);
    assert ApplyCall(h, hs, p, n, ListCall(st, cnt)) == (h1, s1);
    assert CallIndices(Read(h, p, n), ListCall(st, cnt)) == Read(h, q, cnt);
    AddListAppendsElements(h, hs, q, cnt, Owned);
    ListSegmentAppended(h, hs, q, st, cnt);
  }

  lemma ApplyCallAppends(h: Heap, hs: IndexSet, p: Ptr, n: int, c: AddCall)
    requires Memory.Readable(h, p, n) && CallFits(c, n) && WellFormed(h, hs.segments)
    ensures AppendsCall(h, hs, Read(h, p, n), c, ApplyCall(h, hs, p, n, c).0, ApplyCall(h, hs, p, n, c).1)
  {
    if c.RangeCall? {
      ApplyRangeCall(h, hs, p, n, c.begin, c.end);
    } else {
      ApplyListCall(h, hs, p, n, c.start, c.count);
    }
  }

  /** What a sequence of calls does to the index set: it appends, in order, one
      fresh segment per call holding the call's indices, and grows the length by
      the calls' lengths. */
  predicate AppendsCalls(h: Heap, hs: IndexSet, a: seq<int>, calls: seq<AddCall>, h': Heap, r: IndexSet)
    requires WellFormed(h, hs.segments) && CallsFit(calls, |a|)
  {
    WellFormed(h', r.segments) &&
    Indices(h', r) == Indices(h, hs) + Flatten(a, calls) &&
    SegmentsAppended(hs, calls, |h|, r)
  }

  /** The segment bookkeeping of a sequence of calls. */
  predicate SegmentsAppended(hs: IndexSet, calls: seq<AddCall>, n: nat, r: IndexSet)
  {
    r.len == hs.len + CallsLength(calls) &&
    (LengthConsistent(hs) ==> LengthConsistent(r)) &&
    |r.segments| == |hs.segments| + |calls| && r.segments[..|hs.segments|] == hs.segments &&
    (forall k :: 0 <= k < |calls| ==> Represents(r.segments[|hs.segments| + k], calls[k])) &&
    FreshOwnedLists(r.segments, |hs.segments|, n) && FreshMetadata(r.segments, |hs.segments|)
  }

  lemma FitsTail(calls: seq<AddCall>, n: int)
    requires calls != [] && CallsFit(calls, n)
    ensures CallFits(calls[0], n) && CallsFit(calls[1..], n)
  {
    forall k | 0 <= k < |calls[1..]| ensures calls[1..][k] == calls[k + 1] { }
  }

  lemma IndicesCompose(h: Heap, hs: IndexSet, a: seq<int>, calls: seq<AddCall>, h1: Heap, s1: IndexSet, h': Heap, r: IndexSet)
    requires calls != [] && CallsFit(calls, |a|) && WellFormed(h, hs.segments) && WellFormed(h1, s1.segments)
    requires CallFits(calls[0], |a|) && CallsFit(calls[1..], |a|)
    requires Indices(h1, s1) == Indices(h, hs) + CallIndices(a, calls[0])
    requires WellFormed(h', r.segments) && Indices(h', r) == Indices(h1, s1) + Flatten(a, calls[1..])
    ensures Indices(h', r) == Indices(h, hs) + Flatten(a, calls)
  {
    assert Flatten(a, calls) == CallIndices(a, calls[0]) + Flatten(a, calls[1..]);
    AppendAssoc(Indices(h, hs), CallIndices(a, calls[0]), Flatten(a, calls[1..]));
  }

  lemma AppendAssoc(x: seq<int>, y: seq<int>, z: seq<int>)
    ensures (x + y) + z == x + (y + z)
  {
  }

  lemma AppendsCompose(h: Heap, hs: IndexSet, a: seq<int>, calls: seq<AddCall>, h1: Heap, s1: IndexSet, h': Heap, r: IndexSet)
    requires calls != [] && CallsFit(calls, |a|) && WellFormed(h, hs.segments) && |h| <= |h1|
    requires CallFits(calls[0], |a|) && CallsFit(calls[1..], |a|)
    requires AppendsCall(h, hs, a, calls[0], h1, s1)
    requires AppendsCalls(h1, s1, a, calls[1..], h', r)
    ensures AppendsCalls(h, hs, a, calls, h', r)
  {
    IndicesCompose(h, hs, a, calls, h1, s1, h', r);
    SegmentsCompose(hs, calls, |h|, s1, |h1|, r);
  }

  lemma SegmentsCompose(hs: IndexSet, calls: seq<AddCall>, n: nat, s1: IndexSet, n1: nat, r: IndexSet)
    requires calls != [] && n <= n1
    requires SegmentAppended(hs, calls[0], n, s1) && SegmentsAppended(s1, calls[1..], n1, r)
    ensures SegmentsAppended(hs, calls, n, r)
  {
    CopyFromPrefix(hs.segments, s1.segments, r.segments, n, n1);
    RepresentsCompose(hs.segments, s1.segments, r.segments, calls);
  }

  lemma RepresentsCompose(a: seq<Segment>, a1: seq<Segment>, r: seq<Segment>, calls: seq<AddCall>)
    requires calls != [] && |a1| == |a| + 1 && |r| == |a1| + |calls| - 1 && r[..|a1|] == a1
    requires Represents(a1[|a|], calls[0])
    requires forall k :: 0 <= k < |calls| - 1 ==> Represents(r[|a1| + k], calls[1..][k])
    ensures forall k :: 0 <= k < |calls| ==> Represents(r[|a| + k], calls[k])
  {
    forall k | 0 <= k < |calls| ensures Represents(r[|a| + k], calls[k]) {
      if k == 0 {
        assert r[|a|] == r[..|a1|][|a|];
      } else {
        assert calls[1..][k - 1] == calls[k];
      }
    }
  }

  /** Performing the calls appends, in order, the indices they stand for. */
  lemma {:induction false} ApplyAppends(h: Heap, hs: IndexSet, p: Ptr, n: int, calls: seq<AddCall>)
    requires Memory.Readable(h, p, n) && CallsFit(calls, n) && CallsFit(calls, |Read(h, p, n)|)
    requires WellFormed(h, hs.segments)
    ensures var (h', r) := Apply(h, hs, p, n, calls);
      AppendsCalls(h, hs, Read(h, p, n), calls, h', r)
    decreases |calls|
  {
    var a := Read(h, p, n);
    if calls == [] {
      assert Flatten(a, calls) == [] && Indices(h, hs) + [] == Indices(h, hs);
    } else {
      var (h1, s1) := ApplyCall(h, hs, p, n, calls[0]);
      ReadStable(h, h1, p, n);
      FitsTail(calls, n);
      FitsTail(calls, |a|);
      ApplyCallAppends(h, hs, p, n, calls[0]);
      ApplyAppends(h1, s1, p, n, calls[1..]);
      var (h', r) := Apply(h1, s1, p, n, calls[1..]);
      assert (h', r) == Apply(h, hs, p, n, calls);
      AppendsCompose(h, hs, a, calls, h1, s1, h', r);
    }
  }

  // ---------------------------------------------------------------------------
  // buildIndexSet.
  // ---------------------------------------------------------------------------

  /** Reference plan for the calls buildIndexSet makes on an array `a` of
      positive length: short arrays, and arrays whose compressed cost does not
      beat the cutoff, become one list; otherwise the decomposition is used. */
  function Plan(a: seq<int>, minLen: int, align: int): (r: seq<AddCall>)
    requires |a| >= 1 && align >= 1
    ensures CallsFit(r, |a|)
  {
    SegReassembles(a, 0, align);
    if Compresses(a, minLen, align) then Seg(a, 0, align) else [ListCall(0, |a|)]
  }

  /** The array is longer than the minimum and its decomposition, counted with
      the terminator, costs less than the cutoff `length*(align-1)/align` (the
      cutoff is never negative here, so C's truncating division and Dafny's
      agree). */
  predicate Compresses(a: seq<int>, minLen: int, align: int)
    requires align >= 1
  {
    |a| > minLen && |a| >= 2 && 1 + Cost(Seg(a, 0, align)) < (|a| * (align - 1)) / align
  }

  /** A one-element array never passes the cutoff, so the emission pass's
      one-element branch is never taken. */
  lemma SingleCutoffIsZero(align: int)
    requires align >= 1
    ensures (1 * (align - 1)) / align == 0
  {
  }

  /** The reference meaning of buildIndexSet: a zero length changes nothing, a
      negative length adds one empty list, a positive length performs the plan. */
  function Build(h: Heap, hs: IndexSet, p: Ptr, length: int, minLen: int, align: int): (r: (Heap, IndexSet))
    requires align >= 1 && Memory.Readable(h, p, length)
  {
    if length == 0 then (h, hs)
    else if length < 0 then AddList(h, hs, p, length, Owned)
    else Apply(h, hs, p, length, Plan(Read(h, p, length), minLen, align))
  }

  lemma PlanShaped(a: seq<int>, minLen: int, align: int)
    requires |a| >= 1 && align >= 1
    ensures WellShaped(Plan(a, minLen, align), align)
  {
    PlanReassembles(a, minLen, align);
  }

  /** Every plan stands for the whole array, and has the promised shape. */
  lemma PlanReassembles(a: seq<int>, minLen: int, align: int)
    requires |a| >= 1 && align >= 1
    ensures Flatten(a, Plan(a, minLen, align)) == a
    ensures WellShaped(Plan(a, minLen, align), align)
    ensures CallsLength(Plan(a, minLen, align)) == |a|
  {
    if Plan(a, minLen, align) == [ListCall(0, |a|)] {
      WholeListCall(a, align);
    } else {
      SegReassembles(a, 0, align);
      SegShaped(a, 0, align);
      FlattenLength(a, Seg(a, 0, align), align);
    }
  }

  lemma WholeListCall(a: seq<int>, align: int)
    requires |a| >= 1 && align >= 1
    ensures CallsFit([ListCall(0, |a|)], |a|) && Flatten(a, [ListCall(0, |a|)]) == a
    ensures WellShaped([ListCall(0, |a|)], align) && CallsLength([ListCall(0, |a|)]) == |a|
  {
    assert [ListCall(0, |a|)][1..] == [];
    assert a[0..|a|] == a;
  }

  /** Performing the whole-array plan is a single addList of the array. */
  lemma WholeListApply(h: Heap, hs: IndexSet, p: Ptr, n: int)
    requires n >= 1 && Memory.Readable(h, p, n)
    ensures CallsFit([ListCall(0, n)], n)
    ensures Apply(h, hs, p, n, [ListCall(0, n)]) == AddList(h, hs, p, n, Owned)
  {
    assert [ListCall(0, n)][1..] == [];
    assert Ptr(p.buf, p.off + 0) == p;
  }

  /** For well-shaped calls the reported length is the number of indices added. */
  lemma {:induction false} FlattenLength(a: seq<int>, calls: seq<AddCall>, align: int)
    requires align >= 1 && CallsFit(calls, |a|) && WellShaped(calls, align)
    ensures CallsLength(calls) == |Flatten(a, calls)|
    decreases |calls|
  {
    if calls != [] {
      FitsTail(calls, |a|);
      ShapeTail(calls, align);
      FlattenLength(a, calls[1..], align);
    }
  }

  lemma ShapeTail(calls: seq<AddCall>, align: int)
    requires align >= 1 && calls != [] && WellShaped(calls, align)
    ensures CallShaped(calls[0], align) && WellShaped(calls[1..], align)
  {
    var t := calls[1..];
    forall k | 0 <= k < |t| ensures t[k] == calls[k + 1] { }
  }

  /** Round trip: whatever the configuration, buildIndexSet appends exactly the
      input array to the set's traversal, grows the length by the number of
      indices, leaves the earlier segments alone, and every list it adds owns a
      fresh copy. */
  lemma BuildRoundTrip(h: Heap, hs: IndexSet, p: Ptr, length: int, minLen: int, align: int)
    requires align >= 1 && Memory.Readable(h, p, length) && WellFormed(h, hs.segments)
    ensures var (h', r) := Build(h, hs, p, length, minLen, align);
      Extends(h, h') && WellFormed(h', r.segments) &&
      Indices(h', r) == Indices(h, hs) + Read(h, p, length) &&
      r.len == hs.len + |Read(h, p, length)| && (LengthConsistent(hs) ==> LengthConsistent(r)) &&
      |r.segments| >= |hs.segments| && r.segments[..|hs.segments|] == hs.segments &&
      FreshOwnedLists(r.segments, |hs.segments|, |h|)
  {
    if length > 0 {
      var a := Read(h, p, length);
      PlanReassembles(a, minLen, align);
      ApplyAppends(h, hs, p, length, Plan(a, minLen, align));
    } else if length < 0 {
      AddListAppendsElements(h, hs, p, length, Owned);
      AddSegmentAppends(h, hs, ListPayload(L.ListISet(NullPtr, 0, Unowned)));
    } else {
      assert Indices(h, hs) + [] == Indices(h, hs);
    }
  }

  /** The shape promised of the segments from position `from` on: ranges begin
      at an aligned value and hold at least two indices, lists are never empty,
      and no list directly follows another. */
  predicate SegmentsShaped(segs: seq<Segment>, from: nat, align: int)
    requires align >= 1
  {
    (forall k :: from <= k < |segs| && segs[k].payload.RangePayload? ==>
       R.Length(segs[k].payload.range) >= 2 && segs[k].payload.range.begin % align == 0) &&
    (forall k :: from <= k < |segs| && segs[k].payload.ListPayload? ==> segs[k].payload.list.len >= 1) &&
    (forall k :: from <= k < |segs| - 1 ==> !(segs[k].payload.ListPayload? && segs[k + 1].payload.ListPayload?))
  }

  lemma ShapedSegments(segs: seq<Segment>, from: nat, calls: seq<AddCall>, align: int)
    requires align >= 1 && |segs| == from + |calls| && WellShaped(calls, align)
    requires forall k :: 0 <= k < |calls| ==> Represents(segs[from + k], calls[k])
    ensures SegmentsShaped(segs, from, align)
  {
    forall k | from <= k < |segs| ensures Represents(segs[k], calls[k - from]) && CallShaped(calls[k - from], align) {
      assert segs[from + (k - from)] == segs[k];
    }
  }

  lemma ApplySegments(h: Heap, hs: IndexSet, p: Ptr, n: int, calls: seq<AddCall>)
    requires Memory.Readable(h, p, n) && CallsFit(calls, n) && CallsFit(calls, |Read(h, p, n)|)
    requires WellFormed(h, hs.segments)
    ensures SegmentsAppended(hs, calls, |h|, Apply(h, hs, p, n, calls).1)
  {
    ApplyAppends(h, hs, p, n, calls);
  }

  /** What buildIndexSet adds for a positive length: one segment per planned
      call, in order, with the promised shape. */
  lemma BuildSegments(h: Heap, hs: IndexSet, p: Ptr, length: int, minLen: int, align: int)
    requires align >= 1 && length > 0 && Memory.Readable(h, p, length) && WellFormed(h, hs.segments)
    ensures var r := Build(h, hs, p, length, minLen, align).1;
      var calls := Plan(Read(h, p, length), minLen, align);
      |r.segments| == |hs.segments| + |calls| &&
      (forall k :: 0 <= k < |calls| ==> Represents(r.segments[|hs.segments| + k], calls[k])) &&
      SegmentsShaped(r.segments, |hs.segments|, align)
  {
    var a := Read(h, p, length);
    var calls := Plan(a, minLen, align);
    var r := Apply(h, hs, p, length, calls).1;
    assert Build(h, hs, p, length, minLen, align).1 == r;
    PlanShaped(a, minLen, align);
    ApplySegments(h, hs, p, length, calls);
    ShapedSegments(r.segments, |hs.segments|, calls, align);
  }

  /** Without compression, buildIndexSet adds a single Owned list over a fresh
      copy of the whole array. */
  lemma BuildWholeList(h: Heap, hs: IndexSet, p: Ptr, length: int, minLen: int, align: int)
    requires align >= 1 && length > 0 && Memory.Readable(h, p, length)
    requires !Compresses(Read(h, p, length), minLen, align)
    ensures var r := Build(h, hs, p, length, minLen, align).1;
      r.segments == hs.segments + [NewSegment(ListPayload(L.ListISet(Ptr(|h|, 0), length, Owned)))]
  {
    WholeListApply(h, hs, p, length);
  }

  /** buildIndexSet(hiset, indices_in, length). */
  method BuildIndexSet(h: Heap, hs: IndexSet, p: Ptr, length: int, minLen: int, align: int)
    returns (h': Heap, r: IndexSet)
    requires minLen >= 0 && align >= 1
    requires Memory.Readable(h, p, length) && WellFormed(h, hs.segments)
    ensures (h', r) == Build(h, hs, p, length, minLen, align)
    ensures WellFormed(h', r.segments) && Indices(h', r) == Indices(h, hs) + Read(h, p, length)
    ensures length == 0 ==> h' == h && r == hs
    ensures length < 0 ==> r.segments == hs.segments + [NewSegment(ListPayload(L.ListISet(NullPtr, 0, Unowned)))]
  {
    BuildRoundTrip(h, hs, p, length, minLen, align);
    if length == 0 {
      return h, hs;
    }
    if length > minLen {
      var a := Read(h, p, length);
      var docount := CountStatistics(a, align);
      if docount < (length * (align - 1)) / align {
        SingleCutoffIsZero(align);
        var calls := EmitSegments(a, align);
        assert calls == Plan(a, minLen, align);
        h', r := Apply(h, hs, p, length, calls).0, Apply(h, hs, p, length, calls).1;
      } else {
        WholeListApply(h, hs, p, length);
        h', r := AddList(h, hs, p, length, Owned).0, AddList(h, hs, p, length, Owned).1;
      }
    } else {
      if length > 0 {
        WholeListApply(h, hs, p, length);
      }
      h', r := AddList(h, hs, p, length, Owned).0, AddList(h, hs, p, length, Owned).1;
    }
  }

  // ---------------------------------------------------------------------------
  // Constructors that build from an array.
  // ---------------------------------------------------------------------------

  /** IndexSet(indices_in, length): an empty set filled by buildIndexSet.  Round
      trip: its traversal is exactly the array. */
  method FromArray(h: Heap, p: Ptr, length: int, minLen: int, align: int) returns (h': Heap, r: IndexSet)
    requires minLen >= 0 && align >= 1 && Memory.Readable(h, p, length)
    ensures Extends(h, h') && WellFormed(h', r.segments)
    ensures Indices(h', r) == Read(h, p, length)
    ensures r.len == |Read(h, p, length)| && LengthConsistent(r)
  {
    h', r := BuildIndexSet(h, Empty(), p, length, minLen, align);
    BuildRoundTrip(h, Empty(), p, length, minLen, align);
  }

  /** Freeing a buffer allocated before heap size `n` leaves every list that owns
      a fresh array readable with the same contents. */
  lemma FreshListsSurviveFree(h: Heap, b: nat, segs: seq<Segment>, n: nat)
    requires WellFormed(h, segs) && FreshOwnedLists(segs, 0, n) && b < n && b < |h| && h[b].live
    ensures SameLists(h, Free(h, b), segs)
  {
  }

  /** The generic container constructor: the elements are copied in order into a
      temporary vector, buildIndexSet runs on it, and the vector is released on
      return.  Round trip: the traversal is the container's elements, and the
      set does not depend on the released vector. */
  method FromContainer(h: Heap, c: seq<int>, minLen: int, align: int) returns (h': Heap, r: IndexSet)
    requires minLen >= 0 && align >= 1
    ensures |h'| > |h|
    ensures !h'[|h|].live
    ensures WellFormed(h', r.segments) && Indices(h', r) == c
    ensures r.len == |c| && LengthConsistent(r)
  {
    var (h1, q) := Alloc(h, c);
    var h2;
    BuildRoundTrip(h1, Empty(), q, |c|, minLen, align);
    h2, r := BuildIndexSet(h1, Empty(), q, |c|, minLen, align);
    FreshListsSurviveFree(h2, q.buf, r.segments, |h1|);
    FlatSameLists(h2, Free(h2, q.buf), r.segments);
    h' := Free(h2, q.buf);
  }
}
