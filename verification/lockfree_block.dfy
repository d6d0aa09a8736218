/** The lock-free block partitioner: a 1-, 2- or 3-D extent is cut into
    consecutive pieces, three (two in 3-D) per thread, and the pieces are added
    to the index set lane by lane, so that with a static round-robin schedule
    thread `i` runs its own pieces in order.  In 3-D the partitioner also writes
    the semaphore data that makes a thread's first piece wait for the
    neighbouring thread's last piece. */
module LockFreeBlock {
  import opened HybridIndexSet
  import R = RangeSegment
  import opened Tiling

  /** Below this many entities per thread a 1-D extent is not split. */
  const ProfitableEntityThreshold := 100

  /** Pieces per thread in 3-D. */
  const SegmentsPerThread := 2

  /** What the partitioner leaves behind: the finished index set, or the
      index set as it was when the process exited because a 3-D extent had
      fewer planes than pieces. */
  datatype Outcome = Created(hs: IndexSet) | Exited(hs: IndexSet)

  // ---------------------------------------------------------------------------
  // The pieces.
  // ---------------------------------------------------------------------------

  /** The `k`-th 1-D piece added: with `3*t` even pieces `[i*f/(3t), (i+1)*f/(3t))`,
      lane `k / t` of thread `k % t`. */
  function EvenPiece(k: int, f: int, t: int): R.RangeISet
    requires t > 0
  {
    var i := LaneOrder(k, t, 3);
    R.RangeISet(CDiv(i * f, 3 * t), CDiv((i + 1) * f, 3 * t))
  }

  /** First entity of thread `i`'s band: `i*dim/t` rows (planes) of `stride` entities. */
  function BandStart(i: int, dim: int, stride: int, t: int): int
    requires t > 0
  {
    CDiv(i * dim, t) * stride
  }

  function BandLen(i: int, dim: int, stride: int, t: int): int
    requires t > 0
  {
    BandStart(i + 1, dim, stride, t) - BandStart(i, dim, stride, t)
  }

  /** `start + lane*len/lanes` in thread `i`'s band. */
  function LaneCut(i: int, lane: int, lanes: int, dim: int, stride: int, t: int): int
    requires t > 0 && lanes > 0
  {
    BandStart(i, dim, stride, t) + CDiv(lane * BandLen(i, dim, stride, t), lanes)
  }

  /** Lane `lane` of thread `i`'s band. */
  function LanePiece(i: int, lane: int, lanes: int, dim: int, stride: int, t: int): R.RangeISet
    requires t > 0 && lanes > 0
  {
    R.RangeISet(LaneCut(i, lane, lanes, dim, stride, t), LaneCut(i, lane + 1, lanes, dim, stride, t))
  }

  /** All `3*t` 1-D pieces in the order they are added. */
  function EvenPieces(f: int, t: int): (rs: seq<R.RangeISet>)
    requires t > 0
    ensures |rs| == 3 * t
  {
    seq(3 * t, k => EvenPiece(k, f, t))
  }

  /** All `lanes*t` banded pieces in the order they are added: lane 0 of every
      thread, then lane 1, and so on. */
  function LanePieces(lanes: int, dim: int, stride: int, t: int): (rs: seq<R.RangeISet>)
    requires t > 0 && lanes > 0
    ensures |rs| == lanes * t
  {
    seq(lanes * t, k => LanePiece(k % t, k / t, lanes, dim, stride, t))
  }

  /** `(midDim | slowDim) == 0` holds exactly when both are zero. */
  predicate Is1D(mid: int, slow: int) { mid == 0 && slow == 0 }

  predicate Is2D(mid: int, slow: int) { !Is1D(mid, slow) && slow == 0 }

  predicate Is3D(mid: int, slow: int) { slow != 0 }

  /** The extent the partition is meant to cover. */
  function Extent(f: int, mid: int, slow: int): int
  {
    if Is1D(mid, slow) then f else if Is2D(mid, slow) then f * mid else f * mid * slow
  }

  /** Whether the extent is too small to split. */
  predicate Unsplit(f: int, mid: int, slow: int, t: int)
    requires t > 0
  {
    if Is1D(mid, slow) then CDiv(f, ProfitableEntityThreshold) <= 1
    else if Is2D(mid, slow) then CDiv(mid, 3 * t) == 0
    else CDiv(slow, SegmentsPerThread * t) == 0
  }

  /** The ranges added, in the order they are added. */
  function BlockRanges(f: int, mid: int, slow: int, t: int): seq<R.RangeISet>
    requires t > 0
  {
    if Unsplit(f, mid, slow, t) then [R.RangeISet(0, Extent(f, mid, slow))]
    else if Is1D(mid, slow) then EvenPieces(f, t)
    else if Is2D(mid, slow) then LanePieces(3, mid, f, t)
    else LanePieces(SegmentsPerThread, slow, f * mid, t)
  }

  /** addRange for each range in turn. */
  function AddRanges(s: IndexSet, rs: seq<R.RangeISet>): (r: IndexSet)
    ensures |r.segments| == |s.segments| + |rs|
  {
    if rs == [] then s
    else
      var last := rs[|rs| - 1];
      AddRange(AddRanges(s, rs[..|rs| - 1]), last.begin, last.end)
  }

  // ---------------------------------------------------------------------------
  // The 3-D dependency graph.
  // ---------------------------------------------------------------------------

  /** Thread `i`'s first piece (segment `i`) reloads to 1 and notifies segment
      `border+i-1`, thread `i-1`'s last piece; that segment starts at 1, reloads
      to 1 and notifies segment `i`. */
  function WirePair(s: IndexSet, border: int, i: int): (r: IndexSet)
    requires 1 <= i && border + i - 1 < |s.segments| && i < border
    ensures |r.segments| == |s.segments| && r.len == s.len
    ensures r.segments[i] == s.segments[i].(semReload := 1, numDeps := 1,
                                            notify := s.segments[i].notify[0 := border + i - 1])
    ensures r.segments[border + i - 1] ==
      s.segments[border + i - 1].(semValue := 1, semReload := 1, numDeps := 1,
                                  notify := s.segments[border + i - 1].notify[0 := i])
    ensures forall j :: 0 <= j < |s.segments| && j != i && j != border + i - 1 ==> r.segments[j] == s.segments[j]
  {
    var j := border + i - 1;
    var s1 := SetDepTask(SetNumDepTasks(SetSemaphoreReload(s, i, 1), i, 1), i, 0, j);
    SetDepTask(SetNumDepTasks(SetSemaphoreReload(SetSemaphoreValue(s1, j, 1), j, 1), j, 1), j, 0, i)
  }

  /** The first segment of the last lane: with two pieces per thread, `t`. */
  function Border(t: int): (b: int)
    ensures b == t
  {
    t * (SegmentsPerThread - 1)
  }

  /** The wiring loop from `i` to `t - 1`. */
  function WireFrom(s: IndexSet, t: int, i: int): (r: IndexSet)
    requires 1 <= i <= t && 2 * t - 1 <= |s.segments|
    ensures |r.segments| == |s.segments| && r.len == s.len
    decreases t - i
  {
    if i == t then s else WireFrom(WirePair(s, Border(t), i), t, i + 1)
  }

  /** The whole partitioner. */
  function LockFreeBlock(hs: IndexSet, f: int, mid: int, slow: int, t: int): Outcome
    requires t > 0
  {
    var added := AddRanges(hs, BlockRanges(f, mid, slow, t));
    if !Is3D(mid, slow) then Created(added)
    else if Unsplit(f, mid, slow, t) then Exited(added)
    else Created(WireFrom(added, t, 1))
  }

  // ---------------------------------------------------------------------------
  // The partitioner as written: nested lane/thread loops.
  // ---------------------------------------------------------------------------

  lemma AddRangesStep(s: IndexSet, rs: seq<R.RangeISet>, p: int)
    requires 0 <= p < |rs|
    ensures AddRanges(s, rs[..p + 1]) == AddRange(AddRanges(s, rs[..p]), rs[p].begin, rs[p].end)
  {
    assert rs[..p + 1][..p] == rs[..p];
  }

  /** In slot `lane*t + i` sits lane `lane` of thread `i`. */
  lemma SlotSplits(lane: int, i: int, t: int)
    requires t > 0 && 0 <= lane && 0 <= i < t
    ensures (lane * t + i) % t == i && (lane * t + i) / t == lane
  {
    DivModUnique(lane * t + i, t, lane, i);
  }

  /** The 1-D split: lane by lane, every third even piece. */
  method AddEvenPieces(hs: IndexSet, f: int, t: int) returns (r: IndexSet)
    requires t > 0
    ensures r == AddRanges(hs, EvenPieces(f, t))
  {
    ghost var rs := EvenPieces(f, t);
    var numSegments := t * 3;
    r := hs;
    var lane := 0;
    while lane < 3
      invariant 0 <= lane <= 3 && lane * t <= |rs| && r == AddRanges(hs, rs[..lane * t])
    {
      r := AddEvenLane(hs, r, f, t, numSegments, lane);
      NextLane(lane, t, 3);
      lane := lane + 1;
    }
    assert rs[..3 * t] == rs;
  }

  /** One pass of the 1-D outer loop: pieces `lane`, `lane + 3`, ... */
  method AddEvenLane(hs: IndexSet, r0: IndexSet, f: int, t: int, numSegments: int, lane: int)
    returns (r: IndexSet)
    requires t > 0 && 0 <= lane < 3 && numSegments == t * 3
    requires r0 == AddRanges(hs, EvenPieces(f, t)[..lane * t])
    ensures (lane + 1) * t <= 3 * t
    ensures r == AddRanges(hs, EvenPieces(f, t)[..(lane + 1) * t])
  {
    NextLane(lane, t, 3);
    r := AddEvenLaneFrom(hs, r0, f, t, numSegments, lane, lane * t);
  }

  /** The inner loop of one 1-D lane, whose pieces sit at positions `n..n+t`
      of the emission order. */
  method AddEvenLaneFrom(hs: IndexSet, r0: IndexSet, f: int, t: int, numSegments: int, lane: int, ghost n: int)
    returns (r: IndexSet)
    requires t > 0 && 0 <= lane < 3 && numSegments == 3 * t && n == lane * t && n + t <= 3 * t
    requires r0 == AddRanges(hs, EvenPieces(f, t)[..n])
    ensures r == AddRanges(hs, EvenPieces(f, t)[..n + t])
  {
    r := r0;
    var i := lane;
    ghost var j := 0;
    while i < numSegments
      invariant 0 <= j <= t && i == lane + 3 * j && r == AddRanges(hs, EvenPieces(f, t)[..n + j])
    {
      var start := CDiv(i * f, numSegments);
      var end := CDiv((i + 1) * f, numSegments);
      EvenStep(hs, f, t, lane, i, j, n + j);
      r := AddRange(r, start, end);
      i, j := i + 3, j + 1;
    }
  }

  /** Adding even piece `lane + 3*j` extends the ranges added so far by one. */
  lemma EvenStep(hs: IndexSet, f: int, t: int, lane: int, i: int, j: int, k: int)
    requires t > 0 && 0 <= lane < 3 && 0 <= j < t && k == lane * t + j && i == lane + 3 * j
    ensures 0 <= k < 3 * t
    ensures AddRanges(hs, EvenPieces(f, t)[..k + 1]) ==
      AddRange(AddRanges(hs, EvenPieces(f, t)[..k]), CDiv(i * f, 3 * t), CDiv((i + 1) * f, 3 * t))
  {
    EvenPieceAt(f, t, lane, j);
    AddRangesStep(hs, EvenPieces(f, t), k);
  }

  /** The 2-D and 3-D splits: lane by lane, thread `i`'s band of rows (planes)
      `[i*dim/t, (i+1)*dim/t)`, each `stride` entities long, cut into `lanes`
      pieces. */
  method AddLanePieces(hs: IndexSet, lanes: int, dim: int, stride: int, t: int) returns (r: IndexSet)
    requires t > 0 && lanes > 0
    ensures r == AddRanges(hs, LanePieces(lanes, dim, stride, t))
  {
    ghost var rs := LanePieces(lanes, dim, stride, t);
    r := hs;
    var lane := 0;
    while lane < lanes
      invariant 0 <= lane <= lanes && lane * t <= |rs| && r == AddRanges(hs, rs[..lane * t])
    {
      r := AddLane(hs, r, lanes, dim, stride, t, lane);
      NextLane(lane, t, lanes);
      lane := lane + 1;
    }
    assert rs[..lanes * t] == rs;
  }

  /** One pass of the outer loop: lane `lane` of every thread's band. */
  method AddLane(hs: IndexSet, r0: IndexSet, lanes: int, dim: int, stride: int, t: int, lane: int)
    returns (r: IndexSet)
    requires t > 0 && 0 <= lane < lanes
    requires r0 == AddRanges(hs, LanePieces(lanes, dim, stride, t)[..lane * t])
    ensures (lane + 1) * t <= lanes * t
    ensures r == AddRanges(hs, LanePieces(lanes, dim, stride, t)[..(lane + 1) * t])
  {
    NextLane(lane, t, lanes);
    r := AddLaneFrom(hs, r0, lanes, dim, stride, t, lane, lane * t);
  }

  /** The inner loop of one lane, whose pieces sit at positions `n..n+t` of
      the emission order. */
  method AddLaneFrom(hs: IndexSet, r0: IndexSet, lanes: int, dim: int, stride: int, t: int, lane: int, ghost n: int)
    returns (r: IndexSet)
    requires t > 0 && 0 <= lane < lanes && n == lane * t && n + t <= lanes * t
    requires r0 == AddRanges(hs, LanePieces(lanes, dim, stride, t)[..n])
    ensures r == AddRanges(hs, LanePieces(lanes, dim, stride, t)[..n + t])
  {
    r := r0;
    var i := 0;
    while i < t
      invariant 0 <= i <= t && r == AddRanges(hs, LanePieces(lanes, dim, stride, t)[..n + i])
    {
      r := AddLanePiece(hs, r, lanes, dim, stride, t, lane, i, n + i);
      i := i + 1;
    }
  }

  /** One iteration of the inner loop: lane `lane` of thread `i`'s band. */
  method AddLanePiece(hs: IndexSet, r0: IndexSet, lanes: int, dim: int, stride: int, t: int, lane: int, i: int, ghost k: int)
    returns (r: IndexSet)
    requires t > 0 && 0 <= lane < lanes && 0 <= i < t && k == lane * t + i && k < lanes * t
    requires r0 == AddRanges(hs, LanePieces(lanes, dim, stride, t)[..k])
    ensures r == AddRanges(hs, LanePieces(lanes, dim, stride, t)[..k + 1])
  {
    var b, e := LaneBounds(i, lane, lanes, dim, stride, t);
    LaneStep(hs, lanes, dim, stride, t, lane, i, k);
    r := AddRange(r0, b, e);
  }

  /** The bounds of lane `lane` of thread `i`'s band, computed as the loop body
      does: for non-negative dimensions they are ordered and lie inside the
      band `[i*dim/t*stride, (i+1)*dim/t*stride)` of thread `i`. */
  method LaneBounds(i: int, lane: int, lanes: int, dim: int, stride: int, t: int) returns (b: int, e: int)
    requires t > 0 && lanes > 0
    ensures R.RangeISet(b, e) == LanePiece(i, lane, lanes, dim, stride, t)
    ensures dim >= 0 && stride >= 0 && 0 <= i && 0 <= lane < lanes ==>
              BandStart(i, dim, stride, t) <= b <= e <= BandStart(i + 1, dim, stride, t)
  {
    if dim >= 0 && stride >= 0 && 0 <= i && 0 <= lane < lanes {
      LaneInBand(i, lane, lanes, dim, stride, t);
    }
    var startRow := CDiv(i * dim, t);
    var endRow := CDiv((i + 1) * dim, t);
    var start := startRow * stride;
    var end := endRow * stride;
    var len := end - start;
    b, e := start + CDiv(lane * len, lanes), start + CDiv((lane + 1) * len, lanes);
  }

  lemma NextLane(lane: int, t: int, lanes: int)
    requires 0 <= lane < lanes && t > 0
    ensures lane * t + t == (lane + 1) * t <= lanes * t
  {
    MulMonotone(lane + 1, lanes, t);
  }

  /** Adding lane `lane` of thread `i` extends the ranges added so far by one. */
  lemma LaneStep(hs: IndexSet, lanes: int, dim: int, stride: int, t: int, lane: int, i: int, k: int)
    requires t > 0 && 0 <= lane < lanes && 0 <= i < t && k == lane * t + i
    ensures 0 <= k < lanes * t
    ensures var p := LanePiece(i, lane, lanes, dim, stride, t);
      AddRanges(hs, LanePieces(lanes, dim, stride, t)[..k + 1]) ==
      AddRange(AddRanges(hs, LanePieces(lanes, dim, stride, t)[..k]), p.begin, p.end)
  {
    LanePieceAt(lanes, dim, stride, t, lane, i);
    AddRangesStep(hs, LanePieces(lanes, dim, stride, t), lane * t + i);
  }

  /** The 3-D dependency wiring loop. */
  method WireNeighbours(s: IndexSet, t: int) returns (r: IndexSet)
    requires t > 0 && 2 * t - 1 <= |s.segments|
    ensures r == WireFrom(s, t, 1)
  {
    r := s;
    var border := Border(t);
    var i := 1;
    while i < t
      invariant 1 <= i <= t && |r.segments| == |s.segments|
      invariant WireFrom(r, t, i) == WireFrom(s, t, 1)
    {
      r := WirePair(r, border, i);
      i := i + 1;
    }
  }

  method CreateLockFreeBlockIndexset(hs: IndexSet, f: int, mid: int, slow: int, t: int)
    returns (o: Outcome)
    requires t > 0
    ensures o == LockFreeBlock(hs, f, mid, slow, t)
  {
    ghost var rs := BlockRanges(f, mid, slow, t);
    var r := hs;
    if mid == 0 && slow == 0 {
      if CDiv(f, ProfitableEntityThreshold) <= 1 {
        r := AddRange(r, 0, f);
        SingleRange(hs, rs);
      } else {
        r := AddEvenPieces(r, f, t);
      }
      o := Created(r);
    } else if slow == 0 {
      var rowsPerSegment := CDiv(mid, 3 * t);
      if rowsPerSegment == 0 {
        r := AddRange(r, 0, f * mid);
        SingleRange(hs, rs);
      } else {
        r := AddLanePieces(r, 3, mid, f, t);
      }
      o := Created(r);
    } else {
      var rowsPerSegment := CDiv(slow, SegmentsPerThread * t);
      if rowsPerSegment == 0 {
        r := AddRange(r, 0, f * mid * slow);
        SingleRange(hs, rs);
        o := Exited(r);
      } else {
        r := AddLanePieces(r, SegmentsPerThread, slow, f * mid, t);
        r := WireNeighbours(r, t);
        o := Created(r);
      }
    }
  }

  lemma SingleRange(hs: IndexSet, rs: seq<R.RangeISet>)
    requires |rs| == 1
    ensures AddRanges(hs, rs) == AddRange(hs, rs[0].begin, rs[0].end)
  {
    assert rs[..0] == [];
  }

  lemma EvenPieceAt(f: int, t: int, lane: int, j: int)
    requires t > 0 && 0 <= lane < 3 && 0 <= j < t
    ensures 0 <= lane * t + j < 3 * t
    ensures EvenPieces(f, t)[lane * t + j] ==
      R.RangeISet(CDiv((lane + 3 * j) * f, 3 * t), CDiv((lane + 3 * j + 1) * f, 3 * t))
  {
    var k := lane * t + j;
    SlotSplits(lane, j, t);
    MulMonotone(lane, 2, t);
    assert LaneOrder(k, t, 3) == lane + 3 * j;
  }

  lemma LanePieceAt(lanes: int, dim: int, stride: int, t: int, lane: int, i: int)
    requires t > 0 && 0 <= lane < lanes && 0 <= i < t
    ensures 0 <= lane * t + i < lanes * t
    ensures LanePieces(lanes, dim, stride, t)[lane * t + i] == LanePiece(i, lane, lanes, dim, stride, t)
  {
    SlotSplits(lane, i, t);
    MulMonotone(lane, lanes - 1, t);
  }

  // ---------------------------------------------------------------------------
  // What the partition covers.
  // ---------------------------------------------------------------------------

  predicate Holds(r: R.RangeISet, x: int)
  {
    r.begin <= x < r.end
  }

  ghost predicate Covered(rs: seq<R.RangeISet>, x: int)
  {
    exists k :: 0 <= k < |rs| && Holds(rs[k], x)
  }

  /** Every value of `[lo, hi)` lies in exactly one of the ranges, and no range
      holds a value outside it. */
  ghost predicate CoversOnce(rs: seq<R.RangeISet>, lo: int, hi: int)
  {
    (forall x :: lo <= x < hi ==> Covered(rs, x)) &&
    (forall k1, k2, x :: 0 <= k1 < |rs| && 0 <= k2 < |rs| && Holds(rs[k1], x) && Holds(rs[k2], x) ==> k1 == k2) &&
    (forall k, x :: 0 <= k < |rs| && Holds(rs[k], x) ==> lo <= x < hi)
  }

  /** Ranges that are the pieces between consecutive cut points, taken in
      lane-major order, cover the span of the cut points exactly once. */
  lemma LaneMajorCovers(rs: seq<R.RangeISet>, c: seq<int>, t: int, lanes: int)
    requires t > 0 && lanes > 0 && Monotone(c) && |c| == lanes * t + 1 && |rs| == lanes * t
    requires forall k :: 0 <= k < |rs| ==>
      (0 <= LaneOrder(k, t, lanes) < lanes * t &&
       rs[k] == R.RangeISet(c[LaneOrder(k, t, lanes)], c[LaneOrder(k, t, lanes) + 1]))
    ensures CoversOnce(rs, c[0], c[lanes * t])
  {
    PiecesTile(c);
    LaneOrderBijective(t, lanes);
    forall x | c[0] <= x < c[lanes * t] ensures Covered(rs, x) {
      var k := LaneSlot(Owner(c, x, 0), t, lanes);
      assert Holds(rs[k], x);
    }
    forall k1, k2, x | 0 <= k1 < |rs| && 0 <= k2 < |rs| && Holds(rs[k1], x) && Holds(rs[k2], x)
      ensures k1 == k2
    {
      assert InPiece(c, LaneOrder(k1, t, lanes), x) && InPiece(c, LaneOrder(k2, t, lanes), x);
    }
    forall k, x | 0 <= k < |rs| && Holds(rs[k], x) ensures c[0] <= x < c[lanes * t] {
      assert InPiece(c, LaneOrder(k, t, lanes), x);
    }
  }

  /** The 1-D cut points `m*f/(3t)`. */
  function EvenCutPoints(f: int, t: int): (c: seq<int>)
    requires t > 0
    ensures |c| == 3 * t + 1
  {
    seq(3 * t + 1, m => CDiv(m * f, 3 * t))
  }

  lemma EvenCutsMonotone(f: int, t: int)
    requires f >= 0 && t > 0
    ensures Monotone(EvenCutPoints(f, t))
    ensures EvenCutPoints(f, t)[0] == 0 && EvenCutPoints(f, t)[3 * t] == f
  {
    var c := EvenCutPoints(f, t);
    forall m | 0 <= m < |c| - 1 ensures c[m] <= c[m + 1] {
      EvenCuts(m, m + 1, f, 3 * t);
    }
    EvenCuts(0, 0, f, 3 * t);
  }

  lemma EvenPiecesCover(f: int, t: int)
    requires f >= 0 && t > 0
    ensures CoversOnce(EvenPieces(f, t), 0, f)
  {
    var rs := EvenPieces(f, t);
    var c := EvenCutPoints(f, t);
    EvenCutsMonotone(f, t);
    LaneOrderBijective(t, 3);
    LaneMajorCovers(rs, c, t, 3);
  }

  /** A band's lane cuts: the last one is the next band's start. */
  lemma LaneCutEnds(i: int, lanes: int, dim: int, stride: int, t: int)
    requires t > 0 && lanes > 0
    ensures LaneCut(i, 0, lanes, dim, stride, t) == BandStart(i, dim, stride, t)
    ensures LaneCut(i, lanes, lanes, dim, stride, t) == BandStart(i + 1, dim, stride, t)
  {
    CDivExact(BandLen(i, dim, stride, t), lanes);
  }

  /** With non-negative dimensions every lane lies inside its band. */
  lemma LaneInBand(i: int, lane: int, lanes: int, dim: int, stride: int, t: int)
    requires t > 0 && lanes > 0 && dim >= 0 && stride >= 0 && 0 <= i && 0 <= lane < lanes
    ensures BandStart(i, dim, stride, t) <= LaneCut(i, lane, lanes, dim, stride, t)
    ensures LaneCut(i, lane, lanes, dim, stride, t) <= LaneCut(i, lane + 1, lanes, dim, stride, t)
    ensures LaneCut(i, lane + 1, lanes, dim, stride, t) <= BandStart(i + 1, dim, stride, t)
  {
    var len := BandLen(i, dim, stride, t);
    EvenCuts(i, i + 1, dim, t);
    MulMonotone(CDiv(i * dim, t), CDiv((i + 1) * dim, t), stride);
    EvenCuts(lane, lane + 1, len, lanes);
    EvenCuts(lane + 1, lanes, len, lanes);
  }

  /** With non-negative dimensions the bands and their lanes are ordered. */
  lemma LaneCutsOrdered(i: int, lane: int, lanes: int, dim: int, stride: int, t: int)
    requires t > 0 && lanes > 0 && dim >= 0 && stride >= 0 && 0 <= i && 0 <= lane < lanes
    ensures LaneCut(i, lane, lanes, dim, stride, t) <= LaneCut(i, lane + 1, lanes, dim, stride, t)
  {
    EvenCuts(i, i + 1, dim, t);
    MulMonotone(CDiv(i * dim, t), CDiv((i + 1) * dim, t), stride);
    EvenCuts(lane, lane + 1, BandLen(i, dim, stride, t), lanes);
  }

  /** The banded cut points, lane by lane within each band. */
  function BandCuts(lanes: int, dim: int, stride: int, t: int): (c: seq<int>)
    requires t > 0 && lanes > 0
    ensures |c| == lanes * t + 1
  {
    seq(lanes * t + 1, m => LaneCut(m / lanes, m % lanes, lanes, dim, stride, t))
  }

  lemma BandCutAt(i: int, lane: int, lanes: int, dim: int, stride: int, t: int)
    requires t > 0 && lanes > 0 && 0 <= i < t && 0 <= lane < lanes
    ensures 0 <= lanes * i + lane < lanes * t
    ensures BandCuts(lanes, dim, stride, t)[lanes * i + lane] == LaneCut(i, lane, lanes, dim, stride, t)
    ensures BandCuts(lanes, dim, stride, t)[lanes * i + lane + 1] == LaneCut(i, lane + 1, lanes, dim, stride, t)
  {
    MulMonotone(i, t - 1, lanes);
    DivModUnique(lanes * i + lane, lanes, i, lane);
    if lane + 1 < lanes {
      DivModUnique(lanes * i + lane + 1, lanes, i, lane + 1);
    } else {
      assert lanes * i + lane + 1 == lanes * (i + 1);
      BandCutAtStart(i + 1, lanes, dim, stride, t);
      LaneCutEnds(i, lanes, dim, stride, t);
    }
  }

  /** Cut point `lanes*i` is the start of band `i`. */
  lemma BandCutAtStart(i: int, lanes: int, dim: int, stride: int, t: int)
    requires t > 0 && lanes > 0 && 0 <= i <= t
    ensures 0 <= lanes * i <= lanes * t
    ensures BandCuts(lanes, dim, stride, t)[lanes * i] == BandStart(i, dim, stride, t)
  {
    MulMonotone(i, t, lanes);
    DivModUnique(lanes * i, lanes, i, 0);
    LaneCutEnds(i, lanes, dim, stride, t);
  }

  lemma BandCutsMonotone(lanes: int, dim: int, stride: int, t: int)
    requires t > 0 && lanes > 0 && dim >= 0 && stride >= 0
    ensures var c := BandCuts(lanes, dim, stride, t);
      Monotone(c) && c[0] == 0 && c[lanes * t] == dim * stride
  {
    var c := BandCuts(lanes, dim, stride, t);
    forall m | 0 <= m < |c| - 1 ensures c[m] <= c[m + 1] {
      var i, lane := m / lanes, m % lanes;
      assert m == lanes * i + lane;
      assert i < t by {
        if i >= t { MulMonotone(t, i, lanes); }
      }
      BandCutAt(i, lane, lanes, dim, stride, t);
      LaneCutsOrdered(i, lane, lanes, dim, stride, t);
    }
    BandCutAt(0, 0, lanes, dim, stride, t);
    LaneCutEnds(0, lanes, dim, stride, t);
    DivModUnique(lanes * t, lanes, t, 0);
    LaneCutEnds(t, lanes, dim, stride, t);
    DivModUnique(t * dim, t, dim, 0);
  }

  lemma LanePiecesCover(lanes: int, dim: int, stride: int, t: int)
    requires t > 0 && lanes > 0 && dim >= 0 && stride >= 0
    ensures CoversOnce(LanePieces(lanes, dim, stride, t), 0, dim * stride)
  {
    var rs := LanePieces(lanes, dim, stride, t);
    var c := BandCuts(lanes, dim, stride, t);
    BandCutsMonotone(lanes, dim, stride, t);
    forall k | 0 <= k < |rs|
      ensures 0 <= LaneOrder(k, t, lanes) < lanes * t &&
        rs[k] == R.RangeISet(c[LaneOrder(k, t, lanes)], c[LaneOrder(k, t, lanes) + 1])
    {
      LanePieceIsCut(lanes, dim, stride, t, k);
    }
    LaneMajorCovers(rs, c, t, lanes);
  }

  /** The `k`-th banded piece runs between two consecutive cut points. */
  lemma LanePieceIsCut(lanes: int, dim: int, stride: int, t: int, k: int)
    requires t > 0 && lanes > 0 && 0 <= k < lanes * t
    ensures 0 <= LaneOrder(k, t, lanes) < lanes * t
    ensures var c := BandCuts(lanes, dim, stride, t);
      LanePieces(lanes, dim, stride, t)[k] == R.RangeISet(c[LaneOrder(k, t, lanes)], c[LaneOrder(k, t, lanes) + 1])
  {
    LaneOrderInRange(k, t, lanes);
    assert k / t < lanes by {
      if k / t >= lanes { MulMonotone(lanes, k / t, t); }
    }
    BandCutAt(k % t, k / t, lanes, dim, stride, t);
  }

  /** For non-negative dimensions the ranges added tile the extent: every
      entity lies in exactly one range and no range reaches outside the extent.
      An extent too small to split gets one range; otherwise there are three
      pieces per thread (two in 3-D). */
  lemma BlockRangesCover(f: int, mid: int, slow: int, t: int)
    requires t > 0 && f >= 0 && mid >= 0 && slow >= 0
    ensures CoversOnce(BlockRanges(f, mid, slow, t), 0, Extent(f, mid, slow))
    ensures |BlockRanges(f, mid, slow, t)| ==
      if Unsplit(f, mid, slow, t) then 1 else if Is3D(mid, slow) then 2 * t else 3 * t
  {
    if Unsplit(f, mid, slow, t) {
      var rs := BlockRanges(f, mid, slow, t);
      forall x | 0 <= x < Extent(f, mid, slow) ensures Covered(rs, x) {
        assert Holds(rs[0], x);
      }
    } else if Is1D(mid, slow) {
      EvenPiecesCover(f, t);
    } else if Is2D(mid, slow) {
      LanePiecesCover(3, mid, f, t);
      assert mid * f == Extent(f, mid, slow);
    } else {
      LanePiecesCover(SegmentsPerThread, slow, f * mid, t);
      assert slow * (f * mid) == Extent(f, mid, slow);
    }
  }

  /** In the 1-D split the `k`-th range is even piece `3*(k % t) + k / t`, so
      lane `l` holds exactly the pieces whose number is `l` modulo 3, and the
      lanes come one after another. */
  lemma EvenLanesGrouped(f: int, t: int, k: int)
    requires t > 0 && 0 <= k < 3 * t
    ensures var i := LaneOrder(k, t, 3);
      0 <= i < 3 * t && i % 3 == k / t && i / 3 == k % t &&
      EvenPiece(k, f, t) == R.RangeISet(CDiv(i * f, 3 * t), CDiv((i + 1) * f, 3 * t))
  {
    LaneOrderInRange(k, t, 3);
    assert k / t < 3 by {
      if k / t >= 3 { MulMonotone(3, k / t, t); }
    }
    DivModUnique(3 * (k % t) + k / t, 3, k % t, k / t);
  }

  // ---------------------------------------------------------------------------
  // What lands in the index set.
  // ---------------------------------------------------------------------------

  /** Segment `n + k` holds range `rs[k]` with fresh semaphore data. */
  predicate AppendedRanges(s: IndexSet, r: IndexSet, rs: seq<R.RangeISet>)
  {
    |r.segments| == |s.segments| + |rs| && r.segments[..|s.segments|] == s.segments &&
    forall k :: 0 <= k < |rs| ==> r.segments[|s.segments| + k] == NewSegment(RangePayload(rs[k]))
  }

  lemma {:induction false} AddRangesShape(s: IndexSet, rs: seq<R.RangeISet>)
    ensures AppendedRanges(s, AddRanges(s, rs), rs)
    ensures LengthConsistent(s) ==> LengthConsistent(AddRanges(s, rs))
    decreases |rs|
  {
    if rs != [] {
      var p := |rs| - 1;
      var prev := AddRanges(s, rs[..p]);
      AddRangesShape(s, rs[..p]);
      var r := AddRanges(s, rs);
      assert r == AddRange(prev, rs[p].begin, rs[p].end);
      SumAppend(prev.segments, NewSegment(RangePayload(rs[p])));
      assert r.segments[..|s.segments|] == prev.segments[..|s.segments|];
      forall k | 0 <= k < |rs| ensures r.segments[|s.segments| + k] == NewSegment(RangePayload(rs[k])) {
        if k < p {
          assert r.segments[|s.segments| + k] == prev.segments[|s.segments| + k];
        }
      }
    }
  }

  /** Each segment of the set, after wiring from `i` on: */
  predicate WiredSegment(s: IndexSet, r: IndexSet, t: int, i: int, j: int)
    requires 0 <= j < |s.segments| && |r.segments| == |s.segments|
  {
    if i <= j < t then
      r.segments[j] == s.segments[j].(semReload := 1, numDeps := 1,
                                      notify := s.segments[j].notify[0 := t + j - 1])
    else if t + i - 1 <= j < 2 * t - 1 then
      r.segments[j] == s.segments[j].(semValue := 1, semReload := 1, numDeps := 1,
                                      notify := s.segments[j].notify[0 := j - t + 1])
    else r.segments[j] == s.segments[j]
  }

  lemma {:induction false} WireFromSpec(s: IndexSet, t: int, i: int)
    requires 1 <= i <= t && 2 * t - 1 <= |s.segments|
    ensures forall j :: 0 <= j < |s.segments| ==> WiredSegment(s, WireFrom(s, t, i), t, i, j)
    decreases t - i
  {
    if i < t {
      var p := WirePair(s, t, i);
      var w := WireFrom(p, t, i + 1);
      assert WireFrom(s, t, i) == w;
      WireFromSpec(p, t, i + 1);
      forall j | 0 <= j < |s.segments| ensures WiredSegment(s, w, t, i, j) {
        WiredStep(s, p, w, t, i, j);
      }
    }
  }

  lemma WiredStep(s: IndexSet, p: IndexSet, w: IndexSet, t: int, i: int, j: int)
    requires 1 <= i < t && 2 * t - 1 <= |s.segments| && 0 <= j < |s.segments|
    requires p == WirePair(s, t, i) && |w.segments| == |s.segments|
    requires WiredSegment(p, w, t, i + 1, j)
    ensures WiredSegment(s, w, t, i, j)
  {
  }

  /** Segment `i` and segment `t+i-1` name each other as their one dependent
      task and reload to 1; only segment `t+i-1` starts at 1. */
  predicate Linked(s: IndexSet, r: IndexSet, t: int, i: int)
    requires 1 <= i < t && 2 * t - 1 <= |s.segments| && |r.segments| == |s.segments|
  {
    r.segments[i].numDeps == 1 && 0 in r.segments[i].notify && DepTask(r, i, 0) == t + i - 1 &&
    r.segments[i].semReload == 1 && r.segments[i].semValue == s.segments[i].semValue &&
    r.segments[t + i - 1].numDeps == 1 && 0 in r.segments[t + i - 1].notify &&
    DepTask(r, t + i - 1, 0) == i &&
    r.segments[t + i - 1].semReload == 1 && r.segments[t + i - 1].semValue == 1
  }

  /** The 3-D dependency graph: for each thread `i >= 1`, segment `i` (its first
      piece) and segment `t+i-1` (thread `i-1`'s last piece) each name the other
      as their single dependent task and reload to 1, and only segment `t+i-1`
      starts at 1.  Segments `0` and `2t-1` and every earlier segment keep their
      semaphore data, and no segment's index set changes. */
  lemma WiringLinksNeighbours(s: IndexSet, t: int)
    requires t >= 1 && 2 * t - 1 <= |s.segments|
    ensures var r := WireFrom(s, t, 1);
      |r.segments| == |s.segments| && r.len == s.len &&
      (forall j :: 0 <= j < |s.segments| ==>
        r.segments[j].payload == s.segments[j].payload && r.segments[j].own == s.segments[j].own) &&
      (forall i :: 1 <= i < t ==> Linked(s, r, t, i)) &&
      (forall j :: (j == 0 || 2 * t - 1 <= j < |s.segments|) ==> r.segments[j] == s.segments[j])
  {
    var r := WireFrom(s, t, 1);
    WireFromSpec(s, t, 1);
    forall j | 0 <= j < |s.segments|
      ensures r.segments[j].payload == s.segments[j].payload && r.segments[j].own == s.segments[j].own
    {
      assert WiredSegment(s, r, t, 1, j);
    }
    forall i | 1 <= i < t ensures Linked(s, r, t, i) {
      assert WiredSegment(s, r, t, 1, i);
      assert WiredSegment(s, r, t, 1, t + i - 1);
    }
    forall j | j == 0 || 2 * t - 1 <= j < |s.segments| ensures r.segments[j] == s.segments[j] {
      assert WiredSegment(s, r, t, 1, j);
    }
  }

  /** When the set starts empty, the two segments wired together are neighbours
      in space: thread `i-1`'s last piece ends where thread `i`'s first piece
      begins, whatever the dimensions. */
  lemma WiredSegmentsAdjoin(f: int, mid: int, slow: int, t: int, i: int)
    requires t > 0 && Is3D(mid, slow) && !Unsplit(f, mid, slow, t) && 1 <= i < t
    ensures var rs := BlockRanges(f, mid, slow, t);
      |rs| == 2 * t && rs[t + i - 1].end == rs[i].begin
  {
    var rs := BlockRanges(f, mid, slow, t);
    SlotSplits(0, i, t);
    SlotSplits(1, i - 1, t);
    LaneCutEnds(i - 1, SegmentsPerThread, slow, f * mid, t);
    LaneCutEnds(i, SegmentsPerThread, slow, f * mid, t);
  }

  /** The outcome: the ranges are appended after the segments already in the
      set; the process exits only for a 3-D extent with fewer planes than
      pieces; 1-D and 2-D sets carry no dependency data; a wired 3-D set keeps
      the appended ranges. */
  lemma BlockOutcome(hs: IndexSet, f: int, mid: int, slow: int, t: int)
    requires t > 0
    ensures var o := LockFreeBlock(hs, f, mid, slow, t);
      var rs := BlockRanges(f, mid, slow, t);
      (o.Exited? <==> Is3D(mid, slow) && Unsplit(f, mid, slow, t)) &&
      (!Is3D(mid, slow) || Unsplit(f, mid, slow, t) ==> AppendedRanges(hs, o.hs, rs)) &&
      |o.hs.segments| == |hs.segments| + |rs| &&
      (forall k :: 0 <= k < |rs| ==> o.hs.segments[|hs.segments| + k].payload == RangePayload(rs[k])) &&
      (LengthConsistent(hs) ==> LengthConsistent(o.hs))
  {
    var rs := BlockRanges(f, mid, slow, t);
    var added := AddRanges(hs, rs);
    AddRangesShape(hs, rs);
    if Is3D(mid, slow) && !Unsplit(f, mid, slow, t) {
      WiringLinksNeighbours(added, t);
      var r := WireFrom(added, t, 1);
      assert r.segments[..] == r.segments;
      forall k | 0 <= k < |rs| ensures r.segments[|hs.segments| + k].payload == RangePayload(rs[k]) {
        assert added.segments[|hs.segments| + k] == NewSegment(RangePayload(rs[k]));
      }
      assert LengthConsistent(added) ==> LengthConsistent(r) by {
        SumSamePayloads(added.segments, r.segments);
      }
    }
  }

  lemma {:induction false} SumSamePayloads(a: seq<Segment>, b: seq<Segment>)
    requires |a| == |b| && forall j :: 0 <= j < |a| ==> b[j].payload == a[j].payload
    ensures SumLengths(a) == SumLengths(b)
    decreases |a|
  {
    if a != [] {
      SumSamePayloads(a[1..], b[1..]);
    }
  }
}
