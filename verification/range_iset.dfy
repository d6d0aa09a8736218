/** RangeISet: the contiguous index range [begin, end).  The constructor stores
    both bounds verbatim; nothing checks that end >= begin. */
module RangeSegment {
  import opened Memory

  datatype RangeISet = RangeISet(begin: int, end: int)

  /** The indices `begin, begin+1, ..., end-1`; empty when `end <= begin`. */
  function Interval(b: int, e: int): (r: seq<int>)
    ensures |r| == if e <= b then 0 else e - b
    ensures forall k :: 0 <= k < |r| ==> r[k] == b + k
  {
    if e <= b then [] else seq(e - b, k => b + k)
  }

  /** getLength(): `end - begin`, negative for a reversed range. */
  function Length(r: RangeISet): int
  {
    r.end - r.begin
  }

  /** indexOwnership(): a range has no index array, so it always reports Owned. */
  function Ownership(r: RangeISet): IndexOwnership
  {
    Owned
  }

  function SetBegin(r: RangeISet, v: int): (r': RangeISet)
    ensures r'.end == r.end && r'.begin == v
  {
    r.(begin := v)
  }

  function SetEnd(r: RangeISet, v: int): (r': RangeISet)
    ensures r'.begin == r.begin && r'.end == v
  {
    r.(end := v)
  }

  /** The length a range reports agrees with the number of indices it holds exactly
      when it is not reversed; a reversed range holds no index but reports a
      negative length. */
  lemma LengthVersusIndices(r: RangeISet)
    ensures r.begin <= r.end ==> Length(r) == |Interval(r.begin, r.end)|
    ensures r.end < r.begin ==> Length(r) < 0 && Interval(r.begin, r.end) == []
  {
  }

  /** Moving the end bound forwards appends exactly the new indices, and moving
      the begin bound backwards prepends them: setEnd/setBegin touch only their side. */
  lemma {:induction false} SetBoundsExtend(r: RangeISet, b: int, e: int)
    requires b <= r.begin <= r.end <= e
    ensures Interval(r.begin, e) == Interval(r.begin, r.end) + Interval(r.end, e)
    ensures Interval(b, r.end) == Interval(b, r.begin) + Interval(r.begin, r.end)
    ensures SetEnd(r, e) == RangeISet(r.begin, e) && SetBegin(r, b) == RangeISet(b, r.end)
  {
    IntervalSplit(r.begin, r.end, e);
    IntervalSplit(b, r.begin, r.end);
  }

  lemma IntervalSplit(a: int, m: int, c: int)
    requires a <= m <= c
    ensures Interval(a, c) == Interval(a, m) + Interval(m, c)
  {
    var L, R := Interval(a, m), Interval(m, c);
    assert |Interval(a, c)| == |L + R|;
    forall k | 0 <= k < |L + R|
      ensures Interval(a, c)[k] == (L + R)[k]
    {
      if k < |L| {
      } else {
        assert (L + R)[k] == R[k - |L|];
      }
    }
  }
}
