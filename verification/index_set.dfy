/** The hybrid IndexSet: an ordered sequence of segments, each a RangeISet or a
    ListISet together with its task-dependency (semaphore) metadata, plus a
    running total length. */
module HybridIndexSet {
  import opened Memory
  import R = RangeSegment
  import L = ListSegment

  datatype SegmentType = RangeType | ListType | UnknownType

  /** The index-set object a segment points at; `NoPayload` is a default-constructed
      segment (type Unknown, null index set). */
  datatype Payload = RangePayload(range: R.RangeISet) | ListPayload(list: L.ListISet) | NoPayload

  /** A segment and its semaphore data.  `notify` holds the dependent-task slots
      that have been assigned; the source leaves the four slots uninitialised. */
  datatype Segment = Segment(payload: Payload, own: IndexOwnership,
                             semValue: int, semReload: int, numDeps: int,
                             notify: map<int, int>)

  datatype IndexSet = IndexSet(len: int, segments: seq<Segment>)

  /** Capacity of a segment's dependent-task array. */
  const NotifySlots := 4

  function Empty(): (r: IndexSet)
    ensures r.len == 0 && r.segments == []
  {
    IndexSet(0, [])
  }

  function TypeOf(p: Payload): SegmentType
  {
    match p
    case RangePayload(_) => RangeType
    case ListPayload(_) => ListType
    case NoPayload => UnknownType
  }

  /** What the segment's index set reports as its ownership. */
  function PayloadOwnership(p: Payload): IndexOwnership
  {
    match p
    case RangePayload(r) => R.Ownership(r)
    case ListPayload(l) => l.own
    case NoPayload => Unowned
  }

  /** What the segment's index set reports as its length. */
  function PayloadLength(p: Payload): int
  {
    match p
    case RangePayload(r) => R.Length(r)
    case ListPayload(l) => l.len
    case NoPayload => 0
  }

  /** A segment built around an index set: ownership taken from the index set,
      semaphore value, reload value and dependent count all zero. */
  function NewSegment(p: Payload): Segment
  {
    Segment(p, PayloadOwnership(p), 0, 0, 0, map[])
  }

  /** Sum of the lengths the segments report. */
  function SumLengths(segs: seq<Segment>): int
  {
    if segs == [] then 0 else PayloadLength(segs[0].payload) + SumLengths(segs[1..])
  }

  /** The recorded total equals the sum of the segment lengths. */
  predicate LengthConsistent(s: IndexSet)
  {
    s.len == SumLengths(s.segments)
  }

  /** addSegment: append a fresh segment and add its length to the total. */
  function AddSegment(s: IndexSet, p: Payload): IndexSet
  {
    IndexSet(s.len + PayloadLength(p), s.segments + [NewSegment(p)])
  }

  /** addRange(begin, end). */
  function AddRange(s: IndexSet, b: int, e: int): IndexSet
  {
    AddSegment(s, RangePayload(R.RangeISet(b, e)))
  }

  /** addISet(RangeISet): a copy of the range. */
  function AddRangeISet(s: IndexSet, r: R.RangeISet): IndexSet
  {
    AddSegment(s, RangePayload(r))
  }

  /** addList(indx, len, own): a new ListISet over the caller's array. */
  function AddList(h: Heap, s: IndexSet, p: Ptr, len: int, mode: IndexOwnership): (r: (Heap, IndexSet))
    requires len > 0 && mode == Owned ==> Memory.Readable(h, p, len)
    ensures Extends(h, r.0)
  {
    var (h', l) := L.Init(h, p, len, mode);
    (h', AddSegment(s, ListPayload(l)))
  }

  /** addISet(ListISet, own): a new ListISet over the given list's array. */
  function AddListISet(h: Heap, s: IndexSet, l: L.ListISet, mode: IndexOwnership): (r: (Heap, IndexSet))
    requires l.len > 0 && mode == Owned ==> L.Readable(h, l)
    ensures Extends(h, r.0)
  {
    AddList(h, s, l.indx, l.len, mode)
  }

  // ---------------------------------------------------------------------------
  // Contents.
  // ---------------------------------------------------------------------------

  /** Every list segment's array can be read, and its length is not negative (the
      list constructor turns a non-positive length into zero). */
  predicate WellFormed(h: Heap, segs: seq<Segment>)
  {
    forall i :: 0 <= i < |segs| ==> SegmentReadable(h, segs[i])
  }

  predicate SegmentReadable(h: Heap, seg: Segment)
  {
    seg.payload.ListPayload? ==> L.Readable(h, seg.payload.list) && seg.payload.list.len >= 0
  }

  /** The indices one segment holds, in traversal order; an unknown segment holds none. */
  function SegmentIndices(h: Heap, seg: Segment): seq<int>
    requires SegmentReadable(h, seg)
  {
    match seg.payload
    case RangePayload(r) => R.Interval(r.begin, r.end)
    case ListPayload(l) => L.Indices(h, l)
    case NoPayload => []
  }

  /** All indices of the segments, segment after segment. */
  function Flat(h: Heap, segs: seq<Segment>): seq<int>
    requires WellFormed(h, segs)
  {
    if segs == [] then [] else SegmentIndices(h, segs[0]) + Flat(h, segs[1..])
  }

  function Indices(h: Heap, s: IndexSet): seq<int>
    requires WellFormed(h, s.segments)
  {
    Flat(h, s.segments)
  }

  lemma {:induction false} FlatAppend(h: Heap, segs: seq<Segment>, x: Segment)
    requires WellFormed(h, segs + [x])
    ensures WellFormed(h, segs)
    ensures SegmentReadable(h, x)
    ensures Flat(h, segs + [x]) == Flat(h, segs) + SegmentIndices(h, x)
    decreases |segs|
  {
    assert WellFormed(h, segs) by {
      forall i | 0 <= i < |segs|
        ensures SegmentReadable(h, segs[i])
      {
        assert (segs + [x])[i] == segs[i];
      }
    }
    assert (segs + [x])[|segs|] == x;
    if segs == [] {
      assert segs + [x] == [x];
    } else {
      assert (segs + [x])[1..] == segs[1..] + [x];
      assert (segs + [x])[0] == segs[0];
      FlatAppend(h, segs[1..], x);
    }
  }

  lemma {:induction false} SumAppend(segs: seq<Segment>, x: Segment)
    ensures SumLengths(segs + [x]) == SumLengths(segs) + PayloadLength(x.payload)
    decreases |segs|
  {
    if segs == [] {
      assert segs + [x] == [x];
    } else {
      assert (segs + [x])[1..] == segs[1..] + [x];
      SumAppend(segs[1..], x);
    }
  }

  /** Two heaps agree on every non-empty list array of the segments. */
  predicate SameLists(h1: Heap, h2: Heap, segs: seq<Segment>)
  {
    forall i :: 0 <= i < |segs| && segs[i].payload.ListPayload? && segs[i].payload.list.len > 0 ==>
      segs[i].payload.list.indx.Ptr? &&
      segs[i].payload.list.indx.buf < |h1| && segs[i].payload.list.indx.buf < |h2| &&
      h2[segs[i].payload.list.indx.buf] == h1[segs[i].payload.list.indx.buf]
  }

  lemma {:induction false} FlatSameLists(h1: Heap, h2: Heap, segs: seq<Segment>)
    requires WellFormed(h1, segs) && SameLists(h1, h2, segs)
    ensures WellFormed(h2, segs) && Flat(h2, segs) == Flat(h1, segs)
    decreases |segs|
  {
    if segs != [] {
      assert SameLists(h1, h2, segs[1..]) by {
        forall i | 0 <= i < |segs[1..]| ensures segs[1..][i] == segs[i + 1] { }
      }
      assert WellFormed(h1, segs[1..]) by {
        forall i | 0 <= i < |segs[1..]| ensures segs[1..][i] == segs[i + 1] { }
      }
      FlatSameLists(h1, h2, segs[1..]);
    }
  }

  lemma ExtendsSameLists(h1: Heap, h2: Heap, segs: seq<Segment>)
    requires WellFormed(h1, segs) && Extends(h1, h2)
    ensures SameLists(h1, h2, segs)
  {
  }

  // ---------------------------------------------------------------------------
  // Adding segments.
  // ---------------------------------------------------------------------------

  /** Adding any index set appends exactly one segment whose type and ownership
      match the index set and whose semaphore data is zero, leaves the earlier
      segments alone, adds the new segment's length to the total (so a consistent
      total stays consistent), and appends the new segment's indices to the
      set's traversal. */
  lemma AddSegmentAppends(h: Heap, s: IndexSet, p: Payload)
    requires WellFormed(h, s.segments)
    requires SegmentReadable(h, NewSegment(p))
    ensures var r := AddSegment(s, p);
      |r.segments| == |s.segments| + 1 && r.segments[..|s.segments|] == s.segments &&
      TypeOf(r.segments[|s.segments|].payload) == TypeOf(p) &&
      r.segments[|s.segments|].own == PayloadOwnership(p) &&
      r.segments[|s.segments|].semValue == 0 && r.segments[|s.segments|].semReload == 0 &&
      r.segments[|s.segments|].numDeps == 0 &&
      r.len == s.len + PayloadLength(p) &&
      (LengthConsistent(s) ==> LengthConsistent(r)) &&
      WellFormed(h, r.segments) && Indices(h, r) == Indices(h, s) + SegmentIndices(h, NewSegment(p))
  {
    var r := AddSegment(s, p);
    SumAppend(s.segments, NewSegment(p));
    assert WellFormed(h, r.segments) by {
      forall i | 0 <= i < |r.segments|
        ensures SegmentReadable(h, r.segments[i])
      {
        if i < |s.segments| { assert r.segments[i] == s.segments[i]; }
      }
    }
    FlatAppend(h, s.segments, NewSegment(p));
  }

  /** addRange appends the range's indices; a range segment always reports Owned. */
  lemma AddRangeAppendsInterval(h: Heap, s: IndexSet, b: int, e: int)
    requires WellFormed(h, s.segments)
    ensures var r := AddRange(s, b, e);
      WellFormed(h, r.segments) && Indices(h, r) == Indices(h, s) + R.Interval(b, e) &&
      r.len == s.len + (e - b) && r.segments[|s.segments|].own == Owned &&
      (LengthConsistent(s) ==> LengthConsistent(r))
  {
    AddSegmentAppends(h, s, RangePayload(R.RangeISet(b, e)));
  }

  /** addList appends the caller's elements in order, whatever the ownership mode;
      a non-positive length adds an empty Unowned segment of length zero. */
  lemma AddListAppendsElements(h: Heap, s: IndexSet, p: Ptr, len: int, mode: IndexOwnership)
    requires WellFormed(h, s.segments) && Memory.Readable(h, p, len)
    ensures var (h', r) := AddList(h, s, p, len, mode);
      WellFormed(h', r.segments) && Indices(h', r) == Indices(h, s) + Read(h, p, len) &&
      r.len == s.len + (if len <= 0 then 0 else len) &&
      r.segments[|s.segments|].own == (if len <= 0 then Unowned else mode) &&
      (LengthConsistent(s) ==> LengthConsistent(r))
  {
    var (h', l) := L.Init(h, p, len, mode);
    L.InitHoldsCallerIndices(h, p, len, mode);
    ExtendsSameLists(h, h', s.segments);
    FlatSameLists(h, h', s.segments);
    AddSegmentAppends(h', s, ListPayload(l));
  }

  // ---------------------------------------------------------------------------
  // Deep copy.
  // ---------------------------------------------------------------------------

  /** One step of copy(): a range is copied, a list is re-added as an Owned
      copy, a segment of unknown type is skipped. */
  function CopySegment(h: Heap, acc: IndexSet, seg: Segment): (r: (Heap, IndexSet))
    requires SegmentReadable(h, seg)
    ensures Extends(h, r.0)
  {
    match seg.payload
    case RangePayload(rg) => (h, AddRangeISet(acc, rg))
    case ListPayload(l) => AddListISet(h, acc, l, Owned)
    case NoPayload => (h, acc)
  }

  function CopyFrom(h: Heap, acc: IndexSet, segs: seq<Segment>): (r: (Heap, IndexSet))
    requires WellFormed(h, segs)
    ensures Extends(h, r.0)
    decreases |segs|
  {
    if segs == [] then (h, acc)
    else
      var (h1, acc1) := CopySegment(h, acc, segs[0]);
      assert WellFormed(h1, segs[1..]) by {
        forall i | 0 <= i < |segs[1..]| ensures segs[1..][i] == segs[i + 1] { }
      }
      CopyFrom(h1, acc1, segs[1..])
  }

  /** The copy constructor: an empty set filled by copy(other). */
  function Copy(h: Heap, other: IndexSet): (r: (Heap, IndexSet))
    requires WellFormed(h, other.segments)
    ensures Extends(h, r.0)
  {
    CopyFrom(h, Empty(), other.segments)
  }

  /** Every list segment past position `from` holds a non-empty array only in a
      buffer allocated at or after heap size `n`, and owns it. */
  predicate FreshOwnedLists(segs: seq<Segment>, from: nat, n: nat)
  {
    forall i :: from <= i < |segs| && segs[i].payload.ListPayload? ==>
      (segs[i].payload.list.len > 0 ==>
         segs[i].payload.list.own == Owned && segs[i].payload.list.indx.Ptr? &&
         segs[i].payload.list.indx.buf >= n) &&
      (segs[i].payload.list.len <= 0 ==> segs[i].payload.list.indx == NullPtr)
  }

  /** Segments past `from` carry fresh semaphore data and no unknown segment. */
  predicate FreshMetadata(segs: seq<Segment>, from: nat)
  {
    forall i :: from <= i < |segs| ==>
      !segs[i].payload.NoPayload? && segs[i].own == PayloadOwnership(segs[i].payload) &&
      segs[i].semValue == 0 && segs[i].semReload == 0 && segs[i].numDeps == 0 && segs[i].notify == map[]
  }

  /** Number of segments of known type. */
  function KnownCount(segs: seq<Segment>): nat
  {
    if segs == [] then 0 else (if segs[0].payload.NoPayload? then 0 else 1) + KnownCount(segs[1..])
  }

  /** One copy step appends the segment's indices and, unless the segment is of
      unknown type, exactly one fresh segment. */
  lemma CopySegmentSpec(h: Heap, acc: IndexSet, seg: Segment)
    requires WellFormed(h, acc.segments)
    requires SegmentReadable(h, seg)
    ensures var (h1, acc1) := CopySegment(h, acc, seg);
      WellFormed(h1, acc1.segments) && Indices(h1, acc1) == Indices(h, acc) + SegmentIndices(h, seg)
  {
    match seg.payload {
      case RangePayload(rg) =>
        AddSegmentAppends(h, acc, RangePayload(rg));
      case ListPayload(l) =>
        L.InitHoldsCallerIndices(h, l.indx, l.len, Owned);
        var (h1, nl) := L.Init(h, l.indx, l.len, Owned);
        ExtendsSameLists(h, h1, acc.segments);
        FlatSameLists(h, h1, acc.segments);
        AddSegmentAppends(h1, acc, ListPayload(nl));
      case NoPayload =>
    }
  }

  lemma CopySegmentShape(h: Heap, acc: IndexSet, seg: Segment)
    requires SegmentReadable(h, seg)
    ensures var (h1, acc1) := CopySegment(h, acc, seg);
      acc1.len == acc.len + PayloadLength(seg.payload) &&
      SumLengths(acc1.segments) == SumLengths(acc.segments) + PayloadLength(seg.payload) &&
      |acc1.segments| == |acc.segments| + (if seg.payload.NoPayload? then 0 else 1) &&
      acc1.segments[..|acc.segments|] == acc.segments &&
      FreshOwnedLists(acc1.segments, |acc.segments|, |h|) &&
      FreshMetadata(acc1.segments, |acc.segments|)
  {
    match seg.payload {
      case RangePayload(rg) =>
        SumAppend(acc.segments, NewSegment(RangePayload(rg)));
      case ListPayload(l) =>
        var (h1, nl) := L.Init(h, l.indx, l.len, Owned);
        SumAppend(acc.segments, NewSegment(ListPayload(nl)));
      case NoPayload =>
    }
  }

  lemma Associative(a: seq<int>, b: seq<int>, c: seq<int>)
    ensures (a + b) + c == a + (b + c)
  {
  }

  /** A suffix is the slice up to a cut point followed by the suffix after it. */
  lemma SliceJoin(a: seq<int>, i: int, e: int)
    requires 0 <= i <= e <= |a|
    ensures a[i..e] + a[e..] == a[i..]
  {
    var l, r := a[i..e], a[e..];
    assert |l + r| == |a[i..]|;
    forall k | 0 <= k < |a[i..]| ensures (l + r)[k] == a[i..][k] {
      if k < |l| {
        assert (l + r)[k] == l[k];
      } else {
        assert (l + r)[k] == r[k - |l|];
      }
    }
  }

  /** Copying a run of segments appends their indices, in order. */
  lemma {:induction false} CopyFromIndices(h: Heap, acc: IndexSet, segs: seq<Segment>)
    requires WellFormed(h, acc.segments) && WellFormed(h, segs)
    ensures var (h', r) := CopyFrom(h, acc, segs);
      WellFormed(h', r.segments) && Indices(h', r) == Indices(h, acc) + Flat(h, segs)
    decreases |segs|
  {
    if segs != [] {
      var (h1, acc1) := CopySegment(h, acc, segs[0]);
      assert WellFormed(h, segs[1..]) by {
        forall i | 0 <= i < |segs[1..]| ensures segs[1..][i] == segs[i + 1] { }
      }
      CopySegmentSpec(h, acc, segs[0]);
      ExtendsSameLists(h, h1, segs[1..]);
      FlatSameLists(h, h1, segs[1..]);
      CopyFromIndices(h1, acc1, segs[1..]);
      var r := CopyFrom(h1, acc1, segs[1..]);
      assert CopyFrom(h, acc, segs) == r;
      Associative(Indices(h, acc), SegmentIndices(h, segs[0]), Flat(h, segs[1..]));
    }
  }

  /** Copying a run of segments appends one fresh segment per segment of known
      type and adds up their lengths. */
  lemma {:induction false} CopyFromShape(h: Heap, acc: IndexSet, segs: seq<Segment>)
    requires WellFormed(h, segs)
    ensures var (h', r) := CopyFrom(h, acc, segs);
      r.len == acc.len + SumLengths(segs) &&
      SumLengths(r.segments) == SumLengths(acc.segments) + SumLengths(segs) &&
      |r.segments| == |acc.segments| + KnownCount(segs) &&
      r.segments[..|acc.segments|] == acc.segments &&
      FreshOwnedLists(r.segments, |acc.segments|, |h|) &&
      FreshMetadata(r.segments, |acc.segments|)
    decreases |segs|
  {
    if segs != [] {
      var (h1, acc1) := CopySegment(h, acc, segs[0]);
      assert WellFormed(h, segs[1..]) by {
        forall i | 0 <= i < |segs[1..]| ensures segs[1..][i] == segs[i + 1] { }
      }
      CopySegmentShape(h, acc, segs[0]);
      ExtendsSameLists(h, h1, segs[1..]);
      CopyFromShape(h1, acc1, segs[1..]);
      var r := CopyFrom(h1, acc1, segs[1..]);
      assert CopyFrom(h, acc, segs) == r;
      CopyFromPrefix(acc.segments, acc1.segments, r.1.segments, |h|, |h1|);
    } else {
      assert acc.segments[..|acc.segments|] == acc.segments;
    }
  }

  /** Gluing the freshness facts of two consecutive copy phases. */
  lemma CopyFromPrefix(a: seq<Segment>, a1: seq<Segment>, r: seq<Segment>, n: nat, n1: nat)
    requires |a| <= |a1| <= |r| && n <= n1
    requires a1[..|a|] == a && r[..|a1|] == a1
    requires FreshOwnedLists(a1, |a|, n) && FreshMetadata(a1, |a|)
    requires FreshOwnedLists(r, |a1|, n1) && FreshMetadata(r, |a1|)
    ensures r[..|a|] == a && FreshOwnedLists(r, |a|, n) && FreshMetadata(r, |a|)
  {
    assert forall i :: |a| <= i < |a1| ==> r[i] == a1[i] by {
      forall i | |a| <= i < |a1| ensures r[i] == a1[i] {
        assert r[..|a1|][i] == r[i];
      }
    }
  }

  /** The copy is deep: it visits the same indices in the same order, every
      non-empty list is an Owned array allocated by the copy, unknown segments
      are dropped, all semaphore data starts at zero, and its length is the sum
      of the copied segments' lengths (the original's length when that was
      consistent). */
  lemma CopyIsDeep(h: Heap, other: IndexSet)
    requires WellFormed(h, other.segments)
    ensures var (h', c) := Copy(h, other);
      WellFormed(h', c.segments) && Indices(h', c) == Indices(h, other) &&
      |c.segments| == KnownCount(other.segments) &&
      FreshOwnedLists(c.segments, 0, |h|) && FreshMetadata(c.segments, 0) &&
      LengthConsistent(c) && (LengthConsistent(other) ==> c.len == other.len)
  {
    CopyFromIndices(h, Empty(), other.segments);
    CopyFromShape(h, Empty(), other.segments);
  }

  // ---------------------------------------------------------------------------
  // Destruction and assignment.
  // ---------------------------------------------------------------------------

  /** The segment's list owns a non-null array the destructor will free. */
  predicate OwnsArray(seg: Segment)
  {
    seg.payload.ListPayload? && seg.payload.list.indx.Ptr? && seg.payload.list.own == Owned
  }

  /** Every owned array is live and no two segments own the same array. */
  predicate Releasable(h: Heap, segs: seq<Segment>)
  {
    (forall i :: 0 <= i < |segs| && OwnsArray(segs[i]) ==>
       segs[i].payload.list.indx.buf < |h| && h[segs[i].payload.list.indx.buf].live) &&
    (forall i, j :: 0 <= i < j < |segs| && OwnsArray(segs[i]) && OwnsArray(segs[j]) ==>
       segs[i].payload.list.indx.buf != segs[j].payload.list.indx.buf)
  }

  function OwnedArrays(segs: seq<Segment>): set<nat>
  {
    set i | 0 <= i < |segs| && OwnsArray(segs[i]) :: segs[i].payload.list.indx.buf
  }

  /** The destructor deletes every segment's index set; a list's destructor frees
      the array it owns. */
  function DestroyFrom(h: Heap, segs: seq<Segment>): (r: Heap)
    requires Releasable(h, segs)
    ensures |r| == |h|
    decreases |segs|
  {
    if segs == [] then h
    else
      var h1 := if OwnsArray(segs[0]) then Free(h, segs[0].payload.list.indx.buf) else h;
      assert Releasable(h1, segs[1..]) by {
        forall i | 0 <= i < |segs[1..]| ensures segs[1..][i] == segs[i + 1] { }
        if OwnsArray(segs[0]) {
          forall i | 0 <= i < |segs[1..]| && OwnsArray(segs[1..][i])
            ensures segs[1..][i].payload.list.indx.buf != segs[0].payload.list.indx.buf
          {
            assert segs[1..][i] == segs[i + 1];
          }
        }
      }
      DestroyFrom(h1, segs[1..])
  }

  function Destroy(h: Heap, s: IndexSet): (r: Heap)
    requires Releasable(h, s.segments)
    ensures |r| == |h|
  {
    DestroyFrom(h, s.segments)
  }

  /** Destruction frees exactly the arrays the set's lists own and leaves every
      other buffer, including arrays of Unowned lists, untouched. */
  lemma {:induction false} DestroyFreesOwnedArrays(h: Heap, segs: seq<Segment>)
    requires Releasable(h, segs)
    ensures forall b :: 0 <= b < |h| ==>
      DestroyFrom(h, segs)[b] == (if b in OwnedArrays(segs) then h[b].(live := false) else h[b])
    decreases |segs|
  {
    if segs != [] {
      var h1 := if OwnsArray(segs[0]) then Free(h, segs[0].payload.list.indx.buf) else h;
      assert Releasable(h1, segs[1..]) by {
        forall i | 0 <= i < |segs[1..]| ensures segs[1..][i] == segs[i + 1] { }
        if OwnsArray(segs[0]) {
          forall i | 0 <= i < |segs[1..]| && OwnsArray(segs[1..][i])
            ensures segs[1..][i].payload.list.indx.buf != segs[0].payload.list.indx.buf
          {
            assert segs[1..][i] == segs[i + 1];
          }
        }
      }
      DestroyFreesOwnedArrays(h1, segs[1..]);
      forall b | 0 <= b < |h|
        ensures DestroyFrom(h, segs)[b] == (if b in OwnedArrays(segs) then h[b].(live := false) else h[b])
      {
        assert b in OwnedArrays(segs) <==> (OwnsArray(segs[0]) && b == segs[0].payload.list.indx.buf) || b in OwnedArrays(segs[1..]) by {
          if b in OwnedArrays(segs) {
            var i :| 0 <= i < |segs| && OwnsArray(segs[i]) && segs[i].payload.list.indx.buf == b;
            if i > 0 { assert segs[1..][i - 1] == segs[i]; }
          }
          if b in OwnedArrays(segs[1..]) {
            var i :| 0 <= i < |segs[1..]| && OwnsArray(segs[1..][i]) && segs[1..][i].payload.list.indx.buf == b;
            assert segs[i + 1] == segs[1..][i];
          }
        }
      }
    }
  }

  /** operator=: self-assignment changes nothing; otherwise the left-hand side
      becomes a deep copy of the right-hand side and the arrays it owned before are
      freed. */
  function Assign(h: Heap, lhs: IndexSet, rhs: IndexSet, same: bool): (r: (Heap, IndexSet))
    requires same ==> lhs == rhs
    requires WellFormed(h, rhs.segments) && Releasable(h, lhs.segments)
  {
    if same then (h, lhs)
    else
      var (h1, c) := Copy(h, rhs);
      assert Releasable(h1, lhs.segments);
      (Destroy(h1, lhs), c)
  }

  lemma AssignCopiesAndReleases(h: Heap, lhs: IndexSet, rhs: IndexSet, same: bool)
    requires same ==> lhs == rhs
    requires WellFormed(h, rhs.segments) && Releasable(h, lhs.segments)
    ensures same ==> Assign(h, lhs, rhs, same) == (h, lhs)
    ensures !same ==> var (h', r) := Assign(h, lhs, rhs, same);
      WellFormed(h', r.segments) && Indices(h', r) == Indices(h, rhs) &&
      forall b :: b in OwnedArrays(lhs.segments) ==> b < |h'| && !h'[b].live
  {
    if !same {
      AssignDeep(h, lhs, rhs);
    }
  }

  /** Assignment between distinct sets: copy, then release the old arrays. */
  lemma AssignDeep(h: Heap, lhs: IndexSet, rhs: IndexSet)
    requires WellFormed(h, rhs.segments) && Releasable(h, lhs.segments)
    ensures var (h', r) := Assign(h, lhs, rhs, false);
      WellFormed(h', r.segments) && Indices(h', r) == Indices(h, rhs) &&
      FreshOwnedLists(r.segments, 0, |h|) && LengthConsistent(r) &&
      (LengthConsistent(rhs) ==> r.len == rhs.len) &&
      forall b :: b in OwnedArrays(lhs.segments) ==> b < |h'| && !h'[b].live
  {
    var (h1, c) := Copy(h, rhs);
    CopyIsDeep(h, rhs);
    assert Releasable(h1, lhs.segments);
    var h' := Destroy(h1, lhs);
    assert Assign(h, lhs, rhs, false) == (h', c);
    OwnedBelow(h, lhs.segments);
    DestroyFreesOwnedArrays(h1, lhs.segments);
    FreshListsSurvive(h1, h', c.segments, OwnedArrays(lhs.segments), |h|);
    FlatSameLists(h1, h', c.segments);
  }

  /** The arrays a releasable set owns are buffers of the heap. */
  lemma OwnedBelow(h: Heap, segs: seq<Segment>)
    requires Releasable(h, segs)
    ensures forall b :: b in OwnedArrays(segs) ==> b < |h|
  {
    forall b | b in OwnedArrays(segs) ensures b < |h| {
      var j :| 0 <= j < |segs| && OwnsArray(segs[j]) && segs[j].payload.list.indx.buf == b;
    }
  }

  /** Freeing only buffers below `n` leaves alone lists whose arrays were
      allocated at or after `n`. */
  lemma FreshListsSurvive(h1: Heap, h2: Heap, segs: seq<Segment>, freed: set<nat>, n: nat)
    requires WellFormed(h1, segs) && FreshOwnedLists(segs, 0, n) && |h2| == |h1|
    requires forall b :: b in freed ==> b < n
    requires forall b :: 0 <= b < |h1| ==> h2[b] == (if b in freed then h1[b].(live := false) else h1[b])
    ensures SameLists(h1, h2, segs)
  {
  }

  // ---------------------------------------------------------------------------
  // Accessors.  The source does no checking of the segment number.
  // ---------------------------------------------------------------------------

  function GetLength(s: IndexSet): int { s.len }

  function GetNumSegments(s: IndexSet): nat { |s.segments| }

  function GetSegmentType(s: IndexSet, i: int): SegmentType
    requires 0 <= i < |s.segments|
  {
    TypeOf(s.segments[i].payload)
  }

  function GetSegmentISet(s: IndexSet, i: int): Payload
    requires 0 <= i < |s.segments|
  {
    s.segments[i].payload
  }

  function SegmentOwnership(s: IndexSet, i: int): IndexOwnership
    requires 0 <= i < |s.segments|
  {
    s.segments[i].own
  }

  /** Replace segment `i`'s semaphore data, keeping its index set. */
  function UpdateSegment(s: IndexSet, i: int, seg: Segment): (r: IndexSet)
    requires 0 <= i < |s.segments| && seg.payload == s.segments[i].payload && seg.own == s.segments[i].own
    ensures r.len == s.len && |r.segments| == |s.segments| && r.segments[i] == seg
    ensures forall j :: 0 <= j < |s.segments| && j != i ==> r.segments[j] == s.segments[j]
  {
    s.(segments := s.segments[i := seg])
  }

  function SetSemaphoreValue(s: IndexSet, i: int, v: int): IndexSet
    requires 0 <= i < |s.segments|
  {
    UpdateSegment(s, i, s.segments[i].(semValue := v))
  }

  function SetSemaphoreReload(s: IndexSet, i: int, v: int): IndexSet
    requires 0 <= i < |s.segments|
  {
    UpdateSegment(s, i, s.segments[i].(semReload := v))
  }

  function SetNumDepTasks(s: IndexSet, i: int, v: int): IndexSet
    requires 0 <= i < |s.segments|
  {
    UpdateSegment(s, i, s.segments[i].(numDeps := v))
  }

  /** segmentSemaphoreDepTask(i, t) = v; slot `t` must lie inside the four-entry array. */
  function SetDepTask(s: IndexSet, i: int, t: int, v: int): IndexSet
    requires 0 <= i < |s.segments| && 0 <= t < NotifySlots
  {
    UpdateSegment(s, i, s.segments[i].(notify := s.segments[i].notify[t := v]))
  }

  /** Reading a dependent-task slot that was never written is reading an
      uninitialised value, so only written slots can be read. */
  function DepTask(s: IndexSet, i: int, t: int): int
    requires 0 <= i < |s.segments| && t in s.segments[i].notify
  {
    s.segments[i].notify[t]
  }

  /** Writing semaphore data never changes the set's indices, its length, its
      segment types or any other segment, and a value written is the value read. */
  lemma SemaphoreWritesArePrivate(h: Heap, s: IndexSet, i: int, t: int, v: int)
    requires 0 <= i < |s.segments| && 0 <= t < NotifySlots && WellFormed(h, s.segments)
    ensures var r := SetDepTask(SetNumDepTasks(SetSemaphoreReload(SetSemaphoreValue(s, i, v), i, v), i, v), i, t, v);
      WellFormed(h, r.segments) && Indices(h, r) == Indices(h, s) && r.len == s.len &&
      |r.segments| == |s.segments| &&
      (forall j :: 0 <= j < |s.segments| ==> GetSegmentType(r, j) == GetSegmentType(s, j)) &&
      r.segments[i].semValue == v && r.segments[i].semReload == v && r.segments[i].numDeps == v &&
      DepTask(r, i, t) == v
  {
    var r := SetDepTask(SetNumDepTasks(SetSemaphoreReload(SetSemaphoreValue(s, i, v), i, v), i, v), i, t, v);
    assert forall j :: 0 <= j < |s.segments| ==> r.segments[j].payload == s.segments[j].payload;
    FlatSamePayloads(h, s.segments, r.segments);
  }

  lemma {:induction false} FlatSamePayloads(h: Heap, a: seq<Segment>, b: seq<Segment>)
    requires WellFormed(h, a) && |a| == |b|
    requires forall j :: 0 <= j < |a| ==> b[j].payload == a[j].payload
    ensures WellFormed(h, b) && Flat(h, b) == Flat(h, a)
    decreases |a|
  {
    if a != [] {
      assert WellFormed(h, a[1..]) by {
        forall i | 0 <= i < |a[1..]| ensures a[1..][i] == a[i + 1] { }
      }
      FlatSamePayloads(h, a[1..], b[1..]);
    }
  }
}
