/** ListISet: an explicit array of indices.  An Owned list holds its own copy of
    the array and frees it when destroyed; an Unowned list aliases the caller's
    array, so the caller's later stores are visible through it. */
module ListSegment {
  import opened Memory

  datatype ListISet = ListISet(indx: Ptr, len: int, own: IndexOwnership)

  /** The list's indices can be read: the array it points at holds `len` live elements. */
  predicate Readable(h: Heap, l: ListISet)
  {
    Memory.Readable(h, l.indx, l.len)
  }

  /** The indices a traversal of the list visits, in order. */
  function Indices(h: Heap, l: ListISet): seq<int>
    requires Readable(h, l)
  {
    Read(h, l.indx, l.len)
  }

  /** initIndexData: a non-positive length gives the empty Unowned list with a null
      array; otherwise Owned copies the `len` elements into a fresh array and
      Unowned keeps the caller's pointer. */
  function Init(h: Heap, p: Ptr, len: int, mode: IndexOwnership): (r: (Heap, ListISet))
    requires len > 0 && mode == Owned ==> Memory.Readable(h, p, len)
    ensures Extends(h, r.0)
    ensures len <= 0 ==> r.1 == ListISet(NullPtr, 0, Unowned) && r.0 == h
    ensures len > 0 ==> r.1.len == len && r.1.own == mode
    ensures len > 0 && mode == Unowned ==> r.1.indx == p && r.0 == h
    ensures len > 0 && mode == Owned ==> r.1.indx == Ptr(|h|, 0) && |r.0| == |h| + 1
    ensures len > 0 && mode == Owned ==> Readable(r.0, r.1) && Indices(r.0, r.1) == Read(h, p, len)
  {
    if len <= 0 then (h, ListISet(NullPtr, 0, Unowned))
    else if mode == Owned then
      var (h', q) := Alloc(h, Read(h, p, len));
      (h', ListISet(q, len, Owned))
    else (h, ListISet(p, len, Unowned))
  }

  /** The copy constructor re-runs initIndexData on the other list's data, so an
      Owned list is deep-copied and an Unowned one keeps aliasing the same array. */
  function Copy(h: Heap, other: ListISet): (r: (Heap, ListISet))
    requires other.len > 0 && other.own == Owned ==> Readable(h, other)
  {
    Init(h, other.indx, other.len, other.own)
  }

  /** The destructor frees the array exactly when it is non-null and Owned. */
  function Destroy(h: Heap, l: ListISet): (r: Heap)
    requires l.indx.Ptr? && l.own == Owned ==> l.indx.buf < |h| && h[l.indx.buf].live
  {
    if l.indx.Ptr? && l.own == Owned then Free(h, l.indx.buf) else h
  }

  /** operator=: assigning a list to itself changes nothing; otherwise the
      right-hand side is copied, the copy is swapped in, and the temporary, now
      holding the old value, is destroyed. */
  function Assign(h: Heap, lhs: ListISet, rhs: ListISet, same: bool): (r: (Heap, ListISet))
    requires same ==> lhs == rhs
    requires rhs.len > 0 && rhs.own == Owned ==> Readable(h, rhs)
    requires lhs.indx.Ptr? && lhs.own == Owned ==> lhs.indx.buf < |h| && h[lhs.indx.buf].live
  {
    if same then (h, lhs)
    else
      var (h', c) := Copy(h, rhs);
      (Destroy(h', lhs), c)
  }

  /** The container constructor: an empty container gives the empty Unowned list;
      any other container is copied into a fresh Owned array. */
  function FromContainer(h: Heap, c: seq<int>): (r: (Heap, ListISet))
    ensures Extends(h, r.0) && Readable(r.0, r.1) && Indices(r.0, r.1) == c
    ensures c == [] ==> r.1 == ListISet(NullPtr, 0, Unowned)
    ensures c != [] ==> r.1.own == Owned && r.1.len == |c| && r.1.indx == Ptr(|h|, 0)
  {
    if c == [] then (h, ListISet(NullPtr, 0, Unowned))
    else
      var (h', q) := Alloc(h, c);
      (h', ListISet(q, |c|, Owned))
  }

  /** Whatever the mode, a freshly constructed list visits the caller's `len`
      elements in order (none when `len <= 0`). */
  lemma InitHoldsCallerIndices(h: Heap, p: Ptr, len: int, mode: IndexOwnership)
    requires Memory.Readable(h, p, len)
    ensures var (h', l) := Init(h, p, len, mode);
      Readable(h', l) && Indices(h', l) == Read(h, p, len) && |Indices(h', l)| == (if len <= 0 then 0 else len)
  {
    var (h', l) := Init(h, p, len, mode);
    if len > 0 && mode == Unowned {
      ReadStable(h, h', p, len);
    }
  }

  /** An Owned list is independent of the caller's array: any store into a buffer
      that existed before construction leaves the list's indices unchanged. */
  lemma OwnedCopyIsIndependent(h: Heap, p: Ptr, len: int, b: nat, o: nat, v: int)
    requires len > 0 && Memory.Readable(h, p, len)
    requires b < |h| && h[b].live && o < |h[b].elems|
    ensures var (h', l) := Init(h, p, len, Owned);
      Readable(Write(h', b, o, v), l) && Indices(Write(h', b, o, v), l) == Read(h, p, len)
  {
    var (h', l) := Init(h, p, len, Owned);
    var h2 := Write(h', b, o, v);
    assert h2[|h|] == h'[|h|];
  }

  /** An Unowned list aliases the caller's array: a store into element `k` of that
      array is seen as the list's `k`-th index. */
  lemma UnownedListAliases(h: Heap, p: Ptr, len: int, k: nat, v: int)
    requires len > 0 && Memory.Readable(h, p, len) && k < len
    ensures var (h', l) := Init(h, p, len, Unowned);
      var h2 := Write(h', p.buf, p.off + k, v);
      Readable(h2, l) && Indices(h2, l)[k] == v
  {
  }

  /** Copying keeps the length, the mode and the indices; only an Owned copy gets a
      fresh array, an Unowned copy shares the original's array. */
  lemma CopyKeepsModeAndIndices(h: Heap, other: ListISet)
    requires Readable(h, other)
    ensures var (h', c) := Copy(h, other);
      Readable(h', c) && Indices(h', c) == Indices(h, other) &&
      (other.len > 0 ==> c.len == other.len && c.own == other.own) &&
      (other.len > 0 && other.own == Unowned ==> c.indx == other.indx) &&
      (other.len > 0 && other.own == Owned ==> c.indx.buf == |h|)
  {
    InitHoldsCallerIndices(h, other.indx, other.len, other.own);
  }

  /** Destroying an Unowned list (or one with a null array) never frees memory;
      destroying an Owned list frees its own array and no other buffer. */
  lemma DestroyFreesOnlyOwnedArray(h: Heap, l: ListISet)
    requires l.indx.Ptr? && l.own == Owned ==> l.indx.buf < |h| && h[l.indx.buf].live
    ensures |Destroy(h, l)| == |h|
    ensures l.own == Unowned || l.indx == NullPtr ==> Destroy(h, l) == h
    ensures l.own == Owned && l.indx.Ptr? ==>
      !Destroy(h, l)[l.indx.buf].live &&
      forall i :: 0 <= i < |h| && i != l.indx.buf ==> Destroy(h, l)[i] == h[i]
  {
  }

  /** Self-assignment is a no-op; any other assignment leaves the left-hand side
      holding the right-hand side's indices with its mode (an empty right-hand
      side gives the null Unowned list, an Unowned one hands over its pointer),
      and releases the old array if the left-hand side owned one.  Only an
      Unowned right-hand side that aliases the array the left-hand side owned
      loses its indices, since that array is the one released. */
  lemma AssignSemantics(h: Heap, lhs: ListISet, rhs: ListISet, same: bool)
    requires same ==> lhs == rhs
    requires Readable(h, rhs)
    requires lhs.indx.Ptr? && lhs.own == Owned ==> lhs.indx.buf < |h| && h[lhs.indx.buf].live
    ensures same ==> Assign(h, lhs, rhs, same) == (h, lhs)
    ensures !same ==> var (h', l) := Assign(h, lhs, rhs, same);
      (rhs.len <= 0 ==> l == ListISet(NullPtr, 0, Unowned)) &&
      (rhs.len > 0 ==> l.own == rhs.own && l.len == rhs.len) &&
      (rhs.len > 0 && rhs.own == Unowned ==> l.indx == rhs.indx) &&
      (rhs.len > 0 && rhs.own == Owned ==> Readable(h', l) && Indices(h', l) == Indices(h, rhs)) &&
      (!ReleasesAlias(lhs, rhs) ==> Readable(h', l) && Indices(h', l) == Indices(h, rhs)) &&
      (lhs.indx.Ptr? && lhs.own == Owned ==> !h'[lhs.indx.buf].live)
  {
    if !same {
      var (h1, c) := Copy(h, rhs);
      CopyKeepsModeAndIndices(h, rhs);
      if lhs.indx.Ptr? && lhs.own == Owned && rhs.len > 0 {
        assert c.indx.buf != lhs.indx.buf ==> Destroy(h1, lhs)[c.indx.buf] == h1[c.indx.buf];
      }
    }
  }

  /** The left-hand side owns the very array an Unowned right-hand side points at. */
  predicate ReleasesAlias(lhs: ListISet, rhs: ListISet)
  {
    lhs.indx.Ptr? && lhs.own == Owned && rhs.len > 0 && rhs.own == Unowned &&
    rhs.indx.Ptr? && rhs.indx.buf == lhs.indx.buf
  }
}
