/** A value model of the heap the index-set classes allocate from and point into.
    Every buffer is an array of indices that is either live or freed; a pointer is
    a buffer number and an offset.  Allocation appends a buffer, so a freshly
    allocated buffer is never reachable from a pointer that existed before. */
module Memory {

  /** Whether a segment owns (and will free) the array holding its indices. */
  datatype IndexOwnership = Owned | Unowned

  datatype Buffer = Buffer(elems: seq<int>, live: bool)

  type Heap = seq<Buffer>

  /** `NullPtr` is the C null pointer; `Ptr(b, o)` is `&buffer_b[o]`. */
  datatype Ptr = NullPtr | Ptr(buf: nat, off: nat)

  /** `n` elements can be read starting at `p`; nothing is read when `n <= 0`. */
  predicate Readable(h: Heap, p: Ptr, n: int)
  {
    n <= 0 || (p.Ptr? && p.buf < |h| && h[p.buf].live && p.off + n <= |h[p.buf].elems|)
  }

  /** The `n` elements at `p` (the empty sequence when `n <= 0`). */
  function Read(h: Heap, p: Ptr, n: int): (r: seq<int>)
    requires Readable(h, p, n)
    ensures |r| == if n <= 0 then 0 else n
    ensures forall k :: 0 <= k < |r| ==> r[k] == h[p.buf].elems[p.off + k]
  {
    if n <= 0 then [] else h[p.buf].elems[p.off .. p.off + n]
  }

  /** `new Index_type[len]` followed by a copy of `elems`: the new buffer is appended. */
  function Alloc(h: Heap, elems: seq<int>): (r: (Heap, Ptr))
    ensures r.1 == Ptr(|h|, 0) && Extends(h, r.0) && |r.0| == |h| + 1
    ensures Readable(r.0, r.1, |elems|) && Read(r.0, r.1, |elems|) == elems
  {
    (h + [Buffer(elems, true)], Ptr(|h|, 0))
  }

  /** `delete[]` of a whole buffer. */
  function Free(h: Heap, b: nat): (r: Heap)
    requires b < |h| && h[b].live
    ensures |r| == |h| && !r[b].live
    ensures forall i :: 0 <= i < |h| && i != b ==> r[i] == h[i]
  {
    h[b := h[b].(live := false)]
  }

  /** A store `buffer_b[o] = v` performed by whoever holds the buffer. */
  function Write(h: Heap, b: nat, o: nat, v: int): (r: Heap)
    requires b < |h| && h[b].live && o < |h[b].elems|
    ensures |r| == |h| && r[b].live && |r[b].elems| == |h[b].elems| && r[b].elems[o] == v
    ensures forall k :: 0 <= k < |h[b].elems| && k != o ==> r[b].elems[k] == h[b].elems[k]
    ensures forall i :: 0 <= i < |h| && i != b ==> r[i] == h[i]
  {
    h[b := h[b].(elems := h[b].elems[o := v])]
  }

  /** `h2` only added buffers to `h1`. */
  predicate Extends(h1: Heap, h2: Heap)
  {
    |h1| <= |h2| && forall i :: 0 <= i < |h1| ==> h2[i] == h1[i]
  }

  lemma ExtendsTransitive(h1: Heap, h2: Heap, h3: Heap)
    requires Extends(h1, h2) && Extends(h2, h3)
    ensures Extends(h1, h3)
  {
  }

  /** Reading through an existing pointer is unaffected by later allocations. */
  lemma ReadStable(h1: Heap, h2: Heap, p: Ptr, n: int)
    requires Extends(h1, h2) && Readable(h1, p, n)
    ensures Readable(h2, p, n) && Read(h2, p, n) == Read(h1, p, n)
  {
  }
}
