/** The colouring partitioner of the LULESH proxy application: a greedy graph
    colouring of domain elements (mesh zones) that conflict when they touch a
    common range element (a mesh node).  Each colour is a set of mutually
    independent elements and becomes one segment; the colours themselves run one
    after another.

    The connectivity array `domainToRange` holds `numRangePerDomain` range
    elements per domain element, row after row; the model keeps it as one row per
    domain element (`conn[i]` is the row of element `i`), so `conn[i][j]` stands
    for `domainToRange[i*numRangePerDomain + j]`.  The number of domain elements
    is `|conn|`. */
module LockFreeColor {
  import opened Memory
  import opened HybridIndexSet
  import R = RangeSegment
  import L = ListSegment
  import Tiling
  import opened Wrappers

  // ---------------------------------------------------------------------------
  // Connectivity and its inverse.
  // ---------------------------------------------------------------------------

  /** Every row has `width` entries, each a range element in `[0, m)`. */
  predicate ValidConn(conn: seq<seq<int>>, width: int, m: int)
  {
    (forall i :: 0 <= i < |conn| ==> |conn[i]| == width) &&
    (forall i, j :: 0 <= i < |conn| && 0 <= j < |conn[i]| ==> 0 <= conn[i][j] < m)
  }

  /** One entry `i` for each occurrence of `id` in row `row` of element `i`. */
  function RowRefs(row: seq<int>, id: int, i: int): seq<int>
  {
    if row == [] then [] else RowRefs(row[..|row| - 1], id, i) + (if row[|row| - 1] == id then [i] else [])
  }

  /** The domain elements that refer to range element `id`, in ascending order and
      once per reference: the row of the inverse map that belongs to `id`. */
  function Refs(conn: seq<seq<int>>, id: int): seq<int>
  {
    if conn == [] then [] else Refs(conn[..|conn| - 1], id) + RowRefs(conn[|conn| - 1], id, |conn| - 1)
  }

  lemma {:induction false} RowRefsFacts(row: seq<int>, id: int, i: int)
    ensures forall x :: x in RowRefs(row, id, i) ==> x == i
    ensures (i in RowRefs(row, id, i)) <==> id in row
  {
    if row != [] {
      RowRefsFacts(row[..|row| - 1], id, i);
      assert row == row[..|row| - 1] + [row[|row| - 1]];
    }
  }

  /** `b` refers to `id` exactly when `id` occurs in row `b`, and the inverse row
      lists the referring elements in ascending order. */
  lemma RefsMembers(conn: seq<seq<int>>, id: int)
    ensures forall b :: b in Refs(conn, id) <==> 0 <= b < |conn| && id in conn[b]
    ensures forall p, q :: 0 <= p < q < |Refs(conn, id)| ==> Refs(conn, id)[p] <= Refs(conn, id)[q]
  {
    RefsMembership(conn, id);
    RefsSorted(conn, id);
  }

  lemma {:induction false} RefsMembership(conn: seq<seq<int>>, id: int)
    ensures forall b :: b in Refs(conn, id) <==> 0 <= b < |conn| && id in conn[b]
  {
    if conn != [] {
      var front := conn[..|conn| - 1];
      RefsMembership(front, id);
      RowRefsFacts(conn[|conn| - 1], id, |conn| - 1);
      forall b ensures b in Refs(conn, id) <==> 0 <= b < |conn| && id in conn[b] {
        if 0 <= b < |front| {
          assert front[b] == conn[b];
        }
      }
    }
  }

  lemma {:induction false} RefsSorted(conn: seq<seq<int>>, id: int)
    ensures forall p, q :: 0 <= p < q < |Refs(conn, id)| ==> Refs(conn, id)[p] <= Refs(conn, id)[q]
  {
    if conn != [] {
      var front := conn[..|conn| - 1];
      RefsSorted(front, id);
      RefsMembership(front, id);
      RowRefsFacts(conn[|conn| - 1], id, |conn| - 1);
      var a, t := Refs(front, id), RowRefs(conn[|conn| - 1], id, |conn| - 1);
      assert Refs(conn, id) == a + t;
      forall p, q | 0 <= p < q < |a + t| ensures (a + t)[p] <= (a + t)[q] {
        if q >= |a| {
          assert (a + t)[q] in t;
          if p < |a| {
            assert a[p] in Refs(front, id);
          } else {
            assert (a + t)[p] in t;
          }
        }
      }
    }
  }

  lemma RowRefsSnoc(row: seq<int>, j: int, i: int)
    requires 0 <= j < |row|
    ensures forall id :: RowRefs(row[..j + 1], id, i) == RowRefs(row[..j], id, i) + (if row[j] == id then [i] else [])
  {
    assert row[..j + 1][..j] == row[..j];
  }

  lemma RefsSnoc(conn: seq<seq<int>>, i: int)
    requires 0 <= i < |conn|
    ensures forall id :: Refs(conn[..i + 1], id) == Refs(conn[..i], id) + RowRefs(conn[i], id, i)
  {
    assert conn[..i + 1][..i] == conn[..i];
  }

  lemma {:induction false} RowRefsPrefix(row: seq<int>, j: int, id: int, i: int)
    requires 0 <= j <= |row|
    ensures |RowRefs(row[..j], id, i)| <= |RowRefs(row, id, i)|
    decreases |row| - j
  {
    if j < |row| {
      RowRefsSnoc(row, j, i);
      RowRefsPrefix(row, j + 1, id, i);
    } else {
      assert row[..j] == row;
    }
  }

  lemma {:induction false} RefsPrefix(conn: seq<seq<int>>, i: int, id: int)
    requires 0 <= i <= |conn|
    ensures |Refs(conn[..i], id)| <= |Refs(conn, id)|
    decreases |conn| - i
  {
    if i < |conn| {
      RefsSnoc(conn, i);
      RefsPrefix(conn, i + 1, id);
    } else {
      assert conn[..i] == conn;
    }
  }

  /** The references counted so far never exceed the final count. */
  lemma RefsGrow(conn: seq<seq<int>>, i: int, j: int, id: int)
    requires 0 <= i < |conn| && 0 <= j < |conn[i]|
    ensures |Refs(conn[..i], id)| + |RowRefs(conn[i][..j + 1], id, i)| <= |Refs(conn, id)|
  {
    RowRefsPrefix(conn[i], j + 1, id, i);
    RefsSnoc(conn, i);
    RefsPrefix(conn, i + 1, id);
  }

  /** With fewer than `width` earlier references, the slot the next one is stored
      in lies inside the `m*width` entries of the inverse map. */
  lemma SlotInBounds(id: int, width: int, m: int, count: int)
    requires 0 <= id < m && 1 <= count <= width
    ensures 0 <= id * width + count - 1 < m * width
  {
    Tiling.MulMonotone(0, id, width);
    Tiling.MulMonotone(id + 1, m, width);
  }

  /** Some range element is referred to more than `width` times, so building the
      inverse map exits. */
  predicate Overflows(conn: seq<seq<int>>, width: int, m: int)
  {
    exists id :: 0 <= id < m && |Refs(conn, id)| > width
  }

  /** Builds the inverse map: for each range element the domain elements that
      refer to it, ascending.  Each range element has room for `width`
      references; one more and the build gives up. */
  method InverseMap(conn: seq<seq<int>>, width: int, m: int) returns (r: Option<seq<seq<int>>>)
    requires width >= 0 && m >= 0 && ValidConn(conn, width, m)
    ensures r.None? <==> Overflows(conn, width, m)
    ensures r.Some? ==> |r.value| == m && forall id :: 0 <= id < m ==> r.value[id] == Refs(conn, id)
  {
    var inv: seq<seq<int>> := seq(m, _ => []);
    for i := 0 to |conn|
      invariant |inv| == m
      invariant forall id :: 0 <= id < m ==> inv[id] == Refs(conn[..i], id) && |inv[id]| <= width
    {
      var next := InvertRow(conn, width, m, i, inv);
      if next.None? {
        return None;
      }
      inv := next.value;
    }
    assert conn[..|conn|] == conn;
    return Some(inv);
  }

  /** Records the references of row `i`, giving up when a range element gets one
      reference more than it has room for. */
  method InvertRow(conn: seq<seq<int>>, width: int, m: int, i: int, inv0: seq<seq<int>>) returns (r: Option<seq<seq<int>>>)
    requires width >= 0 && m >= 0 && ValidConn(conn, width, m) && 0 <= i < |conn|
    requires |inv0| == m && forall id :: 0 <= id < m ==> inv0[id] == Refs(conn[..i], id) && |inv0[id]| <= width
    ensures r.None? ==> Overflows(conn, width, m)
    ensures r.Some? ==> (|r.value| == m &&
      forall id :: 0 <= id < m ==> r.value[id] == Refs(conn[..i + 1], id) && |r.value[id]| <= width)
  {
    var inv := inv0;
    for j := 0 to width
      invariant |inv| == m
      invariant forall id :: 0 <= id < m ==>
        inv[id] == Refs(conn[..i], id) + RowRefs(conn[i][..j], id, i) && |inv[id]| <= width
    {
      var id := conn[i][j];
      var count := |inv[id]| + 1;
      if count <= width {
        SlotInBounds(id, width, m, count);
      }
      var idx := id * width + count - 1;
      if idx > m * width || count > width {
        assert count > width;
        RowRefsSnoc(conn[i], j, i);
        RefsGrow(conn, i, j, id);
        assert |Refs(conn, id)| > width;
        return None;
      }
      RowRefsSnoc(conn[i], j, i);
      inv := inv[id := inv[id] + [i]];
    }
    assert conn[i][..width] == conn[i];
    RefsSnoc(conn, i);
    return Some(inv);
  }

  /** `inv` is the inverse of `conn`, and every entry of `conn` indexes it. */
  predicate InverseOf(inv: seq<seq<int>>, conn: seq<seq<int>>)
  {
    (forall i, j :: 0 <= i < |conn| && 0 <= j < |conn[i]| ==> 0 <= conn[i][j] < |inv|) &&
    (forall id :: 0 <= id < |inv| ==> inv[id] == Refs(conn, id))
  }

  // ---------------------------------------------------------------------------
  // Conflicts.
  // ---------------------------------------------------------------------------

  /** Elements `a` and `b` touch a common range element. */
  predicate Shares(conn: seq<seq<int>>, a: int, b: int)
    requires 0 <= a < |conn| && 0 <= b < |conn|
  {
    exists j :: 0 <= j < |conn[a]| && conn[a][j] in conn[b]
  }

  lemma SharesSymmetric(conn: seq<seq<int>>, a: int, b: int)
    requires 0 <= a < |conn| && 0 <= b < |conn|
    ensures Shares(conn, a, b) <==> Shares(conn, b, a)
  {
    if Shares(conn, a, b) {
      var j :| 0 <= j < |conn[a]| && conn[a][j] in conn[b];
      var j' :| 0 <= j' < |conn[b]| && conn[b][j'] == conn[a][j];
      assert conn[b][j'] in conn[a];
    }
    if Shares(conn, b, a) {
      var j :| 0 <= j < |conn[b]| && conn[b][j] in conn[a];
      var j' :| 0 <= j' < |conn[a]| && conn[a][j'] == conn[b][j];
      assert conn[a][j'] in conn[b];
    }
  }

  /** What a pick of element `i` marks: every element the inverse map lists for
      any range element of row `i`. */
  function Marks(conn: seq<seq<int>>, inv: seq<seq<int>>, i: int): set<int>
    requires InverseOf(inv, conn) && 0 <= i < |conn|
  {
    set j, k | 0 <= j < |conn[i]| && 0 <= k < |inv[conn[i][j]]| :: inv[conn[i][j]][k]
  }

  /** The marks of `i` are exactly the elements that conflict with `i`, so none of
      them falls outside the domain. */
  lemma MarksAreConflicts(conn: seq<seq<int>>, inv: seq<seq<int>>, i: int)
    requires InverseOf(inv, conn) && 0 <= i < |conn|
    ensures forall x :: x in Marks(conn, inv, i) <==> 0 <= x < |conn| && Shares(conn, i, x)
  {
    forall x ensures x in Marks(conn, inv, i) <==> 0 <= x < |conn| && Shares(conn, i, x) {
      if x in Marks(conn, inv, i) {
        var j, k :| 0 <= j < |conn[i]| && 0 <= k < |inv[conn[i][j]]| && x == inv[conn[i][j]][k];
        RefsMembers(conn, conn[i][j]);
        assert x in Refs(conn, conn[i][j]);
      }
      if 0 <= x < |conn| && Shares(conn, i, x) {
        var j :| 0 <= j < |conn[i]| && conn[i][j] in conn[x];
        RefsMembers(conn, conn[i][j]);
        assert x in inv[conn[i][j]];
        var k :| 0 <= k < |inv[conn[i][j]]| && inv[conn[i][j]][k] == x;
      }
    }
  }

  // ---------------------------------------------------------------------------
  // Sequences of distinct domain elements.
  // ---------------------------------------------------------------------------

  predicate Distinct(s: seq<int>)
  {
    forall p, q :: 0 <= p < q < |s| ==> s[p] != s[q]
  }

  predicate InDomain(s: seq<int>, n: int)
  {
    forall p :: 0 <= p < |s| ==> 0 <= s[p] < n
  }

  function Below(n: int): set<int>
    decreases n
  {
    if n <= 0 then {} else Below(n - 1) + {n - 1}
  }

  function Elems(s: seq<int>): set<int>
  {
    set x | x in s
  }

  lemma {:induction false} BelowCard(n: nat)
    ensures |Below(n)| == n
    ensures forall x :: x in Below(n) <==> 0 <= x < n
  {
    if n > 0 {
      BelowCard(n - 1);
    }
  }

  lemma {:induction false} ElemsCard(s: seq<int>)
    ensures |Elems(s)| <= |s|
  {
    if s != [] {
      var front := s[..|s| - 1];
      ElemsCard(front);
      assert Elems(s) == Elems(front) + {s[|s| - 1]} by {
        assert s == front + [s[|s| - 1]];
      }
    }
  }

  /** A sequence of distinct values drawn from `u` is no longer than `u` is large. */
  lemma {:induction false} DistinctWithin(s: seq<int>, u: set<int>)
    requires Distinct(s) && forall p :: 0 <= p < |s| ==> s[p] in u
    ensures |s| <= |u|
  {
    if s != [] {
      var x := s[|s| - 1];
      var front := s[..|s| - 1];
      DistinctWithin(front, u - {x});
      assert (u - {x}) + {x} == u;
    }
  }

  /** Distinct domain elements that leave out `i` number fewer than the domain. */
  lemma MissingOne(s: seq<int>, n: int, i: int)
    requires Distinct(s) && InDomain(s, n) && 0 <= i < n && i !in s
    ensures |s| < n
  {
    BelowCard(n);
    DistinctWithin(s, Below(n) - {i});
    assert (Below(n) - {i}) + {i} == Below(n);
  }

  /** Distinct domain elements that include every element are a permutation of it. */
  lemma FullLength(s: seq<int>, n: nat)
    requires Distinct(s) && InDomain(s, n) && forall x :: 0 <= x < n ==> x in s
    ensures |s| == n
  {
    BelowCard(n);
    DistinctWithin(s, Below(n));
    var all := seq(n, x => x);
    DistinctWithin(all, Elems(s));
    ElemsCard(s);
  }

  // ---------------------------------------------------------------------------
  // One pass.
  // ---------------------------------------------------------------------------

  /** One pass of the colouring loop from element `i` on: an element that is not
      marked joins the workset and marks everything it conflicts with.  The
      result is `None` when one of the routine's sanity checks would exit. */
  function Pass(conn: seq<seq<int>>, inv: seq<seq<int>>, i: int, marked: set<int>, ws: seq<int>): (r: Option<seq<int>>)
    requires InverseOf(inv, conn) && 0 <= i <= |conn|
    ensures r.Some? ==> |ws| <= |r.value| && r.value[..|ws|] == ws
    decreases |conn| - i
  {
    if i == |conn| then Some(ws)
    else if i in marked then Pass(conn, inv, i + 1, marked, ws)
    else if |ws| >= |conn| then None
    else
      var m := Marks(conn, inv, i);
      if exists x :: x in m && !(0 <= x < |conn|) then None
      else Pass(conn, inv, i + 1, marked + m, ws + [i])
  }

  /** Some element picked at or after position `k` conflicts with `x`. */
  ghost predicate Conflicted(conn: seq<seq<int>>, ws: seq<int>, k: int, x: int)
    requires InDomain(ws, |conn|) && 0 <= x < |conn|
  {
    exists p :: 0 <= p < |ws| && k <= p && Shares(conn, ws[p], x)
  }

  /** Some element picked in positions `[b, e)` before `x` conflicts with `x`. */
  ghost predicate EarlierConflict(conn: seq<seq<int>>, ws: seq<int>, b: int, e: int, x: int)
    requires InDomain(ws, |conn|) && e <= |ws| && 0 <= x < |conn|
  {
    exists p :: 0 <= p < e && b <= p && ws[p] < x && Shares(conn, ws[p], x)
  }

  /** The state of a pass at element `i`: the workset's first `k` elements are the
      earlier colours, the rest are this pass's picks, all below `i`, ascending
      and pairwise independent; an element is marked exactly when it is in an
      earlier colour or conflicts with a pick. */
  ghost predicate PassInv(conn: seq<seq<int>>, i: int, marked: set<int>, ws: seq<int>, k: int)
  {
    0 <= i <= |conn| && 0 <= k <= |ws| && Distinct(ws) && InDomain(ws, |conn|) &&
    (forall p :: k <= p < |ws| ==> ws[p] < i) &&
    (forall p, q :: k <= p < q < |ws| ==> ws[p] < ws[q] && !Shares(conn, ws[p], ws[q])) &&
    (forall x :: 0 <= x < |conn| ==> (x in marked <==> x in ws[..k] || Conflicted(conn, ws, k, x)))
  }

  /** An unmarked element can be picked without tripping either sanity check, and
      picking it keeps the pass invariant. */
  lemma PickStep(conn: seq<seq<int>>, inv: seq<seq<int>>, i: int, marked: set<int>, ws: seq<int>, k: int)
    requires InverseOf(inv, conn) && PassInv(conn, i, marked, ws, k) && i < |conn| && i !in marked
    ensures |ws| < |conn|
    ensures forall x :: x in Marks(conn, inv, i) ==> 0 <= x < |conn|
    ensures PassInv(conn, i + 1, marked + Marks(conn, inv, i), ws + [i], k)
  {
    var ws' := ws + [i];
    assert i !in ws[..k];
    forall p | 0 <= p < |ws| ensures ws[p] != i {
      if p < k { assert ws[..k][p] == ws[p]; }
    }
    MissingOne(ws, |conn|, i);
    MarksAreConflicts(conn, inv, i);
    assert ws'[..k] == ws[..k];
    assert !Conflicted(conn, ws, k, i);
    UnconflictedAll(conn, ws, k, i);
    forall p, q | k <= p < q < |ws'| ensures ws'[p] < ws'[q] && !Shares(conn, ws'[p], ws'[q]) {
      if q == |ws| {
        assert ws'[p] == ws[p];
      }
    }
    forall x | 0 <= x < |conn|
      ensures x in marked + Marks(conn, inv, i) <==> x in ws'[..k] || Conflicted(conn, ws', k, x)
    {
      if Conflicted(conn, ws', k, x) {
        var p :| k <= p < |ws'| && Shares(conn, ws'[p], x);
        if p < |ws| {
          assert Conflicted(conn, ws, k, x);
        }
      }
      if Conflicted(conn, ws, k, x) {
        var p :| k <= p < |ws| && Shares(conn, ws[p], x);
        assert ws'[p] == ws[p];
      }
      if Shares(conn, i, x) {
        assert ws'[|ws|] == i;
      }
    }
  }

  /** No element picked from position `k` on conflicts with an unconflicted `x`. */
  lemma UnconflictedAll(conn: seq<seq<int>>, ws: seq<int>, k: int, x: int)
    requires InDomain(ws, |conn|) && 0 <= k && 0 <= x < |conn| && !Conflicted(conn, ws, k, x)
    ensures forall p :: k <= p < |ws| ==> !Shares(conn, ws[p], x)
  {
  }

  /** What a pass from element `i` has produced when it returns `r`, having
      started with workset `ws` whose first `k` elements are earlier colours: it
      only appended, the picks are ascending and pairwise independent, the new
      ones are at least `i`, and from `i` on an element is picked exactly when it
      is in no earlier colour and no element picked before it conflicts with it. */
  ghost predicate PassResult(conn: seq<seq<int>>, r: seq<int>, ws: seq<int>, k: int, i: int)
  {
    0 <= i && 0 <= k <= |ws| <= |r| && r[..|ws|] == ws && Distinct(r) && InDomain(r, |conn|) &&
    (forall p, q :: k <= p < q < |r| ==> r[p] < r[q] && !Shares(conn, r[p], r[q])) &&
    (forall p :: |ws| <= p < |r| ==> i <= r[p]) &&
    (forall x :: i <= x < |conn| ==>
      (x in r[k..] <==> x !in ws[..k] && !EarlierConflict(conn, r, k, |r|, x)))
  }

  /** A marked element is skipped, and the scan's rule agrees. */
  lemma SkipKeeps(conn: seq<seq<int>>, i: int, marked: set<int>, ws: seq<int>, k: int, r: seq<int>)
    requires PassInv(conn, i, marked, ws, k) && i < |conn| && i in marked
    requires PassResult(conn, r, ws, k, i + 1)
    ensures PassResult(conn, r, ws, k, i)
  {
    assert r[..|ws|] == ws;
    forall p | 0 <= p < |r[k..]| ensures r[k..][p] != i {
      if k + p < |ws| {
        assert r[k + p] == ws[k + p];
      }
    }
    if i !in ws[..k] {
      assert Conflicted(conn, ws, k, i);
      var p :| k <= p < |ws| && Shares(conn, ws[p], i);
      assert r[p] == ws[p];
      assert EarlierConflict(conn, r, k, |r|, i);
    }
  }

  /** An unmarked element is picked, and the scan's rule agrees. */
  lemma PickKeeps(conn: seq<seq<int>>, i: int, marked: set<int>, ws: seq<int>, k: int, r: seq<int>)
    requires PassInv(conn, i, marked, ws, k) && i < |conn| && i !in marked
    requires PassResult(conn, r, ws + [i], k, i + 1)
    ensures PassResult(conn, r, ws, k, i)
  {
    var ws' := ws + [i];
    assert r[..|ws'|] == ws';
    assert r[..|ws|] == ws by {
      assert r[..|ws|] == r[..|ws'|][..|ws|];
    }
    assert r[|ws|] == i;
    assert ws'[..k] == ws[..k];
    assert i in r[k..] by {
      assert r[k..][|ws| - k] == i;
    }
    forall p | 0 <= p < |r| && k <= p && r[p] < i ensures !Shares(conn, r[p], i) {
      if p < |ws| {
        assert r[p] == ws[p];
        assert !Conflicted(conn, ws, k, i);
      }
    }
  }

  /** A pass never exits and produces what the scan promises. */
  lemma {:induction false} PassSpec(conn: seq<seq<int>>, inv: seq<seq<int>>, i: int, marked: set<int>, ws: seq<int>, k: int)
    requires InverseOf(inv, conn) && PassInv(conn, i, marked, ws, k)
    ensures Pass(conn, inv, i, marked, ws).Some?
    ensures PassResult(conn, Pass(conn, inv, i, marked, ws).value, ws, k, i)
    decreases |conn| - i, 1
  {
    if i == |conn| {
      assert Pass(conn, inv, i, marked, ws).value == ws;
    } else if i in marked {
      PassSkipSpec(conn, inv, i, marked, ws, k);
    } else {
      PassPickSpec(conn, inv, i, marked, ws, k);
    }
  }

  /** The step of `PassSpec` at a marked element. */
  lemma {:induction false} PassSkipSpec(conn: seq<seq<int>>, inv: seq<seq<int>>, i: int, marked: set<int>, ws: seq<int>, k: int)
    requires InverseOf(inv, conn) && PassInv(conn, i, marked, ws, k) && i < |conn| && i in marked
    ensures Pass(conn, inv, i, marked, ws).Some?
    ensures PassResult(conn, Pass(conn, inv, i, marked, ws).value, ws, k, i)
    decreases |conn| - i, 0
  {
    PassSpec(conn, inv, i + 1, marked, ws, k);
    SkipKeeps(conn, i, marked, ws, k, Pass(conn, inv, i + 1, marked, ws).value);
  }

  /** The step of `PassSpec` at an unmarked element. */
  lemma {:induction false} PassPickSpec(conn: seq<seq<int>>, inv: seq<seq<int>>, i: int, marked: set<int>, ws: seq<int>, k: int)
    requires InverseOf(inv, conn) && PassInv(conn, i, marked, ws, k) && i < |conn| && i !in marked
    ensures Pass(conn, inv, i, marked, ws).Some?
    ensures PassResult(conn, Pass(conn, inv, i, marked, ws).value, ws, k, i)
    decreases |conn| - i, 0
  {
    PickStep(conn, inv, i, marked, ws, k);
    var m := Marks(conn, inv, i);
    PassSpec(conn, inv, i + 1, marked + m, ws + [i], k);
    PickKeeps(conn, i, marked, ws, k, Pass(conn, inv, i + 1, marked + m, ws + [i]).value);
  }

  // ---------------------------------------------------------------------------
  // The colouring loop.
  // ---------------------------------------------------------------------------

  /** No more distinct domain elements than the domain has. */
  lemma DistinctBound(s: seq<int>, n: nat)
    requires Distinct(s) && InDomain(s, n)
    ensures |s| <= n
  {
    BelowCard(n);
    DistinctWithin(s, Below(n));
  }

  /** At the start of a pass exactly the workset is marked. */
  lemma PassStart(conn: seq<seq<int>>, ws: seq<int>)
    requires Distinct(ws) && InDomain(ws, |conn|)
    ensures PassInv(conn, 0, Elems(ws), ws, |ws|)
  {
    assert ws[..|ws|] == ws;
  }

  /** The passes of the colouring loop, run until one picks nothing; a pass that
      picks something closes a colour by recording the workset size.  The
      result is the final workset and the colour delimiters, or `None` when a
      sanity check would exit. */
  function Colour(conn: seq<seq<int>>, inv: seq<seq<int>>, ws: seq<int>, delims: seq<int>): (r: Option<(seq<int>, seq<int>)>)
    requires InverseOf(inv, conn) && Distinct(ws) && InDomain(ws, |conn|)
    ensures r.Some? ==> |ws| <= |r.value.0| && r.value.0[..|ws|] == ws
    decreases |conn| - |ws|
  {
    match Pass(conn, inv, 0, Elems(ws), ws)
    case None => None
    case Some(w) =>
      if |w| == |ws| then Some((ws, delims))
      else
        PassStart(conn, ws);
        PassSpec(conn, inv, 0, Elems(ws), ws, |ws|);
        DistinctBound(w, |conn|);
        var r := Colour(conn, inv, w, delims + [|w|]);
        assert r.Some? ==> r.value.0[..|ws|] == r.value.0[..|w|][..|ws|];
        r
  }

  /** Where colour `k` starts in the workset. */
  function Start(d: seq<int>, k: int): int
    requires 0 <= k <= |d|
  {
    if k == 0 then 0 else d[k - 1]
  }

  /** Where colour `k` ends in the workset. */
  function End(d: seq<int>, k: int): int
    requires 0 <= k < |d|
  {
    d[k]
  }

  /** Positions `[b, e)` of the workset `w` form one colour: its members are
      ascending and pairwise independent, they are exactly the elements the
      greedy rule takes given the earlier colours `w[..b]`, and the first is the
      lowest-numbered element in no earlier colour. */
  ghost predicate IsColour(conn: seq<seq<int>>, w: seq<int>, b: int, e: int)
  {
    0 <= b < e <= |w| && InDomain(w, |conn|) &&
    (forall p, q :: b <= p < q < e ==> w[p] < w[q] && !Shares(conn, w[p], w[q])) &&
    (forall x :: 0 <= x < |conn| ==>
      (x in w[b..e] <==> x !in w[..b] && !EarlierConflict(conn, w, b, e, x))) &&
    (forall y :: 0 <= y < w[b] ==> y in w[..b])
  }

  /** Colours `from` onwards of delimiters `d` are colours of `w`. */
  ghost predicate ColoursFrom(conn: seq<seq<int>>, w: seq<int>, d: seq<int>, from: int)
  {
    0 <= from <= |d| && forall k :: from <= k < |d| ==> IsColour(conn, w, Start(d, k), End(d, k))
  }

  /** A colour stays one when the workset grows behind it. */
  lemma ColourPrefix(conn: seq<seq<int>>, r: seq<int>, w: seq<int>, b: int, e: int)
    requires IsColour(conn, r, b, e) && |r| <= |w| && w[..|r|] == r && InDomain(w, |conn|)
    ensures IsColour(conn, w, b, e)
  {
    forall p | 0 <= p < |r| ensures w[p] == r[p] {
      assert w[..|r|][p] == w[p];
    }
    assert w[b..e] == r[b..e];
    assert w[..b] == r[..b];
    forall x | 0 <= x < |conn| ensures EarlierConflict(conn, w, b, e, x) == EarlierConflict(conn, r, b, e, x) {
      if EarlierConflict(conn, r, b, e, x) {
        var p :| 0 <= p < e && b <= p && r[p] < x && Shares(conn, r[p], x);
        assert w[p] == r[p];
      }
    }
  }

  /** The colour a pass closes: what the pass picked, led by the lowest-numbered
      element not yet in the workset. */
  lemma NewColour(conn: seq<seq<int>>, ws: seq<int>, r: seq<int>)
    requires PassResult(conn, r, ws, |ws|, 0) && |r| > |ws|
    ensures IsColour(conn, r, |ws|, |r|)
  {
    assert ws[..|ws|] == ws;
    assert r[..|ws|] == ws;
    forall p | |ws| < p < |r| ensures r[|ws|] < r[p] { }
    forall y | 0 <= y < r[|ws|] ensures y in r[..|ws|] {
      assert !EarlierConflict(conn, r, |ws|, |r|, y);
      forall q | 0 <= q < |r[|ws|..]| ensures r[|ws|..][q] != y {
        if q > 0 {
          assert r[|ws|] < r[|ws| + q];
        }
      }
    }
  }

  /** What the colouring loop leaves behind, given the delimiters `delims` it
      started with: every domain element in the workset `w` exactly once, the
      starting delimiters extended by `d`, each later colour obeying the greedy
      rule, and the last delimiter at the end of the domain. */
  ghost predicate Finished(conn: seq<seq<int>>, delims: seq<int>, w: seq<int>, d: seq<int>)
  {
    Distinct(w) && InDomain(w, |conn|) && |w| == |conn| &&
    |delims| <= |d| && d[..|delims|] == delims && ColoursFrom(conn, w, d, |delims|) &&
    (if d == [] then 0 else d[|d| - 1]) == |conn|
  }

  /** The colouring loop never exits: it ends with every domain element in the
      workset exactly once, and each pass after the given ones closes a colour. */
  lemma {:induction false} ColourSpec(conn: seq<seq<int>>, inv: seq<seq<int>>, ws: seq<int>, delims: seq<int>)
    requires InverseOf(inv, conn) && Distinct(ws) && InDomain(ws, |conn|)
    requires (if delims == [] then 0 else delims[|delims| - 1]) == |ws|
    ensures Colour(conn, inv, ws, delims).Some?
    ensures Finished(conn, delims, Colour(conn, inv, ws, delims).value.0, Colour(conn, inv, ws, delims).value.1)
    decreases |conn| - |ws|
  {
    PassStart(conn, ws);
    PassSpec(conn, inv, 0, Elems(ws), ws, |ws|);
    var r := Pass(conn, inv, 0, Elems(ws), ws).value;
    if |r| == |ws| {
      assert ws[..|ws|] == ws;
      forall x | 0 <= x < |conn| ensures x in ws {
        assert x !in r[|ws|..];
      }
      FullLength(ws, |conn|);
      assert delims[..|delims|] == delims;
    } else {
      NewColour(conn, ws, r);
      DistinctBound(r, |conn|);
      var delims' := delims + [|r|];
      ColourSpec(conn, inv, r, delims');
      var (w, d) := Colour(conn, inv, r, delims').value;
      assert Colour(conn, inv, ws, delims).value == (w, d);
      ColourExtend(conn, ws, r, delims, w, d);
    }
  }

  /** The colour a pass closes joins the colours after it. */
  lemma ColourExtend(conn: seq<seq<int>>, ws: seq<int>, r: seq<int>, delims: seq<int>, w: seq<int>, d: seq<int>)
    requires IsColour(conn, r, |ws|, |r|) && |ws| < |r| && r[..|ws|] == ws
    requires (if delims == [] then 0 else delims[|delims| - 1]) == |ws|
    requires Finished(conn, delims + [|r|], w, d) && |r| <= |w| && w[..|r|] == r
    ensures Finished(conn, delims, w, d)
  {
    var delims' := delims + [|r|];
    ColourPrefix(conn, r, w, |ws|, |r|);
    assert d[..|delims|] == d[..|delims'|][..|delims|];
    assert Start(d, |delims|) == |ws| && End(d, |delims|) == |r| by {
      assert d[..|delims'|][|delims|] == |r|;
      if delims != [] {
        assert d[..|delims'|][|delims| - 1] == delims[|delims| - 1];
      }
    }
  }

  /** The whole colouring never exits: the final workset is a permutation of the
      domain, cut by the delimiters into colours that each obey the greedy rule.
      So the routine's check that the workset holds every element never fires. */
  lemma ColouringSpec(conn: seq<seq<int>>, inv: seq<seq<int>>)
    requires InverseOf(inv, conn)
    ensures Colour(conn, inv, [], []).Some?
    ensures var (w, d) := Colour(conn, inv, [], []).value;
      Distinct(w) && InDomain(w, |conn|) && |w| == |conn| &&
      ColoursFrom(conn, w, d, 0) && Delimits(d, |conn|)
  {
    ColourSpec(conn, inv, [], []);
    var (w, d) := Colour(conn, inv, [], []).value;
    forall k | 0 <= k < |d| ensures 0 <= Start(d, k) < End(d, k) <= |conn| {
      assert IsColour(conn, w, Start(d, k), End(d, k));
    }
  }

  /** A permutation of the domain holds every domain element. */
  lemma PermutationCovers(s: seq<int>, n: nat)
    requires Distinct(s) && InDomain(s, n) && |s| == n
    ensures forall x :: 0 <= x < n ==> x in s
  {
    forall x | 0 <= x < n ensures x in s {
      if x !in s {
        MissingOne(s, n, x);
      }
    }
  }

  // ---------------------------------------------------------------------------
  // Emission.
  // ---------------------------------------------------------------------------

  /** Delimiters cut `[0, n)` into non-empty consecutive pieces. */
  predicate Delimits(d: seq<int>, n: int)
  {
    (forall k :: 0 <= k < |d| ==> 0 <= Start(d, k) < End(d, k) <= n) &&
    (if d == [] then 0 else d[|d| - 1]) == n
  }

  /** ielemPermutation[elemPermutation[i]] = i for every i: the loop overwrites
      the caller's array `iperm0` with the inverse of the permutation. */
  method InvertPermutation(perm: seq<int>, iperm0: seq<int>) returns (iperm: seq<int>)
    requires Distinct(perm) && InDomain(perm, |perm|) && |iperm0| == |perm|
    ensures |iperm| == |perm|
    ensures forall i :: 0 <= i < |perm| ==> iperm[perm[i]] == i
    ensures forall x :: 0 <= x < |perm| ==> 0 <= iperm[x] < |perm| && perm[iperm[x]] == x
  {
    iperm := iperm0;
    for i := 0 to |perm|
      invariant |iperm| == |perm|
      invariant forall p :: 0 <= p < i ==> iperm[perm[p]] == p
    {
      iperm := iperm[perm[i] := i];
    }
    PermutationCovers(perm, |perm|);
    forall x | 0 <= x < |perm| ensures 0 <= iperm[x] < |perm| && perm[iperm[x]] == x {
      assert x in perm;
      var p :| 0 <= p < |perm| && perm[p] == x;
    }
  }

  /** The permuted emission: colour `k` is the range of workset positions
      `[Start(d, k), d[k])`. */
  function RangesFrom(s: IndexSet, d: seq<int>, k: int): IndexSet
    requires 0 <= k <= |d|
    decreases |d| - k
  {
    if k == |d| then s else RangesFrom(AddRange(s, Start(d, k), d[k]), d, k + 1)
  }

  method AddColourRanges(s: IndexSet, d: seq<int>) returns (r: IndexSet)
    ensures r == RangesFrom(s, d, 0)
  {
    r := s;
    var end := 0;
    for i := 0 to |d|
      invariant end == Start(d, i)
      invariant RangesFrom(r, d, i) == RangesFrom(s, d, 0)
    {
      var begin := end;
      end := d[i];
      r := AddRange(r, begin, end);
    }
  }

  /** The permuted emission appends one range per colour, in colour order. */
  lemma {:induction false} RangesFromShape(s: IndexSet, d: seq<int>, k: int)
    requires 0 <= k <= |d|
    ensures var r := RangesFrom(s, d, k);
      |r.segments| == |s.segments| + |d| - k && r.segments[..|s.segments|] == s.segments &&
      forall c :: k <= c < |d| ==>
        r.segments[|s.segments| + c - k].payload == RangePayload(R.RangeISet(Start(d, c), End(d, c)))
    decreases |d| - k
  {
    if k == |d| {
      assert s.segments[..|s.segments|] == s.segments;
    } else {
      var s1 := AddRange(s, Start(d, k), d[k]);
      RangesFromShape(s1, d, k + 1);
      var r := RangesFrom(s1, d, k + 1);
      assert r.segments[..|s.segments|] == r.segments[..|s1.segments|][..|s.segments|];
      assert r.segments[|s.segments|] == r.segments[..|s1.segments|][|s.segments|];
      forall c | k + 1 <= c < |d|
        ensures r.segments[|s.segments| + c - k].payload == RangePayload(R.RangeISet(Start(d, c), d[c]))
      {
        assert |s1.segments| + c - (k + 1) == |s.segments| + c - k;
      }
    }
  }

  /** Together the ranges enumerate the positions `[Start(d, k), n)` in order. */
  lemma {:induction false} RangesFromIndices(h: Heap, s: IndexSet, d: seq<int>, n: int, k: int)
    requires Delimits(d, n) && 0 <= k <= |d| && WellFormed(h, s.segments)
    ensures var r := RangesFrom(s, d, k);
      WellFormed(h, r.segments) && Indices(h, r) == Indices(h, s) + R.Interval(Start(d, k), n) &&
      (LengthConsistent(s) ==> LengthConsistent(r))
    decreases |d| - k
  {
    if k == |d| {
      assert Start(d, k) == n;
    } else {
      var b, e := Start(d, k), d[k];
      assert Start(d, k + 1) == e;
      RangesFromIndices(h, AddRange(s, b, e), d, n, k + 1);
      RangeThenRest(h, s, b, e, n, RangesFrom(AddRange(s, b, e), d, k + 1));
    }
  }

  /** Appending `[b, e)` and then what enumerates `[e, n)` enumerates `[b, n)`. */
  lemma RangeThenRest(h: Heap, s: IndexSet, b: int, e: int, n: int, r: IndexSet)
    requires b <= e <= n && WellFormed(h, s.segments)
    requires WellFormed(h, AddRange(s, b, e).segments) && WellFormed(h, r.segments)
    requires Indices(h, r) == Indices(h, AddRange(s, b, e)) + R.Interval(e, n)
    requires LengthConsistent(AddRange(s, b, e)) ==> LengthConsistent(r)
    ensures Indices(h, r) == Indices(h, s) + R.Interval(b, n)
    ensures LengthConsistent(s) ==> LengthConsistent(r)
  {
    AddRangeAppendsInterval(h, s, b, e);
    R.IntervalSplit(b, e, n);
    Associative(Indices(h, s), R.Interval(b, e), R.Interval(e, n));
  }

  /** Workset positions `[b, e)` hold consecutive ascending values: each follows
      its predecessor by one. */
  predicate IsRun(ws: seq<int>, b: int, e: int)
    requires 0 <= b < e <= |ws|
  {
    forall j :: b <= j < e ==> ws[j] == ws[b] + (j - b)
  }

  /** The isRange scan over one colour, stopping at the first break. */
  method RunCheck(ws: seq<int>, b: int, e: int) returns (isRange: bool)
    requires 0 <= b < e <= |ws|
    ensures isRange <==> IsRun(ws, b, e)
  {
    isRange := true;
    var j := b + 1;
    while j < e
      invariant b + 1 <= j <= e && IsRun(ws, b, j)
    {
      if ws[j - 1] + 1 != ws[j] {
        isRange := false;
        break;
      }
      j := j + 1;
    }
  }

  /** A run is the interval from its first value to one past its last. */
  lemma RunIsInterval(ws: seq<int>, b: int, e: int)
    requires 0 <= b < e <= |ws| && IsRun(ws, b, e)
    ensures ws[b..e] == R.Interval(ws[b], ws[e - 1] + 1)
  {
  }

  /** One colour of the in-place emission: a Range when its members run
      consecutively, otherwise a List owning a copy of its members. */
  function EmitColour(h: Heap, s: IndexSet, wp: Ptr, ws: seq<int>, b: int, e: int): (r: (Heap, IndexSet))
    requires 0 <= b < e <= |ws| && Readable(h, wp, |ws|)
    ensures Extends(h, r.0)
  {
    if IsRun(ws, b, e) then (h, AddRange(s, ws[b], ws[e - 1] + 1))
    else AddList(h, s, Ptr(wp.buf, wp.off + b), e - b, Owned)
  }

  function EmitFrom(h: Heap, s: IndexSet, wp: Ptr, ws: seq<int>, d: seq<int>, k: int): (r: (Heap, IndexSet))
    requires Delimits(d, |ws|) && 0 <= k <= |d| && Readable(h, wp, |ws|)
    ensures Extends(h, r.0)
    decreases |d| - k
  {
    if k == |d| then (h, s)
    else
      var (h1, s1) := EmitColour(h, s, wp, ws, Start(d, k), d[k]);
      ReadStable(h, h1, wp, |ws|);
      var r := EmitFrom(h1, s1, wp, ws, d, k + 1);
      ExtendsTransitive(h, h1, r.0);
      r
  }

  method EmitColours(h: Heap, s: IndexSet, wp: Ptr, ws: seq<int>, d: seq<int>) returns (h': Heap, r: IndexSet)
    requires Delimits(d, |ws|) && Readable(h, wp, |ws|)
    ensures (h', r) == EmitFrom(h, s, wp, ws, d, 0)
  {
    h', r := h, s;
    var end := 0;
    for i := 0 to |d|
      invariant end == Start(d, i)
      invariant Readable(h', wp, |ws|)
      invariant EmitFrom(h', r, wp, ws, d, i) == EmitFrom(h, s, wp, ws, d, 0)
    {
      var begin := end;
      end := d[i];
      var h1 := h';
      h', r := EmitOne(h', r, wp, ws, begin, end);
      ReadStable(h1, h', wp, |ws|);
    }
  }

  /** One colour: the isRange scan, then addRange or addList. */
  method EmitOne(h: Heap, s: IndexSet, wp: Ptr, ws: seq<int>, b: int, e: int) returns (h': Heap, r: IndexSet)
    requires 0 <= b < e <= |ws| && Readable(h, wp, |ws|)
    ensures (h', r) == EmitColour(h, s, wp, ws, b, e)
  {
    var isRange := RunCheck(ws, b, e);
    if isRange {
      h', r := h, AddRange(s, ws[b], ws[e - 1] + 1);
    } else {
      var added := AddList(h, s, Ptr(wp.buf, wp.off + b), e - b, Owned);
      h', r := added.0, added.1;
    }
  }

  /** The shape of the segment emitted for colour `[b, e)`. */
  predicate EmittedAs(seg: Segment, ws: seq<int>, b: int, e: int)
    requires 0 <= b < e <= |ws|
  {
    if IsRun(ws, b, e) then seg.payload == RangePayload(R.RangeISet(ws[b], ws[e - 1] + 1))
    else seg.payload.ListPayload? && seg.own == Owned && seg.payload.list.own == Owned && seg.payload.list.len == e - b
  }

  /** The members of one colour, read from the workset array. */
  lemma ColourRead(h: Heap, wp: Ptr, ws: seq<int>, b: int, e: int)
    requires 0 <= b < e <= |ws| && Readable(h, wp, |ws|) && Read(h, wp, |ws|) == ws
    ensures Readable(h, Ptr(wp.buf, wp.off + b), e - b) && Read(h, Ptr(wp.buf, wp.off + b), e - b) == ws[b..e]
  {
  }

  /** Emitting one colour appends one segment of the right shape. */
  lemma EmitColourShape(h: Heap, s: IndexSet, wp: Ptr, ws: seq<int>, b: int, e: int)
    requires 0 <= b < e <= |ws| && Readable(h, wp, |ws|)
    ensures var s1 := EmitColour(h, s, wp, ws, b, e).1;
      |s1.segments| == |s.segments| + 1 && s1.segments[..|s.segments|] == s.segments &&
      EmittedAs(s1.segments[|s.segments|], ws, b, e)
  {
    if !IsRun(ws, b, e) {
      var (h1, l) := L.Init(h, Ptr(wp.buf, wp.off + b), e - b, Owned);
      assert EmitColour(h, s, wp, ws, b, e).1 == AddSegment(s, ListPayload(l));
    }
  }

  /** Emitting one colour appends exactly the colour's members, in order. */
  lemma EmitColourIndices(h: Heap, s: IndexSet, wp: Ptr, ws: seq<int>, b: int, e: int)
    requires 0 <= b < e <= |ws| && Readable(h, wp, |ws|) && Read(h, wp, |ws|) == ws
    requires WellFormed(h, s.segments)
    ensures EmittedIndices(h, s, EmitColour(h, s, wp, ws, b, e), ws[b..e])
  {
    if IsRun(ws, b, e) {
      RunColourIndices(h, s, wp, ws, b, e);
    } else {
      ListColourIndices(h, s, wp, ws, b, e);
    }
  }

  lemma RunColourIndices(h: Heap, s: IndexSet, wp: Ptr, ws: seq<int>, b: int, e: int)
    requires 0 <= b < e <= |ws| && Readable(h, wp, |ws|) && IsRun(ws, b, e) && WellFormed(h, s.segments)
    ensures EmittedIndices(h, s, EmitColour(h, s, wp, ws, b, e), ws[b..e])
  {
    RunIsInterval(ws, b, e);
    AddRangeAppendsInterval(h, s, ws[b], ws[e - 1] + 1);
    assert EmitColour(h, s, wp, ws, b, e) == (h, AddRange(s, ws[b], ws[e - 1] + 1));
  }

  lemma ListColourIndices(h: Heap, s: IndexSet, wp: Ptr, ws: seq<int>, b: int, e: int)
    requires 0 <= b < e <= |ws| && Readable(h, wp, |ws|) && Read(h, wp, |ws|) == ws
    requires WellFormed(h, s.segments)
    ensures EmittedIndices(h, s, AddList(h, s, Ptr(wp.buf, wp.off + b), e - b, Owned), ws[b..e])
  {
    ColourRead(h, wp, ws, b, e);
    AddListAppendsElements(h, s, Ptr(wp.buf, wp.off + b), e - b, Owned);
  }

  /** From position `n` on, `r` holds one segment per colour `k..|d|`, each a
      Range exactly when its colour runs consecutively. */
  predicate ShapedFrom(r: seq<Segment>, n: int, ws: seq<int>, d: seq<int>, k: int)
    requires Delimits(d, |ws|) && 0 <= k <= |d| && 0 <= n
  {
    |r| == n + |d| - k &&
    forall c :: k <= c < |d| ==> EmittedAs(r[n + c - k], ws, Start(d, c), End(d, c))
  }

  /** The in-place emission appends one segment per colour, in colour order,
      each a Range exactly when its colour runs consecutively. */
  lemma {:induction false} EmitFromShape(h: Heap, s: IndexSet, wp: Ptr, ws: seq<int>, d: seq<int>, k: int)
    requires Delimits(d, |ws|) && 0 <= k <= |d| && Readable(h, wp, |ws|)
    ensures ShapedFrom(EmitFrom(h, s, wp, ws, d, k).1.segments, |s.segments|, ws, d, k)
    decreases |d| - k
  {
    if k < |d| {
      var b, e := Start(d, k), d[k];
      var (h1, s1) := EmitColour(h, s, wp, ws, b, e);
      EmitColourShape(h, s, wp, ws, b, e);
      ReadStable(h, h1, wp, |ws|);
      EmitFromShape(h1, s1, wp, ws, d, k + 1);
      EmitFromPrefix(h1, s1, wp, ws, d, k + 1);
      var r := EmitFrom(h1, s1, wp, ws, d, k + 1);
      assert EmitFrom(h, s, wp, ws, d, k) == r;
      ShapesAppend(s.segments, s1.segments, r.1.segments, ws, d, k);
    }
  }

  /** One colour's segment followed by the later colours' segments. */
  lemma ShapesAppend(s: seq<Segment>, s1: seq<Segment>, r: seq<Segment>, ws: seq<int>, d: seq<int>, k: int)
    requires Delimits(d, |ws|) && 0 <= k < |d|
    requires |s1| == |s| + 1 && EmittedAs(s1[|s|], ws, Start(d, k), d[k])
    requires |s1| <= |r| && r[..|s1|] == s1 && ShapedFrom(r, |s1|, ws, d, k + 1)
    ensures ShapedFrom(r, |s|, ws, d, k)
  {
    assert r[|s|] == r[..|s1|][|s|];
    forall c | k + 1 <= c < |d|
      ensures EmittedAs(r[|s| + c - k], ws, Start(d, c), End(d, c))
    {
      assert |s1| + c - (k + 1) == |s| + c - k;
    }
  }

  /** Together the emitted segments enumerate the workset from colour `k` on. */
  lemma {:induction false} EmitFromIndices(h: Heap, s: IndexSet, wp: Ptr, ws: seq<int>, d: seq<int>, k: int)
    requires Delimits(d, |ws|) && 0 <= k <= |d| && Readable(h, wp, |ws|) && Read(h, wp, |ws|) == ws
    requires WellFormed(h, s.segments)
    ensures EmittedIndices(h, s, EmitFrom(h, s, wp, ws, d, k), ws[Start(d, k)..])
    decreases |d| - k, 1
  {
    if k == |d| {
      assert ws[Start(d, k)..] == [];
    } else {
      EmitFromIndicesStep(h, s, wp, ws, d, k);
    }
  }

  /** The emission from colour `k` appends `tail` to the indices and keeps the
      index set well formed. */
  predicate EmittedIndices(h: Heap, s: IndexSet, hr: (Heap, IndexSet), tail: seq<int>)
  {
    WellFormed(h, s.segments) && WellFormed(hr.0, hr.1.segments) &&
    Indices(hr.0, hr.1) == Indices(h, s) + tail &&
    (LengthConsistent(s) ==> LengthConsistent(hr.1))
  }

  lemma {:induction false} EmitFromIndicesStep(h: Heap, s: IndexSet, wp: Ptr, ws: seq<int>, d: seq<int>, k: int)
    requires Delimits(d, |ws|) && 0 <= k < |d| && Readable(h, wp, |ws|) && Read(h, wp, |ws|) == ws
    requires WellFormed(h, s.segments)
    ensures EmittedIndices(h, s, EmitFrom(h, s, wp, ws, d, k), ws[Start(d, k)..])
    decreases |d| - k, 0
  {
    var b, e := Start(d, k), d[k];
    var (h1, s1) := EmitColour(h, s, wp, ws, b, e);
    EmitColourIndices(h, s, wp, ws, b, e);
    ReadStable(h, h1, wp, |ws|);
    assert Start(d, k + 1) == e;
    EmitFromIndices(h1, s1, wp, ws, d, k + 1);
    var r := EmitFrom(h1, s1, wp, ws, d, k + 1);
    assert EmitFrom(h, s, wp, ws, d, k) == r;
    SliceJoin(ws, b, e);
    Associative(Indices(h, s), ws[b..e], ws[e..]);
  }

  /** Every list the in-place emission adds owns a copy allocated at or after
      heap size `|h|`, never the workset array itself. */
  lemma {:induction false} EmitFromFresh(h: Heap, s: IndexSet, wp: Ptr, ws: seq<int>, d: seq<int>, k: int)
    requires Delimits(d, |ws|) && 0 <= k <= |d| && Readable(h, wp, |ws|)
    ensures FreshOwnedLists(EmitFrom(h, s, wp, ws, d, k).1.segments, |s.segments|, |h|)
    decreases |d| - k
  {
    if k < |d| {
      var b, e := Start(d, k), d[k];
      var (h1, s1) := EmitColour(h, s, wp, ws, b, e);
      EmitColourFresh(h, s, wp, ws, b, e);
      ReadStable(h, h1, wp, |ws|);
      EmitFromFresh(h1, s1, wp, ws, d, k + 1);
      EmitFromPrefix(h1, s1, wp, ws, d, k + 1);
      assert EmitFrom(h, s, wp, ws, d, k) == EmitFrom(h1, s1, wp, ws, d, k + 1);
      FreshAppend(s1.segments, EmitFrom(h1, s1, wp, ws, d, k + 1).1.segments, |s.segments|, |h|, |h1|);
    }
  }

  /** The in-place emission only appends, one segment per colour. */
  lemma {:induction false} EmitFromPrefix(h: Heap, s: IndexSet, wp: Ptr, ws: seq<int>, d: seq<int>, k: int)
    requires Delimits(d, |ws|) && 0 <= k <= |d| && Readable(h, wp, |ws|)
    ensures var r := EmitFrom(h, s, wp, ws, d, k).1;
      |r.segments| == |s.segments| + |d| - k && r.segments[..|s.segments|] == s.segments
    decreases |d| - k
  {
    if k < |d| {
      var b, e := Start(d, k), d[k];
      var (h1, s1) := EmitColour(h, s, wp, ws, b, e);
      EmitColourAppends(h, s, wp, ws, b, e);
      ReadStable(h, h1, wp, |ws|);
      EmitFromPrefix(h1, s1, wp, ws, d, k + 1);
      assert EmitFrom(h, s, wp, ws, d, k) == EmitFrom(h1, s1, wp, ws, d, k + 1);
      PrefixOfPrefix(s.segments, s1.segments, EmitFrom(h1, s1, wp, ws, d, k + 1).1.segments);
    } else {
      assert s.segments[..|s.segments|] == s.segments;
    }
  }

  lemma PrefixOfPrefix(s: seq<Segment>, s1: seq<Segment>, r: seq<Segment>)
    requires |s| <= |s1| <= |r| && s1[..|s|] == s && r[..|s1|] == s1
    ensures r[..|s|] == s
  {
    assert r[..|s|] == r[..|s1|][..|s|];
  }

  lemma EmitColourAppends(h: Heap, s: IndexSet, wp: Ptr, ws: seq<int>, b: int, e: int)
    requires 0 <= b < e <= |ws| && Readable(h, wp, |ws|)
    ensures var s1 := EmitColour(h, s, wp, ws, b, e).1;
      |s1.segments| == |s.segments| + 1 && s1.segments[..|s.segments|] == s.segments
  {
  }

  lemma EmitColourFresh(h: Heap, s: IndexSet, wp: Ptr, ws: seq<int>, b: int, e: int)
    requires 0 <= b < e <= |ws| && Readable(h, wp, |ws|)
    ensures var (h1, s1) := EmitColour(h, s, wp, ws, b, e);
      |h| <= |h1| && FreshOwnedLists(s1.segments, |s.segments|, |h|)
  {
    if !IsRun(ws, b, e) {
      var (h1, l) := L.Init(h, Ptr(wp.buf, wp.off + b), e - b, Owned);
      assert EmitColour(h, s, wp, ws, b, e).1 == AddSegment(s, ListPayload(l));
    }
  }

  lemma FreshAppend(s1: seq<Segment>, r: seq<Segment>, from: nat, n: nat, n1: nat)
    requires FreshOwnedLists(s1, from, n) && |s1| <= |r| && r[..|s1|] == s1
    requires FreshOwnedLists(r, |s1|, n1) && n <= n1
    ensures FreshOwnedLists(r, from, n)
  {
    forall i | from <= i < |s1| ensures r[i] == s1[i] {
      assert r[..|s1|][i] == r[i];
    }
  }

  /** Releasing the workset array leaves every segment's indices alone: the
      caller's segments never pointed into it and the new lists own copies. */
  lemma ReleaseKeepsLists(h: Heap, h2: Heap, hs: seq<Segment>, segs: seq<Segment>)
    requires WellFormed(h, hs) && WellFormed(h2, segs) && |hs| <= |segs| && segs[..|hs|] == hs
    requires FreshOwnedLists(segs, |hs|, |h| + 1) && |h| < |h2| && h2[|h|].live
    ensures WellFormed(Free(h2, |h|), segs) && Flat(Free(h2, |h|), segs) == Flat(h2, segs)
  {
    assert SameLists(h2, Free(h2, |h|), segs) by {
      forall i | 0 <= i < |hs| ensures segs[i] == hs[i] {
        assert segs[..|hs|][i] == segs[i];
      }
    }
    FlatSameLists(h2, Free(h2, |h|), segs);
  }

  // ---------------------------------------------------------------------------
  // The loops as the routine runs them.
  // ---------------------------------------------------------------------------

  /** One pass over the domain: the marks start as the workset, an unmarked
      element is appended to the workset and marks its conflicts, and either
      sanity check ends the pass with `None`. */
  method RunPass(conn: seq<seq<int>>, inv: seq<seq<int>>, ws: seq<int>) returns (r: Option<seq<int>>)
    requires InverseOf(inv, conn)
    ensures r == Pass(conn, inv, 0, Elems(ws), ws)
  {
    var marked := Elems(ws);
    var w := ws;
    for i := 0 to |conn|
      invariant Pass(conn, inv, i, marked, w) == Pass(conn, inv, 0, Elems(ws), ws)
    {
      if i !in marked {
        if |w| >= |conn| {
          return None;
        }
        var m := Marks(conn, inv, i);
        if exists x :: x in m && !(0 <= x < |conn|) {
          return None;
        }
        marked, w := marked + m, w + [i];
      }
    }
    return Some(w);
  }

  /** The `while (!done)` loop: passes until one picks nothing, recording the
      workset size after each pass that picked something. */
  method ColourLoop(conn: seq<seq<int>>, inv: seq<seq<int>>) returns (r: Option<(seq<int>, seq<int>)>)
    requires InverseOf(inv, conn)
    ensures r == Colour(conn, inv, [], [])
  {
    var ws: seq<int>, delims: seq<int> := [], [];
    while true
      invariant Distinct(ws) && InDomain(ws, |conn|)
      invariant Colour(conn, inv, ws, delims) == Colour(conn, inv, [], [])
      decreases |conn| - |ws|
    {
      var next := RunPass(conn, inv, ws);
      if next.None? {
        return None;
      }
      var w := next.value;
      if |w| == |ws| {
        return Some((ws, delims));
      }
      PassStart(conn, ws);
      PassSpec(conn, inv, 0, Elems(ws), ws, |ws|);
      DistinctBound(w, |conn|);
      ws, delims := w, delims + [|w|];
    }
  }

  // ---------------------------------------------------------------------------
  // The whole routine.
  // ---------------------------------------------------------------------------

  /** The inverse map for `m` range elements. */
  function Inverse(conn: seq<seq<int>>, m: int): seq<seq<int>>
    requires m >= 0
  {
    seq(m, id requires 0 <= id < m => Refs(conn, id))
  }

  /** With every entry of `conn` below `m`, the inverse map is the inverse of `conn`. */
  lemma InverseIsInverse(conn: seq<seq<int>>, width: int, m: int)
    requires m >= 0 && ValidConn(conn, width, m)
    ensures InverseOf(Inverse(conn, m), conn)
  {
  }

  /** How the routine ends: it exits the program, or it fills the index set and,
      when asked, the permutation and its inverse. */
  datatype ColourOutcome =
    | Exited
    | Coloured(heap: Heap, indexSet: IndexSet, perm: Option<seq<int>>, iperm: Option<seq<int>>)

  /** The outcome the colouring `Colour(conn, Inverse(conn, m), [], [])` leads to.
      With a permutation array the workset is sent back as the permutation, the
      inverse array (when given) is overwritten with its inverse, and each colour
      becomes the range of its workset positions.  Without one each colour is
      emitted from the workset itself, a stack array released on return, and the
      caller's inverse array is left alone. */
  ghost predicate ColouredAs(h: Heap, hs: IndexSet, conn: seq<seq<int>>, m: int, permute: bool,
                             iperm0: Option<seq<int>>, o: ColourOutcome)
    requires m >= 0 && InverseOf(Inverse(conn, m), conn)
  {
    var c := Colour(conn, Inverse(conn, m), [], []);
    o.Coloured? && c.Some? && Delimits(c.value.1, |c.value.0|) &&
    var (w, d) := c.value;
    if permute then
      o.heap == h && o.indexSet == RangesFrom(hs, d, 0) && o.perm == Some(w) &&
      (iperm0.None? <==> o.iperm.None?) &&
      (o.iperm.Some? ==> InverseOfPermutation(o.iperm.value, w))
    else
      var (h1, wp) := Alloc(h, w);
      var (h2, r) := EmitFrom(h1, hs, wp, w, d, 0);
      o.perm.None? && o.iperm == iperm0 && o.indexSet == r &&
      |h| < |h2| && h2[|h|].live && o.heap == Free(h2, |h|)
  }

  /** `ip` undoes the permutation `w`: it maps each value to its position in `w`. */
  predicate InverseOfPermutation(ip: seq<int>, w: seq<int>)
  {
    |ip| == |w| && forall x :: 0 <= x < |w| ==> 0 <= ip[x] < |w| && w[ip[x]] == x
  }

  /** CreateLockFreeColorIndexset.  `permute` says whether the caller passed a
      permutation array, `iperm0` is the caller's inverse-permutation array, if
      any.  The routine exits exactly when the inverse map overflows; the check
      that the workset ends up holding the whole domain never fires
      (ColouringSpec), so it is not a branch here. */
  method CreateLockFreeColorIndexset(h: Heap, hs: IndexSet, conn: seq<seq<int>>, width: int, m: int,
                                     permute: bool, iperm0: Option<seq<int>>) returns (o: ColourOutcome)
    requires width >= 0 && m >= 0 && ValidConn(conn, width, m)
    requires permute && iperm0.Some? ==> |iperm0.value| == |conn|
    ensures o.Exited? <==> Overflows(conn, width, m)
    ensures !Overflows(conn, width, m) ==>
      InverseOf(Inverse(conn, m), conn) && ColouredAs(h, hs, conn, m, permute, iperm0, o)
  {
    var built := InverseMap(conn, width, m);
    if built.None? {
      return Exited;
    }
    var inv := built.value;
    assert inv == Inverse(conn, m);
    InverseIsInverse(conn, width, m);
    var c := ColourLoop(conn, inv);
    ColouringSpec(conn, inv);
    var (w, d) := c.value;
    if permute {
      var ip: Option<seq<int>> := None;
      if iperm0.Some? {
        var v := InvertPermutation(w, iperm0.value);
        ip := Some(v);
      }
      var r := AddColourRanges(hs, d);
      o := Coloured(h, r, Some(w), ip);
    } else {
      var (h1, wp) := Alloc(h, w);
      var h2, r := EmitColours(h1, hs, wp, w, d);
      o := Coloured(Free(h2, |h|), r, None, iperm0);
    }
  }

  // ---------------------------------------------------------------------------
  // What the routine produces.
  // ---------------------------------------------------------------------------

  /** With a permutation array: the permutation is the final workset, which holds
      every domain element once; there is one range segment per colour, over the
      colour's positions in the permutation, so the new segments together
      enumerate `[0, numEntity)`; the elements each range stands for are
      pairwise independent.  Nothing is allocated. */
  lemma PermutedOutcome(h: Heap, hs: IndexSet, conn: seq<seq<int>>, m: int, iperm0: Option<seq<int>>, o: ColourOutcome)
    requires m >= 0 && InverseOf(Inverse(conn, m), conn) && WellFormed(h, hs.segments)
    requires ColouredAs(h, hs, conn, m, true, iperm0, o)
    ensures o.perm.Some? && Distinct(o.perm.value) && InDomain(o.perm.value, |conn|) && |o.perm.value| == |conn|
    ensures o.heap == h && (iperm0.Some? ==> o.iperm.Some? && InverseOfPermutation(o.iperm.value, o.perm.value))
    ensures var d := Colour(conn, Inverse(conn, m), [], []).value.1;
      ColoursFrom(conn, o.perm.value, d, 0) &&
      |o.indexSet.segments| == |hs.segments| + |d| && o.indexSet.segments[..|hs.segments|] == hs.segments &&
      forall k :: 0 <= k < |d| ==>
        o.indexSet.segments[|hs.segments| + k].payload == RangePayload(R.RangeISet(Start(d, k), End(d, k)))
    ensures WellFormed(o.heap, o.indexSet.segments) &&
      Indices(o.heap, o.indexSet) == Indices(h, hs) + R.Interval(0, |conn|)
    ensures LengthConsistent(hs) ==> LengthConsistent(o.indexSet)
  {
    var inv := Inverse(conn, m);
    ColouringSpec(conn, inv);
    var (w, d) := Colour(conn, inv, [], []).value;
    RangesFromShape(hs, d, 0);
    RangesFromIndices(h, hs, d, |conn|, 0);
  }

  /** Without a permutation array: one segment per colour, each a range when the
      colour's elements run consecutively and otherwise a list owning a copy of
      them; the new segments enumerate the final workset, colour after colour,
      and survive the release of the workset array.  The caller's buffers are
      untouched and the inverse array is left alone. */
  lemma InPlaceOutcome(h: Heap, hs: IndexSet, conn: seq<seq<int>>, m: int, iperm0: Option<seq<int>>, o: ColourOutcome)
    requires m >= 0 && InverseOf(Inverse(conn, m), conn) && WellFormed(h, hs.segments)
    requires ColouredAs(h, hs, conn, m, false, iperm0, o)
    ensures o.perm.None? && o.iperm == iperm0
    ensures |h| < |o.heap| && !o.heap[|h|].live && forall b :: 0 <= b < |h| ==> o.heap[b] == h[b]
    ensures var (w, d) := Colour(conn, Inverse(conn, m), [], []).value;
      Distinct(w) && InDomain(w, |conn|) && |w| == |conn| && ColoursFrom(conn, w, d, 0) &&
      |o.indexSet.segments| == |hs.segments| + |d| && o.indexSet.segments[..|hs.segments|] == hs.segments &&
      (forall k :: 0 <= k < |d| ==> EmittedAs(o.indexSet.segments[|hs.segments| + k], w, Start(d, k), End(d, k))) &&
      WellFormed(o.heap, o.indexSet.segments) && Indices(o.heap, o.indexSet) == Indices(h, hs) + w
    ensures LengthConsistent(hs) ==> LengthConsistent(o.indexSet)
  {
    var inv := Inverse(conn, m);
    ColouringSpec(conn, inv);
    var (w, d) := Colour(conn, inv, [], []).value;
    var (h1, wp) := Alloc(h, w);
    EmitFromShape(h1, hs, wp, w, d, 0);
    EmitFromPrefix(h1, hs, wp, w, d, 0);
    ReleasedEmission(h, hs, w, d);
  }

  /** The in-place emission from a freshly allocated workset array, followed by
      the release of that array: the heap only gains buffers and loses the
      workset, and the new segments enumerate the workset. */
  lemma ReleasedEmission(h: Heap, hs: IndexSet, w: seq<int>, d: seq<int>)
    requires WellFormed(h, hs.segments) && Delimits(d, |w|)
    ensures var (h1, wp) := Alloc(h, w);
      var (h2, r) := EmitFrom(h1, hs, wp, w, d, 0);
      |h| < |h2| && h2[|h|].live && |h| < |Free(h2, |h|)| && !Free(h2, |h|)[|h|].live &&
      (forall b :: 0 <= b < |h| ==> Free(h2, |h|)[b] == h[b]) &&
      WellFormed(Free(h2, |h|), r.segments) && Indices(Free(h2, |h|), r) == Indices(h, hs) + w &&
      (LengthConsistent(hs) ==> LengthConsistent(r))
  {
    var (h1, wp) := Alloc(h, w);
    ExtendsSameLists(h, h1, hs.segments);
    FlatSameLists(h, h1, hs.segments);
    EmitFromIndices(h1, hs, wp, w, d, 0);
    EmitFromPrefix(h1, hs, wp, w, d, 0);
    EmitFromFresh(h1, hs, wp, w, d, 0);
    var (h2, r) := EmitFrom(h1, hs, wp, w, d, 0);
    assert w[Start(d, 0)..] == w;
    ReleaseKeepsLists(h, h2, hs.segments, r.segments);
  }
}
