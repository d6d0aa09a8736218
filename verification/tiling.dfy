/** Arithmetic shared by the partitioners: C's truncating division, cut points
    that split an interval into consecutive pieces, and the lane-major order in
    which the pieces are emitted. */
module Tiling {

  /** C's `/` on `int` by a positive divisor: the quotient truncated toward
      zero, so a negative dividend rounds up rather than down.  Every divisor
      the partitioners use is positive. */
  function CDiv(a: int, b: int): (q: int)
    requires b > 0
    ensures a >= 0 ==> q == a / b
    ensures a < 0 ==> q <= 0 && a <= q * b < a + b
  {
    if a < 0 then -((-a) / b) else a / b
  }

  /** Dividing a multiple of `n` by `n` is exact, whatever the sign. */
  lemma CDivExact(a: int, n: int)
    requires n > 0
    ensures CDiv(n * a, n) == a && CDiv(0 * a, n) == 0
  {
    if a >= 0 {
      DivModUnique(n * a, n, a, 0);
    } else {
      assert -(n * a) == n * -a;
      DivModUnique(n * -a, n, -a, 0);
    }
  }

  /** Dividing by a positive number keeps the order of the dividends. */
  lemma DivMonotone(a: int, b: int, n: int)
    requires 0 <= a <= b && n > 0
    ensures a / n <= b / n
  {
    if a / n > b / n {
      calc {
        b;
      <  { assert b == (b / n) * n + b % n; }
        (b / n) * n + n;
      ==
        (b / n + 1) * n;
      <=  { MulMonotone(b / n + 1, a / n, n); }
        (a / n) * n;
      <=
        a;
      }
    }
  }

  lemma MulMonotone(x: int, y: int, n: int)
    requires x <= y && n >= 0
    ensures x * n <= y * n
  {
  }

  /** The quotient and remainder of `L*a + b` by `L` when `0 <= b < L`. */
  lemma DivModUnique(m: int, L: int, a: int, b: int)
    requires L > 0 && 0 <= b < L && m == L * a + b
    ensures m / L == a && m % L == b
  {
    var q, r := m / L, m % L;
    assert m == L * q + r;
    if q > a {
      MulMonotone(a + 1, q, L);
    } else if q < a {
      MulMonotone(q + 1, a, L);
    }
  }

  /** `i*f/n` for `i` from 0 to `n` splits `[0, f)` into `n` consecutive pieces. */
  lemma EvenCuts(i: int, j: int, f: int, n: int)
    requires n > 0 && f >= 0 && 0 <= i <= j
    ensures 0 <= (i * f) / n <= (j * f) / n
    ensures (0 * f) / n == 0 && (n * f) / n == f
  {
    MulMonotone(i, j, f);
    DivMonotone(i * f, j * f, n);
    DivModUnique(n * f, n, f, 0);
  }

  // ---------------------------------------------------------------------------
  // Cut points.
  // ---------------------------------------------------------------------------

  /** Each cut point is at most the next one. */
  predicate Monotone(c: seq<int>)
  {
    forall m :: 0 <= m < |c| - 1 ==> c[m] <= c[m + 1]
  }

  lemma {:induction false} MonotoneLe(c: seq<int>, j: int, k: int)
    requires Monotone(c) && 0 <= j <= k < |c|
    ensures c[j] <= c[k]
    decreases k - j
  {
    if j < k {
      MonotoneLe(c, j + 1, k);
    }
  }

  /** Piece `m` is the half-open interval `[c[m], c[m+1])`; `x` lies in it. */
  predicate InPiece(c: seq<int>, m: int, x: int)
  {
    0 <= m < |c| - 1 && c[m] <= x < c[m + 1]
  }

  /** The piece holding `x`, searching from piece `m` on. */
  function Owner(c: seq<int>, x: int, m: int): (r: int)
    requires Monotone(c) && 0 <= m < |c| - 1 && c[m] <= x < c[|c| - 1]
    ensures m <= r && InPiece(c, r, x)
    decreases |c| - m
  {
    if x < c[m + 1] then m else Owner(c, x, m + 1)
  }

  /** Consecutive cut points tile `[c[0], c[last])`: every value in it lies in
      exactly one piece `[c[m], c[m+1])`, and every piece lies inside it. */
  lemma PiecesTile(c: seq<int>)
    requires Monotone(c) && |c| >= 1
    ensures forall x :: c[0] <= x < c[|c| - 1] ==> InPiece(c, Owner(c, x, 0), x)
    ensures forall m1, m2, x :: InPiece(c, m1, x) && InPiece(c, m2, x) ==> m1 == m2
    ensures forall m, x :: InPiece(c, m, x) ==> c[0] <= x < c[|c| - 1]
  {
    forall m1, m2, x | InPiece(c, m1, x) && InPiece(c, m2, x) ensures m1 == m2 {
      if m1 < m2 {
        MonotoneLe(c, m1 + 1, m2);
      } else if m2 < m1 {
        MonotoneLe(c, m2 + 1, m1);
      }
    }
    forall m, x | InPiece(c, m, x) ensures c[0] <= x < c[|c| - 1] {
      MonotoneLe(c, 0, m);
      MonotoneLe(c, m + 1, |c| - 1);
    }
  }

  // ---------------------------------------------------------------------------
  // Lane-major emission order.
  // ---------------------------------------------------------------------------

  /** With `t` threads and `lanes` pieces per thread, the `k`-th emitted piece
      is lane `k / t` of thread `k % t`, which is piece `lanes*(k % t) + k / t`
      in spatial order. */
  function LaneOrder(k: int, t: int, lanes: int): int
    requires t > 0
  {
    lanes * (k % t) + k / t
  }

  /** Where spatial piece `m` is emitted. */
  function LaneSlot(m: int, t: int, lanes: int): int
    requires lanes > 0
  {
    (m % lanes) * t + m / lanes
  }

  lemma LaneOrderInRange(k: int, t: int, lanes: int)
    requires t > 0 && lanes > 0 && 0 <= k < lanes * t
    ensures 0 <= LaneOrder(k, t, lanes) < lanes * t
    ensures LaneSlot(LaneOrder(k, t, lanes), t, lanes) == k
  {
    var i, lane := k % t, k / t;
    assert k == t * lane + i;
    assert lane < lanes by {
      if lane >= lanes {
        MulMonotone(lanes, lane, t);
      }
    }
    MulMonotone(i, t - 1, lanes);
    DivModUnique(lanes * i + lane, lanes, i, lane);
  }

  lemma LaneSlotInRange(m: int, t: int, lanes: int)
    requires t > 0 && lanes > 0 && 0 <= m < lanes * t
    ensures 0 <= LaneSlot(m, t, lanes) < lanes * t
    ensures LaneOrder(LaneSlot(m, t, lanes), t, lanes) == m
  {
    var lane, i := m % lanes, m / lanes;
    assert m == lanes * i + lane;
    assert i < t by {
      if i >= t {
        MulMonotone(t, i, lanes);
      }
    }
    MulMonotone(lane, lanes - 1, t);
    DivModUnique(t * lane + i, t, lane, i);
  }

  /** Lane-major order is a bijection of `[0, lanes*t)`. */
  lemma LaneOrderBijective(t: int, lanes: int)
    requires t > 0 && lanes > 0
    ensures forall k :: 0 <= k < lanes * t ==> 0 <= LaneOrder(k, t, lanes) < lanes * t
    ensures forall k1, k2 ::
      (0 <= k1 < lanes * t && 0 <= k2 < lanes * t && LaneOrder(k1, t, lanes) == LaneOrder(k2, t, lanes)) ==> k1 == k2
    ensures forall m :: 0 <= m < lanes * t ==>
      0 <= LaneSlot(m, t, lanes) < lanes * t && LaneOrder(LaneSlot(m, t, lanes), t, lanes) == m
  {
    forall k | 0 <= k < lanes * t
      ensures 0 <= LaneOrder(k, t, lanes) < lanes * t && LaneSlot(LaneOrder(k, t, lanes), t, lanes) == k
    {
      LaneOrderInRange(k, t, lanes);
    }
    forall m | 0 <= m < lanes * t
      ensures 0 <= LaneSlot(m, t, lanes) < lanes * t && LaneOrder(LaneSlot(m, t, lanes), t, lanes) == m
    {
      LaneSlotInRange(m, t, lanes);
    }
  }
}
