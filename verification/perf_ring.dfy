/** The consumer side of a perf sampling ring buffer, as every perf test
    program reads it: the kernel writes records into a power-of-two data area
    and advances `data_head`; the program copies bytes out from `data_tail`
    and advances it.  Both counters are free-running 64-bit byte counts, so
    every position in the data area is a counter reduced modulo its size. */
module PerfRing {
  import opened Wrappers
  import opened Tiling
  import opened PerfBits

  /** The mapped buffer: the data pages (`pgmsk + 1` bytes) and the two
      counters of the control page. */
  datatype Ring = Ring(data: seq<byte>, head: u64, tail: u64)

  /** Bytes written and not yet consumed: the unsigned 64-bit difference
      `data_head - data_tail`. */
  function Avail(r: Ring): u64
  {
    (r.head - r.tail) % U64
  }

  /** What the kernel guarantees the consumer: the data area is a power of two
      in size and never holds more unread bytes than it has room for. */
  predicate RingOk(r: Ring)
  {
    IsPow2(|r.data|) && |r.data| <= U64 && Avail(r) <= |r.data|
  }

  /** The unread bytes in order: the `k`-th lies at counter `tail + k`, that is
      at position `(tail + k) mod size` of the data area. */
  function Pending(r: Ring): (p: seq<byte>)
    requires IsPow2(|r.data|)
    ensures |p| == Avail(r)
  {
    seq(Avail(r), k requires 0 <= k < Avail(r) => r.data[(r.tail + k) % |r.data|])
  }

  /** `data_tail += n` on the 64-bit counter. */
  function Advance(r: Ring, n: nat): Ring
  {
    r.(tail := (r.tail + n) % U64)
  }

  /** `read_from_perf_buffer`: fails when fewer than `sz` bytes are unread;
      otherwise copies from the masked tail position to the end of the data
      area, then the wrapped-around rest from its start, and advances the
      tail by `sz`.  A failed read leaves the ring as it was. */
  function Read(r: Ring, sz: nat): Option<(seq<byte>, Ring)>
    requires RingOk(r)
  {
    var n := |r.data|;
    var t := And(r.tail, n - 1);
    if sz > Avail(r) then None
    else
      AndLowMask(r.tail, n);
      var c := n - t;
      var m := if c < sz then c else sz;
      Some((Copied(r, t, m, sz), Advance(r, sz)))
  }

  /** Adding a multiple of `n` does not change a remainder by `n`. */
  lemma ModShift(x: int, n: int, j: int)
    requires n > 0
    ensures (x + n * j) % n == x % n
  {
    var q, r := x / n, x % n;
    assert x + n * j == n * (q + j) + r;
    DivModUnique(x + n * j, n, q + j, r);
  }

  /** Subtracting from a difference that has been reduced modulo `M`. */
  lemma SubMod(h: int, t: int, k: int, M: int)
    requires M > 0 && 0 <= k <= (h - t) % M
    ensures (h - (t + k) % M) % M == (h - t) % M - k
  {
    var a := (t + k) / M;
    var d := (h - t) / M;
    assert t + k == M * a + (t + k) % M;
    assert h - t == M * d + (h - t) % M;
    assert h - (t + k) % M == ((h - t) % M - k) + M * (d + a);
    ModShift((h - t) % M - k, M, d + a);
    DivModUnique((h - t) % M - k, M, 0, (h - t) % M - k);
  }

  /** Reducing a counter modulo a multiple `M` of `n` before adding an offset
      does not move the position it names modulo `n`. */
  lemma ModModAdd(x: int, i: int, M: int, n: int)
    requires n > 0 && M > 0 && M % n == 0
    ensures ((x % M) + i) % n == (x + i) % n
  {
    var a := x / M;
    var w := M / n;
    assert M == n * w;
    assert x == M * a + x % M;
    assert (x % M) + i == (x + i) + n * (-(w * a));
    ModShift(x + i, n, -(w * a));
  }

  /** Advancing the tail by `k` leaves `k` fewer unread bytes. */
  lemma AvailAdvance(r: Ring, k: nat)
    requires k <= Avail(r)
    ensures Avail(Advance(r, k)) == Avail(r) - k
  {
    SubMod(r.head, r.tail, k, U64);
  }

  /** The byte at counter `c` of the ring. */
  function At(r: Ring, c: int): byte
    requires IsPow2(|r.data|)
  {
    r.data[c % |r.data|]
  }

  /** The byte at a counter does not depend on the 64-bit wrap-around. */
  lemma AtWraps(r: Ring, c: int, i: int)
    requires IsPow2(|r.data|) && |r.data| <= U64
    ensures At(r, c % U64 + i) == At(r, c + i)
  {
    U64IsPow2();
    Pow2Divides(|r.data|, 64);
    ModModAdd(c, i, U64, |r.data|);
  }

  /** One pending byte after advancing the tail by `k`. */
  lemma PendingAdvanceAt(r: Ring, k: nat, i: nat)
    requires IsPow2(|r.data|) && |r.data| <= U64 && k <= Avail(r)
    requires i < Avail(r) - k == Avail(Advance(r, k))
    ensures Pending(Advance(r, k))[i] == Pending(r)[k + i]
  {
    AtWraps(r, r.tail + k, i);
    assert Pending(Advance(r, k))[i] == At(r, (r.tail + k) % U64 + i);
    assert Pending(r)[k + i] == At(r, r.tail + k + i);
  }

  /** Advancing the tail by at most the unread bytes drops exactly that many
      bytes from the front of the pending ones. */
  lemma PendingAdvance(r: Ring, k: nat)
    requires IsPow2(|r.data|) && |r.data| <= U64 && k <= Avail(r)
    ensures Pending(Advance(r, k)) == Pending(r)[k..]
  {
    AvailAdvance(r, k);
    forall i | 0 <= i < Avail(r) - k
      ensures Pending(Advance(r, k))[i] == Pending(r)[k..][i]
    {
      PendingAdvanceAt(r, k, i);
    }
  }

  /** Advancing the tail by at most the unread bytes consumes exactly that
      many bytes from the front of the pending ones and keeps the ring sound. */
  lemma AdvanceConsumes(r: Ring, k: nat)
    requires RingOk(r) && k <= Avail(r)
    ensures RingOk(Advance(r, k))
    ensures Avail(Advance(r, k)) == Avail(r) - k
    ensures Pending(Advance(r, k)) == Pending(r)[k..]
  {
    AvailAdvance(r, k);
    PendingAdvance(r, k);
  }

  /** Positions inside the data area seen from the masked tail `t = x % n`:
      before the end of the area they are `t + k`, after wrapping `t + k - n`. */
  lemma WrapPosition(x: nat, n: nat, t: nat, k: nat)
    requires n > 0 && t == x % n && k < 2 * n - t
    ensures (x + k) % n == if k < n - t then t + k else t + k - n
  {
    if k < n - t {
      DivModUnique(x + k, n, x / n, t + k);
    } else {
      DivModUnique(x + k, n, x / n + 1, t + k - n);
    }
  }

  /** The bytes `read_from_perf_buffer` copies: from the masked tail `t` up to
      `m` bytes to the end of the data area, then the rest from its start. */
  function Copied(r: Ring, t: nat, m: nat, sz: nat): seq<byte>
    requires t + m <= |r.data| && m <= sz <= m + |r.data|
  {
    r.data[t..t + m] + r.data[..sz - m]
  }

  /** Copying the two pieces yields the next `sz` bytes from the tail. */
  lemma CopiedPending(r: Ring, t: nat, m: nat, sz: nat)
    requires RingOk(r) && sz <= Avail(r) && t == r.tail % |r.data|
    requires m == if |r.data| - t < sz then |r.data| - t else sz
    ensures Copied(r, t, m, sz) == Pending(r)[..sz]
  {
    var n := |r.data|;
    var bs := Copied(r, t, m, sz);
    forall k | 0 <= k < sz
      ensures bs[k] == Pending(r)[k]
    {
      WrapPosition(r.tail, n, t, k);
      assert Pending(r)[k] == r.data[(r.tail + k) % n];
    }
  }

  /** A successful read copies the two pieces and advances the tail. */
  lemma ReadUnfolds(r: Ring, sz: nat)
    requires RingOk(r) && sz <= Avail(r)
    ensures var t := r.tail % |r.data|;
      Read(r, sz) == Some((Copied(r, t, if |r.data| - t < sz then |r.data| - t else sz, sz), Advance(r, sz)))
  {
    AndLowMask(r.tail, |r.data|);
  }

  /** A successful read delivers the next `sz` pending bytes in order. */
  lemma ReadDelivers(r: Ring, sz: nat)
    requires RingOk(r) && sz <= Avail(r)
    ensures Read(r, sz).Some? && Read(r, sz).value.0 == Pending(r)[..sz]
  {
    var t := r.tail % |r.data|;
    ReadUnfolds(r, sz);
    CopiedPending(r, t, if |r.data| - t < sz then |r.data| - t else sz, sz);
  }

  /** A read fails exactly when the request exceeds the unread bytes, and a
      successful one returns `sz` bytes and advances the tail by `sz`. */
  lemma ReadShape(r: Ring, sz: nat)
    requires RingOk(r)
    ensures Read(r, sz).None? <==> sz > Avail(r)
    ensures Read(r, sz).Some? ==> |Read(r, sz).value.0| == sz && Read(r, sz).value.1 == Advance(r, sz)
  {
    if sz <= Avail(r) {
      ReadUnfolds(r, sz);
    }
  }

  /** Advancing by at most the unread bytes keeps the ring sound. */
  lemma AdvanceKeeps(r: Ring, k: nat)
    requires RingOk(r) && k <= Avail(r)
    ensures RingOk(Advance(r, k)) && Avail(Advance(r, k)) == Avail(r) - k
  {
    AvailAdvance(r, k);
  }

  /** `read_from_perf_buffer` fails exactly when the request exceeds the
      unread bytes; a successful read hands back the next `sz` pending bytes
      and leaves the rest pending, and a failed one changes nothing. */
  lemma ReadSpec(r: Ring, sz: nat)
    requires RingOk(r)
    ensures Read(r, sz).None? <==> sz > Avail(r)
    ensures Read(r, sz).Some? ==>
      var (bs, r') := Read(r, sz).value;
      bs == Pending(r)[..sz] && RingOk(r') && r'.data == r.data && r'.head == r.head &&
      Pending(r') == Pending(r)[sz..]
  {
    if sz <= Avail(r) {
      ReadDelivers(r, sz);
      AdvanceConsumes(r, sz);
    }
  }

  /** The `cs_multi` variant of `read_from_perf_buffer` first checks that the
      channel has a mapped control page; without one (`None`) it fails before
      reading anything. */
  function ReadMapped(m: Option<Ring>, sz: nat): (o: Option<(seq<byte>, Ring)>)
    requires m.Some? ==> RingOk(m.value)
    ensures m.None? ==> o.None?
    ensures m.Some? ==> (o.None? <==> sz > Avail(m.value))
    ensures o.Some? ==> o.value.0 == Pending(m.value)[..sz] && o.value.1.data == m.value.data &&
                        Pending(o.value.1) == Pending(m.value)[sz..]
  {
    if m.None? then None
    else
      ReadSpec(m.value, sz);
      Read(m.value, sz)
  }

  // ---------------------------------------------------------------------------
  // Skipping and polling.
  // ---------------------------------------------------------------------------

  /** `skip_perf_data` as written: clamps the request to the unread bytes by
      comparing the 64-bit sum `data_tail + sz` with `data_head`. */
  function SkipAsWritten(r: Ring, sz: u64): Ring
  {
    var n := if (r.tail + sz) % U64 > r.head then (r.head - r.tail) % U64 else sz;
    Advance(r, n)
  }

  /** Skipping with the clamp stated on the unread byte count itself, which is
      what the comparison means while the counters have not wrapped. */
  function Skip(r: Ring, sz: nat): Ring
  {
    Advance(r, if sz > Avail(r) then Avail(r) else sz)
  }

  /** Skipping drops `sz` pending bytes, or all of them when fewer are left. */
  lemma SkipDrops(r: Ring, sz: nat)
    requires RingOk(r)
    ensures RingOk(Skip(r, sz)) && Skip(r, sz).data == r.data && Skip(r, sz).head == r.head
    ensures Pending(Skip(r, sz)) == Pending(r)[if sz > Avail(r) then Avail(r) else sz..]
  {
    AdvanceConsumes(r, if sz > Avail(r) then Avail(r) else sz);
  }

  /** Skipping keeps the ring sound and never adds unread bytes. */
  lemma SkipKeeps(r: Ring, sz: nat)
    requires RingOk(r)
    ensures RingOk(Skip(r, sz)) && Skip(r, sz).data == r.data && Skip(r, sz).head == r.head
    ensures Avail(Skip(r, sz)) == Avail(r) - (if sz > Avail(r) then Avail(r) else sz)
  {
    AdvanceKeeps(r, if sz > Avail(r) then Avail(r) else sz);
  }

  /** While `data_tail <= data_head` and the sum does not overflow, the
      comparison in `skip_perf_data` is the clamp on the unread bytes. */
  lemma SkipAgrees(r: Ring, sz: u64)
    requires r.tail <= r.head && r.tail + sz < U64
    ensures SkipAsWritten(r, sz) == Skip(r, sz)
  {
    DivModUnique(r.tail + sz, U64, 0, r.tail + sz);
    DivModUnique(r.head - r.tail, U64, 0, r.head - r.tail);
  }

  /** Once `data_head` has wrapped past 2^64 and `data_tail` has not, the
      comparison in `skip_perf_data` sees a sum larger than the head and
      discards every unread byte, though the request was shorter. */
  lemma SkipAsWrittenWrap(r: Ring, sz: u64)
    requires RingOk(r) && r.head < r.tail && r.tail + sz < U64 && sz < Avail(r)
    ensures Avail(SkipAsWritten(r, sz)) == 0
    ensures Avail(Skip(r, sz)) == Avail(r) - sz > 0
  {
    DivModUnique(r.tail + sz, U64, 0, r.tail + sz);
    AdvanceConsumes(r, Avail(r));
    AdvanceConsumes(r, sz);
  }

  /** `is_more_perf_data`: the tail counter is below the head counter. */
  function IsMore(r: Ring): bool
  {
    r.tail < r.head
  }

  /** While the counters have not wrapped, there is more data exactly when
      some byte is pending. */
  lemma IsMoreIff(r: Ring)
    requires IsPow2(|r.data|) && r.tail <= r.head
    ensures IsMore(r) <==> |Pending(r)| > 0
  {
    DivModUnique(r.head - r.tail, U64, 0, r.head - r.tail);
  }

  /** The counters have not wrapped past 2^64 between tail and head. */
  predicate Linear(r: Ring)
  {
    RingOk(r) && r.tail <= r.head
  }

  /** A ring that keeps the head and has no more unread bytes than a linear
      one is itself linear, and its unread count is the plain difference. */
  lemma StaysLinear(r: Ring, r': Ring)
    requires Linear(r) && RingOk(r') && r'.head == r.head && Avail(r') <= Avail(r)
    ensures Linear(r') && Avail(r') == r'.head - r'.tail
  {
    DivModUnique(r.head - r.tail, U64, 0, r.head - r.tail);
    if r'.tail > r'.head {
      DivModUnique(r'.head - r'.tail, U64, -1, r'.head - r'.tail + U64);
    } else {
      DivModUnique(r'.head - r'.tail, U64, 0, r'.head - r'.tail);
    }
  }
}
