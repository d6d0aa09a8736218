/** Machine words as the perf consumers see them: bytes, 64-bit unsigned
    counters with wrap-around, bitwise AND on non-negative integers, powers of
    two, and little-endian byte strings. */
module PerfBits {
  import opened Tiling

  /** 2^64: every `uint64_t` and `unsigned long` counter wraps modulo this. */
  const U64: nat := 0x1_0000_0000_0000_0000

  type byte = x: int | 0 <= x < 256
  type u64 = x: int | 0 <= x < U64

  function Pow2(k: nat): (r: nat)
    ensures r >= 1
  {
    if k == 0 then 1 else 2 * Pow2(k - 1)
  }

  /** `n` is a power of two. */
  predicate IsPow2(n: nat)
  {
    if n <= 1 then n == 1 else n % 2 == 0 && IsPow2(n / 2)
  }

  lemma U64IsPow2()
    ensures U64 == Pow2(64)
  {
    assert Pow2(1) == 2;
    assert Pow2(2) == 4;
    assert Pow2(4) == 16 by { Pow2Add(2, 2); }
    assert Pow2(8) == 256 by { Pow2Add(4, 4); }
    assert Pow2(16) == 0x1_0000 by { Pow2Add(8, 8); }
    assert Pow2(32) == 0x1_0000_0000 by { Pow2Add(16, 16); }
    Pow2Add(32, 32);
  }

  lemma {:induction false} Pow2Add(i: nat, j: nat)
    ensures Pow2(i + j) == Pow2(i) * Pow2(j)
  {
    if i > 0 {
      Pow2Add(i - 1, j);
      assert Pow2(i + j) == 2 * Pow2(i - 1 + j);
    }
  }

  /** A power of two no larger than `2^K` divides `2^K`. */
  lemma {:induction false} Pow2Divides(n: nat, K: nat)
    requires IsPow2(n) && n <= Pow2(K)
    ensures Pow2(K) % n == 0
  {
    if n > 1 {
      var m := n / 2;
      assert n == 2 * m;
      assert K > 0;
      Pow2Divides(m, K - 1);
      var q := Pow2(K - 1) / m;
      assert Pow2(K - 1) == m * q;
      assert Pow2(K) == n * q;
      DivModUnique(n * q, n, q, 0);
    }
  }

  /** Reducing modulo 2^64 first does not change a remainder modulo a power
      of two that divides 2^64. */
  lemma ModU64(x: int, n: nat)
    requires IsPow2(n) && n <= U64
    ensures (x % U64) % n == x % n
  {
    U64IsPow2();
    Pow2Divides(n, 64);
    var q := U64 / n;
    assert U64 == n * q;
    ModMod(x, n, q);
  }

  /** Reducing modulo a multiple of `n` first does not change the remainder by `n`. */
  lemma ModMod(x: int, n: int, q: int)
    requires n > 0 && q > 0
    ensures (x % (n * q)) % n == x % n
  {
    var N := n * q;
    var a, y := x / N, x % N;
    assert x == N * a + y;
    var b, r := y / n, y % n;
    assert y == n * b + r;
    assert N * a == n * (q * a);
    assert x == n * (q * a + b) + r;
    DivModUnique(x, n, q * a + b, r);
  }

  // ---------------------------------------------------------------------------
  // Bitwise AND.
  // ---------------------------------------------------------------------------

  /** C's `&` on non-negative integers, bit by bit from the least significant. */
  function And(a: nat, b: nat): nat
    decreases a
  {
    if a == 0 || b == 0 then 0
    else 2 * And(a / 2, b / 2) + (if a % 2 == 1 && b % 2 == 1 then 1 else 0)
  }

  /** Masking with `n - 1` for a power of two `n` is reduction modulo `n`: this
      is why `data_tail & pgmsk` is a position inside the ring. */
  lemma {:induction false} AndLowMask(a: nat, n: nat)
    requires IsPow2(n)
    ensures And(a, n - 1) == a % n
    decreases n
  {
    if n > 1 && a > 0 {
      var m := n / 2;
      AndLowMask(a / 2, m);
      AndOdd(a, m);
      HalveMod(a, m);
    } else if a == 0 {
      DivModUnique(0, n, 0, 0);
    } else {
      DivModUnique(a, 1, a, 0);
    }
  }

  /** ANDing with an odd number keeps the low bit. */
  lemma AndOdd(a: nat, m: nat)
    requires a > 0 && m > 0
    ensures And(a, 2 * m - 1) == 2 * And(a / 2, m - 1) + a % 2
  {
    DivModUnique(2 * m - 1, 2, m - 1, 1);
  }

  /** The remainder by `2*m` from the remainder of the half by `m`. */
  lemma HalveMod(a: nat, m: nat)
    requires m > 0
    ensures 2 * ((a / 2) % m) + a % 2 == a % (2 * m)
  {
    var h, lo := a / 2, a % 2;
    var q, r := h / m, h % m;
    assert h == m * q + r;
    Double(m, q);
    assert a == (2 * m) * q + (2 * r + lo);
    DivModUnique(a, 2 * m, q, 2 * r + lo);
  }

  /** Testing a single-bit flag with `&` reads bit `k` of the mask. */
  lemma {:induction false} AndSingleBit(a: nat, k: nat)
    ensures And(a, Pow2(k)) != 0 <==> (a / Pow2(k)) % 2 == 1
  {
    if k > 0 && a > 0 {
      var p := Pow2(k - 1);
      AndEven(a, p);
      AndSingleBit(a / 2, k - 1);
      HalveTwice(a, p);
    } else if k == 0 {
      DivModUnique(a, 1, a, 0);
    } else {
      DivModUnique(0, Pow2(k), 0, 0);
    }
  }

  /** ANDing with an even number drops the low bit. */
  lemma AndEven(a: nat, p: nat)
    requires a > 0 && p > 0
    ensures And(a, 2 * p) == 2 * And(a / 2, p)
  {
    DivModUnique(2 * p, 2, p, 0);
  }

  lemma Double(m: int, q: int)
    ensures 2 * (m * q) == (2 * m) * q
  {
  }

  /** Halving and then dividing by `m` is dividing by `2*m`. */
  lemma HalveTwice(a: nat, m: nat)
    requires m > 0
    ensures (a / 2) / m == a / (2 * m)
  {
    var h, lo := a / 2, a % 2;
    var q, r := h / m, h % m;
    assert h == m * q + r;
    Double(m, q);
    assert a == (2 * m) * q + (2 * r + lo);
    DivModUnique(a, 2 * m, q, 2 * r + lo);
  }

  // ---------------------------------------------------------------------------
  // Little-endian byte strings.
  // ---------------------------------------------------------------------------

  function Pow256(n: nat): (r: nat)
    ensures r >= 1
  {
    if n == 0 then 1 else 256 * Pow256(n - 1)
  }

  /** The value of a little-endian byte string, as a load of that many bytes
      on the little-endian machines the consumers run on. */
  function FromLE(bs: seq<byte>): (v: nat)
    ensures v < Pow256(|bs|)
  {
    if |bs| == 0 then 0 else bs[0] + 256 * FromLE(bs[1..])
  }

  /** The `n` low bytes of `v`, least significant first. */
  function ToLE(v: nat, n: nat): (bs: seq<byte>)
    ensures |bs| == n
  {
    if n == 0 then [] else [v % 256] + ToLE(v / 256, n - 1)
  }

  lemma {:induction false} FromToLE(v: nat, n: nat)
    requires v < Pow256(n)
    ensures FromLE(ToLE(v, n)) == v
  {
    if n > 0 {
      var bs := ToLE(v, n);
      assert bs[1..] == ToLE(v / 256, n - 1);
      assert v / 256 < Pow256(n - 1);
      FromToLE(v / 256, n - 1);
    }
  }

  lemma {:induction false} ToFromLE(bs: seq<byte>)
    ensures ToLE(FromLE(bs), |bs|) == bs
  {
    if |bs| > 0 {
      var v := FromLE(bs);
      DivModUnique(v, 256, FromLE(bs[1..]), bs[0]);
      ToFromLE(bs[1..]);
    }
  }

  /** A 32-bit value followed by more bytes, loaded as one little-endian
      value: the four bytes are its low 32 bits. */
  lemma FromLEConcat4(a: seq<byte>, b: seq<byte>)
    requires |a| == 4
    ensures FromLE(a + b) == FromLE(a) + 0x1_0000_0000 * FromLE(b)
  {
    var c := a + b;
    assert c[1..][1..][1..][1..] == b;
    assert a[1..][1..][1..][1..] == [];
    var f3 := FromLE(c[1..][1..][1..]);
    assert f3 == a[3] + 256 * FromLE(b);
    var f2 := FromLE(c[1..][1..]);
    assert f2 == a[2] + 256 * f3;
    var f1 := FromLE(c[1..]);
    assert f1 == a[1] + 256 * f2;
    assert FromLE(c) == a[0] + 256 * f1;
    assert FromLE(a[1..][1..][1..]) == a[3];
    assert FromLE(a[1..][1..]) == a[2] as int + 256 * a[3] as int;
    assert FromLE(a[1..]) == a[1] + 256 * (a[2] as int + 256 * a[3] as int);
  }

  /** Eight bytes hold exactly a 64-bit word. */
  lemma Pow256Eight()
    ensures Pow256(8) == U64 && Pow256(4) == 0x1_0000_0000
  {
  }
}
