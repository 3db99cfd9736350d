/**
 * Unbounded-integer arithmetic behind the prefix masks of the IPv4 and IPv6
 * code: `(1n << k) - 1n` is the host mask of the `k` low bits, `x & ~mask`
 * clears them, and `x >> k` is what is left above them. Defined bit by bit so
 * that every proof stays in linear arithmetic.
 */
module Bits {

  function Pow2(n: nat): (r: nat)
    ensures r >= 1
  {
    if n == 0 then 1 else 2 * Pow2(n - 1)
  }

  lemma {:induction false} Pow2Add(a: nat, b: nat)
    ensures Pow2(a + b) == Pow2(a) * Pow2(b)
  {
    if a > 0 {
      Pow2Add(a - 1, b);
    }
  }

  lemma Pow2Of16()
    ensures Pow2(16) == 0x1_0000
  {
    Pow2Add(8, 8);
  }

  lemma Pow2Of32()
    ensures Pow2(32) == 0x1_0000_0000
  {
    Pow2Of16();
    Pow2Add(16, 16);
  }

  lemma Pow2Of64()
    ensures Pow2(64) == 0x1_0000_0000_0000_0000
  {
    Pow2Of32();
    Pow2Add(32, 32);
  }

  lemma Pow2Of128()
    ensures Pow2(128) == 0x1_0000_0000_0000_0000_0000_0000_0000_0000
  {
    Pow2Of64();
    Pow2Add(64, 64);
  }

  /** The powers above 2^16, for the block sizes of prefixes longer than /16. */
  lemma Pow2Of16Plus(j: nat)
    ensures Pow2(16 + j) == 0x1_0000 * Pow2(j)
  {
    Pow2Of16();
    Pow2Add(16, j);
  }

  /** `x >> k`: the bits of `x` above its `k` low bits. */
  function Shr(x: nat, k: nat): nat
  {
    if k == 0 then x else Shr(x / 2, k - 1)
  }

  /** `x & ~((1n << k) - 1n)` for a natural `x`: `x` with its `k` low bits cleared. */
  function ClearLow(x: nat, k: nat): nat
  {
    if k == 0 then x else 2 * ClearLow(x / 2, k - 1)
  }

  /** The cleared value lies at most `2^k - 1` below `x`. */
  lemma {:induction false} ClearLowBounds(x: nat, k: nat)
    ensures ClearLow(x, k) <= x < ClearLow(x, k) + Pow2(k)
  {
    if k > 0 {
      ClearLowBounds(x / 2, k - 1);
    }
  }

  /** Two values agree after clearing `k` low bits exactly when their bits above `k` agree. */
  lemma {:induction false} ClearLowAgree(x: nat, y: nat, k: nat)
    ensures ClearLow(x, k) == ClearLow(y, k) <==> Shr(x, k) == Shr(y, k)
  {
    if k > 0 {
      ClearLowAgree(x / 2, y / 2, k - 1);
    }
  }

  /** Clearing low bits twice is clearing them once. */
  lemma {:induction false} ClearLowIdempotent(x: nat, k: nat)
    ensures ClearLow(ClearLow(x, k), k) == ClearLow(x, k)
  {
    if k > 0 {
      var c := ClearLow(x / 2, k - 1);
      assert (2 * c) / 2 == c;
      ClearLowIdempotent(x / 2, k - 1);
    }
  }

  /** Clearing keeps the bits above `k`. */
  lemma {:induction false} ClearLowShr(x: nat, k: nat)
    ensures Shr(ClearLow(x, k), k) == Shr(x, k)
  {
    ClearLowIdempotent(x, k);
    ClearLowAgree(ClearLow(x, k), x, k);
  }

  /** What clearing does: the result has its low bits clear, lies at most `2^k - 1` below `x`, and keeps the bits above `k`. */
  lemma ClearLowFacts(x: nat, k: nat)
    ensures ClearLow(ClearLow(x, k), k) == ClearLow(x, k)
    ensures ClearLow(x, k) <= x < ClearLow(x, k) + Pow2(k)
    ensures Shr(ClearLow(x, k), k) == Shr(x, k)
  {
    ClearLowIdempotent(x, k);
    ClearLowBounds(x, k);
    ClearLowShr(x, k);
  }

  /** A multiple of `2^k` has no low bit to clear. */
  lemma {:induction false} ClearLowMultiple(q: nat, k: nat)
    ensures ClearLow(q * Pow2(k), k) == q * Pow2(k)
  {
    if k > 0 {
      var p := Pow2(k - 1);
      assert q * Pow2(k) == 2 * (q * p);
      assert (q * Pow2(k)) / 2 == q * p;
      ClearLowMultiple(q, k - 1);
    }
  }

  lemma ClearLowAligned(q: nat, k: nat, a: nat)
    requires q * Pow2(k) == a
    ensures ClearLow(a, k) == a
  {
    ClearLowMultiple(q, k);
  }

  /**
   * For a network `a` with its `k` low bits clear, `x` clears to `a` exactly
   * when it lies in the block `a .. a + 2^k - 1`.
   */
  lemma {:induction false} ClearLowRange(x: nat, a: nat, k: nat)
    requires ClearLow(a, k) == a
    ensures ClearLow(x, k) == a <==> a <= x < a + Pow2(k)
  {
    if k > 0 {
      assert a == 2 * ClearLow(a / 2, k - 1);
      ClearLowIdempotent(a / 2, k - 1);
      assert ClearLow(a / 2, k - 1) == a / 2;
      ClearLowRange(x / 2, a / 2, k - 1);
    }
  }

  /** `x` below `2^w` has nothing left above bit `w`. */
  lemma {:induction false} ShrBelow(x: nat, w: nat)
    requires x < Pow2(w)
    ensures Shr(x, w) == 0
  {
    if w > 0 {
      ShrBelow(x / 2, w - 1);
    }
  }

  /** The number whose digits in `base` are `ds`, most significant first. */
  function FromDigits(ds: seq<nat>, base: nat): nat
  {
    if ds == [] then 0 else FromDigits(ds[..|ds| - 1], base) * base + ds[|ds| - 1]
  }

  lemma FromDigitsSnoc(ds: seq<nat>, d: nat, base: nat)
    ensures FromDigits(ds + [d], base) == FromDigits(ds, base) * base + d
  {
    assert (ds + [d])[..|ds|] == ds;
  }

  lemma FromDigits4(w: nat, x: nat, y: nat, z: nat, base: nat)
    ensures FromDigits([w, x, y, z], base) == ((w * base + x) * base + y) * base + z
  {
    FromDigitsSnoc([w, x, y], z, base);
    FromDigitsSnoc([w, x], y, base);
    FromDigitsSnoc([w], x, base);
    FromDigitsSnoc([], w, base);
    assert [w, x, y, z] == [w, x, y] + [z];
    assert [w, x, y] == [w, x] + [y];
    assert [w, x] == [w] + [x];
    assert [w] == [] + [w];
  }

  lemma FromDigits8(ds: seq<nat>, base: nat)
    requires |ds| == 8
    ensures FromDigits(ds, base)
      == ((((((ds[0] * base + ds[1]) * base + ds[2]) * base + ds[3]) * base + ds[4]) * base + ds[5]) * base + ds[6]) * base + ds[7]
  {
    assert ds[..8] == ds;
    FromDigitsTake(ds, 7, base);
    FromDigitsTake(ds, 6, base);
    FromDigitsTake(ds, 5, base);
    FromDigitsTake(ds, 4, base);
    FromDigitsTake(ds, 3, base);
    FromDigitsTake(ds, 2, base);
    FromDigitsTake(ds, 1, base);
    FromDigitsTake(ds, 0, base);
  }

  lemma FromDigitsTake(ds: seq<nat>, n: nat, base: nat)
    requires n < |ds|
    ensures FromDigits(ds[..n + 1], base) == FromDigits(ds[..n], base) * base + ds[n]
  {
    assert ds[..n + 1][..n] == ds[..n];
  }

  /** A number of `n` digits, each below `2^w`, is below `2^(w * n)`. */
  lemma {:induction false} FromDigitsBelow(ds: seq<nat>, w: nat)
    requires forall i :: 0 <= i < |ds| ==> ds[i] < Pow2(w)
    ensures FromDigits(ds, Pow2(w)) < Pow2(w * |ds|)
  {
    if ds != [] {
      var n := |ds| - 1;
      var b := Pow2(w);
      assert ds[..n][..] == ds[..n];
      FromDigitsBelow(ds[..n], w);
      DigitStep(FromDigits(ds[..n], b), Pow2(w * n), b, ds[n]);
      Pow2Add(w * n, w);
      MulSucc(w, n);
    }
  }

  /** Appending a digit below `b` to a number below `p` stays below `p * b`. */
  lemma DigitStep(x: nat, p: nat, b: nat, d: nat)
    requires x < p && d < b
    ensures x * b + d < p * b
  {
    MulAtMost(x, p - 1, b);
    assert (p - 1) * b == p * b - b;
  }

  lemma MulSucc(w: nat, n: nat)
    ensures w * (n + 1) == w * n + w
  {
  }

  lemma MulAtMost(x: nat, y: nat, b: nat)
    requires x <= y
    ensures x * b <= y * b
  {
  }
}
