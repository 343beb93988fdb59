/** Unsigned 64-bit arithmetic as C performs it on `u64` and `uintptr_t`:
    wrapping addition and subtraction, bitwise AND and complement, and
    powers of two. Values are plain integers; wrap-around is explicit. */
module Words {
  import opened Ocx

  /** `a + b` in u64 arithmetic. */
  function WrapAdd(a: u64, b: u64): (r: u64)
    ensures a + b < U64_LIMIT ==> r == a + b
    ensures a + b >= U64_LIMIT ==> r == a + b - U64_LIMIT
  {
    (a + b) % U64_LIMIT
  }

  /** `a - b` in u64 arithmetic. */
  function WrapSub(a: u64, b: u64): (r: u64)
    ensures b <= a ==> r == a - b
    ensures b > a ==> r == U64_LIMIT + a - b
  {
    (a - b) % U64_LIMIT
  }

  function Pow2(k: nat): (r: nat)
    ensures r >= 1
  {
    if k == 0 then 1 else 2 * Pow2(k - 1)
  }

  /** `a` is one of the 64 single-bit u64 values. */
  ghost predicate IsPowerOfTwo(a: int) {
    exists k: nat :: k < 64 && a == Pow2(k)
  }

  /** Bitwise AND of two non-negative integers, bit by bit from the bottom. */
  function And(x: nat, y: nat): (r: nat)
    ensures r <= x && r <= y
    decreases x
  {
    if x == 0 || y == 0 then 0
    else 2 * And(x / 2, y / 2) + (if x % 2 == 1 && y % 2 == 1 then 1 else 0)
  }

  /** `~m` on a u64. */
  function Not(m: u64): u64 {
    U64_LIMIT - 1 - m
  }

  lemma {:induction false} Pow2Add(a: nat, b: nat)
    ensures Pow2(a + b) == Pow2(a) * Pow2(b)
    decreases a
  {
    if a > 0 {
      Pow2Add(a - 1, b);
    }
  }

  lemma Pow2Double(a: nat, v: nat)
    requires Pow2(a) == v
    ensures Pow2(a + a) == v * v
  {
    Pow2Add(a, a);
  }

  lemma Pow2Of64()
    ensures Pow2(64) == U64_LIMIT
  {
    Pow2Double(1, 2);
    Pow2Double(2, 4);
    Pow2Double(4, 0x10);
    Pow2Double(8, 0x100);
    Pow2Double(16, 0x1_0000);
    Pow2Double(32, 0x1_0000_0000);
  }

  lemma {:induction false} Pow2Monotone(k: nat, n: nat)
    requires k <= n
    ensures Pow2(k) <= Pow2(n)
    decreases n
  {
    if k < n {
      Pow2Monotone(k, n - 1);
    }
  }

  /** Division with remainder has a unique result. */
  lemma DivModUnique(x: nat, d: nat, q: nat, r: nat)
    requires d > 0 && x == d * q + r && r < d
    ensures x / d == q && x % d == r
  {
    var q0, r0 := x / d, x % d;
    assert d * q0 + r0 == d * q + r;
    if q0 < q {
      assert d * (q - q0) == r0 - r;
      MulAtLeast(d, q - q0);
    } else if q < q0 {
      assert d * (q0 - q) == r - r0;
      MulAtLeast(d, q0 - q);
    }
  }

  lemma MulAtLeast(d: nat, m: nat)
    requires m >= 1
    ensures d * m >= d
  {
  }

  /** The low `k` bits of `x` are the low bit of `x` below the low `k - 1`
      bits of `x / 2`. */
  lemma ModHalf(x: nat, k: nat)
    requires k > 0
    ensures x % Pow2(k) == 2 * ((x / 2) % Pow2(k - 1)) + x % 2
  {
    var p := Pow2(k - 1);
    var q := (x / 2) / p;
    var r := (x / 2) % p;
    assert x / 2 == p * q + r;
    assert x == (2 * p) * q + (2 * r + x % 2);
    DivModUnique(x, 2 * p, q, 2 * r + x % 2);
  }

  /** And with an even mask shifts the rest of the mask down one bit. */
  lemma AndEven(x: nat, h: nat)
    ensures And(x, 2 * h) == 2 * And(x / 2, h)
  {
    if x != 0 && h != 0 {
      assert (2 * h) / 2 == h && (2 * h) % 2 == 0;
    }
  }

  /** ANDing with a mask of the low `n` bits keeps every number below `2^n`. */
  lemma {:induction false} AndLowMask(x: nat, n: nat)
    requires x < Pow2(n)
    ensures And(x, Pow2(n) - 1) == x
    decreases n
  {
    if x != 0 {
      assert n > 0;
      var y := Pow2(n) - 1;
      assert y / 2 == Pow2(n - 1) - 1 && y % 2 == 1;
      assert x / 2 < Pow2(n - 1);
      AndLowMask(x / 2, n - 1);
      assert And(x, y) == 2 * (x / 2) + x % 2;
    }
  }

  /** The mask with bits `k` to `n - 1` set. */
  function HighMask(n: nat, k: nat): nat
    requires k <= n
  {
    if k == 0 then Pow2(n) - 1 else 2 * HighMask(n - 1, k - 1)
  }

  /** The low `k` bits of `x`, taken one at a time. */
  function LowBits(x: nat, k: nat): nat {
    if k == 0 then 0 else 2 * LowBits(x / 2, k - 1) + x % 2
  }

  lemma {:induction false} HighMaskValue(n: nat, k: nat)
    requires k <= n
    ensures HighMask(n, k) == Pow2(n) - Pow2(k)
    decreases k
  {
    if k > 0 {
      HighMaskValue(n - 1, k - 1);
    }
  }

  lemma {:induction false} LowBitsValue(x: nat, k: nat)
    ensures LowBits(x, k) == x % Pow2(k)
    decreases k
  {
    if k > 0 {
      LowBitsValue(x / 2, k - 1);
      ModHalf(x, k);
    }
  }

  /** ANDing with a mask whose bits `k` to `n - 1` are set clears the low `k`
      bits of a number below `2^n`. */
  lemma {:induction false} AndHighMask(x: nat, n: nat, k: nat)
    requires k <= n && x < Pow2(n)
    ensures And(x, HighMask(n, k)) == x - LowBits(x, k)
    decreases k
  {
    if k == 0 {
      AndLowMask(x, n);
    } else {
      assert x / 2 < Pow2(n - 1);
      AndHighMask(x / 2, n - 1, k - 1);
      AndEven(x, HighMask(n - 1, k - 1));
    }
  }

  /** For a power of two `a`, `x & ~(a - 1)` on a u64 is `x` rounded down to
      a multiple of `a`. */
  lemma RoundDownByMask(x: u64, a: u64)
    requires IsPowerOfTwo(a)
    ensures And(x, Not(a - 1)) == x - x % a
    ensures (x - x % a) % a == 0
  {
    var k: nat :| k < 64 && a == Pow2(k);
    Pow2Of64();
    Pow2Monotone(k, 64);
    HighMaskValue(64, k);
    assert Not(a - 1) == HighMask(64, k);
    AndHighMask(x, 64, k);
    LowBitsValue(x, k);
    RoundDownIsMultiple(x, a);
  }

  /** `(x + (a - 1)) & ~(a - 1)` on u64, for a power of two `a` and an `x`
      at least `a` below the top, is the first multiple of `a` at or after
      `x`. */
  lemma RoundUpByMask(x: u64, a: u64)
    ensures IsPowerOfTwo(a) && x + a <= U64_LIMIT ==>
      var r := And(WrapAdd(x, WrapSub(a, 1)), Not(WrapSub(a, 1)));
      r % a == 0 && x <= r < x + a
  {
    if IsPowerOfTwo(a) && x + a <= U64_LIMIT {
      var y := x + (a - 1);
      assert WrapAdd(x, WrapSub(a, 1)) == y;
      RoundDownByMask(y, a);
    }
  }

  lemma RoundDownIsMultiple(x: nat, a: nat)
    requires a > 0
    ensures (x - x % a) % a == 0
  {
    var q, r := x / a, x % a;
    assert x == a * q + r;
    DivModUnique(x - r, a, q, 0);
  }
}
