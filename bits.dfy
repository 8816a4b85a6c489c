/**
  Bit-level arithmetic on natural numbers, as the layout code uses it on
  `usize`: the power-of-two test `a & (a - 1) == 0`, the mask
  `x & !(a - 1)` that clears the bits below a power-of-two alignment, and
  rounding up and down to such an alignment.
 */
module Bits {

  /** `n` is 2^k for some k >= 0. */
  predicate IsPow2(n: nat)
    decreases n
  {
    if n <= 1 then n == 1
    else n % 2 == 0 && IsPow2(n / 2)
  }

  /** Bitwise AND of two naturals, computed from the least significant bit up. */
  function And(x: nat, y: nat): (r: nat)
    ensures r <= x && r <= y
    decreases x
  {
    if x == 0 || y == 0 then 0
    else 2 * And(x / 2, y / 2) + (if x % 2 == 1 && y % 2 == 1 then 1 else 0)
  }

  /** `x & !(a - 1)`: `x` with every bit below `a` cleared, written as
      `x - (x & (a - 1))`; `ClearLowIsMask` proves the two equal on a
      machine word. */
  function ClearLow(x: nat, a: nat): (r: nat)
    requires a >= 1
    ensures r <= x
  {
    x - And(x, a - 1)
  }

  /** 2^n. */
  function Exp2(n: nat): (r: nat)
    ensures r >= 1
  {
    if n == 0 then 1 else 2 * Exp2(n - 1)
  }

  /** `!y` on an `n`-bit word, for `y < 2^n`. */
  function Not(y: nat, n: nat): (r: nat)
    requires y < Exp2(n)
    ensures r < Exp2(n) && r + y == Exp2(n) - 1
  {
    Exp2(n) - 1 - y
  }

  // ---------------------------------------------------------------------------
  // Arithmetic helpers

  lemma ModOfMultiple(a: nat, k: nat)
    requires a > 0
    ensures (a * k) % a == 0
  {
    assert a * k == a * k + 0;
    ModUnique(a * k, a, k, 0);
  }

  lemma ModUnique(x: nat, a: nat, q: nat, r: nat)
    requires a > 0 && x == a * q + r && r < a
    ensures x % a == r && x / a == q
  {
    var q', r' := x / a, x % a;
    assert x == a * q' + r';
    if q' < q {
      assert a * q >= a * (q' + 1) by { MulMono(a, q' + 1, q); }
    } else if q' > q {
      assert a * q' >= a * (q + 1) by { MulMono(a, q + 1, q'); }
    }
  }

  lemma MulMono(a: nat, m: nat, n: nat)
    requires m <= n
    ensures a * m <= a * n
  {
  }

  lemma DividesTransitive(a: nat, b: nat, c: nat)
    requires a > 0 && b > 0
    requires b % a == 0 && c % b == 0
    ensures c % a == 0
  {
    var k1, k2 := c / b, b / a;
    assert c == b * k1;
    assert b == a * k2;
    assert c == a * (k2 * k1);
    ModOfMultiple(a, k2 * k1);
  }

  lemma DividesSum(d: nat, x: nat, y: nat)
    requires d > 0 && x % d == 0 && y % d == 0
    ensures (x + y) % d == 0
  {
    var p, q := x / d, y / d;
    assert x + y == d * (p + q);
    ModOfMultiple(d, p + q);
  }

  lemma DividesProduct(d: nat, x: nat, k: nat)
    requires d > 0 && x % d == 0
    ensures (x * k) % d == 0
  {
    var p := x / d;
    assert x * k == d * (p * k);
    ModOfMultiple(d, p * k);
  }

  // ---------------------------------------------------------------------------
  // Powers of two

  /** A smaller power of two divides a larger one: the fact the packing
      order relies on. */
  lemma {:induction false} Pow2Divides(a: nat, b: nat)
    requires IsPow2(a) && IsPow2(b) && a <= b
    ensures b % a == 0
  {
    if a > 1 {
      assert a % 2 == 0 && IsPow2(a / 2);
      assert b > 1 && b % 2 == 0 && IsPow2(b / 2);
      Pow2Divides(a / 2, b / 2);
      var k := (b / 2) / (a / 2);
      assert b / 2 == (a / 2) * k;
      assert b == a * k;
      ModOfMultiple(a, k);
    }
  }

  lemma {:induction false} AndSelf(m: nat)
    ensures And(m, m) == m
  {
    if m > 0 {
      AndSelf(m / 2);
    }
  }

  /** For a power of two `a`, the mask `a - 1` keeps exactly the remainder
      modulo `a`. */
  lemma {:induction false} AndLowMask(x: nat, a: nat)
    requires IsPow2(a)
    ensures And(x, a - 1) == x % a
  {
    if a == 1 {
    } else if x == 0 {
    } else {
      var h := a / 2;
      assert a == 2 * h && IsPow2(h);
      assert (a - 1) / 2 == h - 1 && (a - 1) % 2 == 1;
      var q, b := x / 2, x % 2;
      AndLowMask(q, h);
      assert And(x, a - 1) == 2 * (q % h) + b;
      RemainderDoubling(x, h);
    }
  }

  /** x % (2h) == 2 * ((x / 2) % h) + x % 2 */
  lemma RemainderDoubling(x: nat, h: nat)
    requires h > 0
    ensures x % (2 * h) == 2 * ((x / 2) % h) + x % 2
  {
    var q, b := x / 2, x % 2;
    var t, u := q / h, q % h;
    assert x == 2 * q + b;
    assert q == h * t + u;
    assert 2 * (h * t) == (2 * h) * t;
    assert x == (2 * h) * t + (2 * u + b);
    ModUnique(x, 2 * h, t, 2 * u + b);
  }

  /** The test at the top of `apply`: for `a >= 1`, `a & (a - 1) == 0`
      holds exactly when `a` is a power of two. */
  lemma {:induction false} PowerOfTwoTest(a: nat)
    requires a >= 1
    ensures And(a, a - 1) == 0 <==> IsPow2(a)
  {
    if IsPow2(a) {
      AndLowMask(a, a);
    } else if a % 2 == 1 {
      var m := a / 2;
      assert m >= 1 && (a - 1) / 2 == m && (a - 1) % 2 == 0;
      AndSelf(m);
      assert And(a, a - 1) == 2 * m;
    } else {
      var m := a / 2;
      assert m >= 2 && !IsPow2(m);
      assert (a - 1) / 2 == m - 1 && (a - 1) % 2 == 1 && a % 2 == 0;
      PowerOfTwoTest(m);
      assert And(a, a - 1) == 2 * And(m, m - 1);
    }
  }

  lemma {:induction false} Exp2Add(m: nat, n: nat)
    ensures Exp2(m + n) == Exp2(m) * Exp2(n)
  {
    if n > 0 {
      Exp2Add(m, n - 1);
      assert Exp2(m + n) == 2 * Exp2(m + n - 1);
    }
  }

  lemma {:induction false} Exp2IsPow2(n: nat)
    ensures IsPow2(Exp2(n))
  {
    if n > 0 {
      Exp2IsPow2(n - 1);
      assert Exp2(n) / 2 == Exp2(n - 1);
    }
  }

  /** One step of `And`, also when an operand is 0. */
  lemma AndStep(x: nat, y: nat)
    ensures And(x, y) == 2 * And(x / 2, y / 2) + (if x % 2 == 1 && y % 2 == 1 then 1 else 0)
  {
    if x == 0 || y == 0 {
      assert And(x / 2, y / 2) == 0;
    }
  }

  /** On an `n`-bit word, masking with the complement of `y` removes from
      `x` exactly the bits it shares with `y`. */
  lemma {:induction false} AndComplement(x: nat, y: nat, n: nat)
    requires x < Exp2(n) && y < Exp2(n)
    ensures And(x, Not(y, n)) == x - And(x, y)
  {
    if n > 0 {
      var m := Not(y, n);
      var h := Exp2(n - 1);
      assert x / 2 < h && y / 2 < h;
      assert m / 2 == Not(y / 2, n - 1) && m % 2 == 1 - y % 2;
      AndComplement(x / 2, y / 2, n - 1);
      AndStep(x, m);
      AndStep(x, y);
    }
  }

  /** `ClearLow` is the source's `x & !(a - 1)` on any word wide enough to
      hold `x` and the alignment. */
  lemma ClearLowIsMask(x: nat, a: nat, n: nat)
    requires 1 <= a <= Exp2(n) && x < Exp2(n)
    ensures ClearLow(x, a) == And(x, Not(a - 1, n))
  {
    AndComplement(x, a - 1, n);
  }

  /** `x & !(a - 1)` for a power of two `a` is the greatest multiple of `a`
      not above `x`. */
  lemma ClearLowIsRoundDown(x: nat, a: nat)
    requires IsPow2(a)
    ensures ClearLow(x, a) == x - x % a
    ensures ClearLow(x, a) % a == 0
    ensures x < ClearLow(x, a) + a
  {
    AndLowMask(x, a);
    RoundDownIsMultiple(x, a);
  }

  lemma RoundDownIsMultiple(x: nat, a: nat)
    requires a > 0
    ensures (x - x % a) % a == 0
  {
    var k := x / a;
    assert x - x % a == a * k;
    ModOfMultiple(a, k);
  }

  /** Every multiple of `a` not above `x` is at most `x & !(a - 1)`. */
  lemma ClearLowGreatest(x: nat, a: nat, m: nat)
    requires IsPow2(a) && m % a == 0 && m <= x
    ensures m <= ClearLow(x, a)
  {
    ClearLowIsRoundDown(x, a);
    MultipleBelow(x, a, m);
  }

  lemma MultipleBelow(x: nat, a: nat, m: nat)
    requires a > 0 && m % a == 0 && m <= x
    ensures m <= x - x % a
  {
    var k, q := m / a, x / a;
    assert m == a * k;
    assert x == a * q + x % a;
    if k > q {
      MulMono(a, q + 1, k);
    } else {
      MulMono(a, k, q);
    }
  }

  // ---------------------------------------------------------------------------
  // Rounding to a power-of-two alignment (src/lib.rs:168-169)

  /** `(x + a - 1) & !(a - 1)`: the least multiple of `a` not below `x`. */
  function AlignUp(x: nat, a: nat): (r: nat)
    requires IsPow2(a)
    ensures r % a == 0 && x <= r < x + a
  {
    ClearLowIsRoundDown(x + a - 1, a);
    ClearLow(x + a - 1, a)
  }

  /** `x & !(a - 1)`: the greatest multiple of `a` not above `x`. */
  function AlignDown(x: nat, a: nat): (r: nat)
    requires IsPow2(a)
    ensures r % a == 0 && r <= x < r + a
  {
    ClearLowIsRoundDown(x, a);
    ClearLow(x, a)
  }

  lemma MultiplesGap(m: nat, r: nat, a: nat)
    requires a > 0 && m % a == 0 && r % a == 0 && m < r
    ensures m + a <= r
  {
    var k1, k2 := m / a, r / a;
    assert m == a * k1 && r == a * k2;
    if k2 <= k1 {
      MulMono(a, k2, k1);
    } else {
      MulMono(a, k1 + 1, k2);
    }
  }

  /** The rounded-up start is the LEAST multiple of the alignment at or after
      the base. */
  lemma AlignUpLeast(x: nat, a: nat, m: nat)
    requires IsPow2(a) && m % a == 0 && x <= m
    ensures AlignUp(x, a) <= m
  {
    var r := AlignUp(x, a);
    if m < r {
      MultiplesGap(m, r, a);
    }
  }

  /** The rounded-down end is the GREATEST multiple of the alignment at or
      before the end of the region. */
  lemma AlignDownGreatest(x: nat, a: nat, m: nat)
    requires IsPow2(a) && m % a == 0 && m <= x
    ensures m <= AlignDown(x, a)
  {
    ClearLowGreatest(x, a, m);
  }

  /** The rounded-up start is the one multiple of the alignment in
      `[x, x + a)`. */
  lemma AlignUpUnique(x: nat, a: nat, m: nat)
    requires IsPow2(a) && m % a == 0 && x <= m < x + a
    ensures AlignUp(x, a) == m
  {
    var r := AlignUp(x, a);
    AlignUpLeast(x, a, m);
    if r < m {
      MultiplesGap(r, m, a);
    }
  }

  /** The rounded-down end is the one multiple of the alignment in
      `(x - a, x]`. */
  lemma AlignDownUnique(x: nat, a: nat, m: nat)
    requires IsPow2(a) && m % a == 0 && m <= x < m + a
    ensures AlignDown(x, a) == m
  {
    var r := AlignDown(x, a);
    AlignDownGreatest(x, a, m);
    if m < r {
      MultiplesGap(m, r, a);
    }
  }

  /** A region whose base and byte count are already multiples of the
      alignment is left as it is by the rounding. */
  lemma AlignedRegion(base: nat, size: nat, a: nat)
    requires IsPow2(a) && base % a == 0 && size % a == 0
    ensures AlignUp(base, a) == base && AlignDown(base + size, a) == base + size
  {
    AlignUpUnique(base, a, base);
    DividesSum(a, base, size);
    AlignDownUnique(base + size, a, base + size);
  }
}
