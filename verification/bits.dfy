/** Unsigned-integer helpers shared by the two ring buffers: powers of two,
    the bitwise AND used for index masking, and 32-bit wrap-around. */
module Bits {

  /** 2^32: the modulus of `uint32_t` arithmetic. */
  const U32_MOD: nat := 0x1_0000_0000

  /** The value of an unsigned 32-bit computation whose exact result is `x`. */
  function Wrap32(x: int): nat
  {
    x % U32_MOD
  }

  /** n is 1, 2, 4, 8, ... */
  predicate IsPowerOfTwo(n: nat)
    decreases n
  {
    n == 1 || (n >= 2 && n % 2 == 0 && IsPowerOfTwo(n / 2))
  }

  function Pow2(k: nat): (r: nat)
    ensures r >= 1
  {
    if k == 0 then 1 else 2 * Pow2(k - 1)
  }

  /** Bitwise AND of two naturals, bit by bit from the least significant end. */
  function BitAnd(a: nat, b: nat): (r: nat)
    ensures r <= a && r <= b
    decreases a
  {
    if a == 0 || b == 0 then 0
    else 2 * BitAnd(a / 2, b / 2) + (if a % 2 == 1 && b % 2 == 1 then 1 else 0)
  }

  lemma {:induction false} Pow2IsPowerOfTwo(k: nat)
    ensures IsPowerOfTwo(Pow2(k))
  {
    if k > 0 {
      Pow2IsPowerOfTwo(k - 1);
      assert Pow2(k) / 2 == Pow2(k - 1);
    }
  }

  lemma {:induction false} Pow2Add(a: nat, b: nat)
    ensures Pow2(a + b) == Pow2(a) * Pow2(b)
    decreases a
  {
    if a > 0 {
      Pow2Add(a - 1, b);
      assert Pow2(a + b) == 2 * Pow2(a - 1 + b);
    }
  }

  lemma U32ModIsPow2()
    ensures Pow2(32) == U32_MOD
  {
    assert Pow2(1) == 2;
    Pow2Add(1, 1);
    Pow2Add(2, 2);
    Pow2Add(4, 4);
    Pow2Add(8, 8);
    Pow2Add(16, 16);
  }

  lemma U32ModIsPowerOfTwo()
    ensures IsPowerOfTwo(U32_MOD)
  {
    U32ModIsPow2();
    Pow2IsPowerOfTwo(32);
  }

  /** A smaller power of two divides a larger one. */
  lemma {:induction false} PowerOfTwoDivides(a: nat, b: nat)
    requires IsPowerOfTwo(a) && IsPowerOfTwo(b) && a <= b
    ensures b % a == 0
    decreases a
  {
    if a != 1 {
      var a2, b2 := a / 2, b / 2;
      assert a == 2 * a2 && b == 2 * b2;
      PowerOfTwoDivides(a2, b2);
      var k := b2 / a2;
      assert b2 == k * a2 + b2 % a2;
      assert b == k * a;
      DivModUnique(b, k, 0, a);
    }
  }

  /** Every power-of-two capacity up to 2^32 divides 2^32, which is what makes
      masked 32-bit tickets land on consistent slots across wrap-around. */
  lemma CapacityDividesU32(c: nat)
    requires IsPowerOfTwo(c) && c <= U32_MOD
    ensures U32_MOD % c == 0
  {
    U32ModIsPowerOfTwo();
    PowerOfTwoDivides(c, U32_MOD);
  }

  lemma MulMonotone(d: int, c: nat)
    requires d >= 1
    ensures d * c >= c
  {
    assert d * c == c + (d - 1) * c;
  }

  /** Euclidean division is unique: a quotient and a remainder in [0, c)
      are THE quotient and remainder. */
  lemma DivModUnique(a: int, q: int, r: int, c: nat)
    requires c > 0 && 0 <= r < c && a == q * c + r
    ensures a / c == q && a % c == r
  {
    var q', r' := a / c, a % c;
    assert a == q' * c + r';
    assert (q - q') * c == r' - r;
    if q > q' {
      MulMonotone(q - q', c);
    } else if q < q' {
      assert (q' - q) * c == r - r';
      MulMonotone(q' - q, c);
    }
  }

  lemma ModOfMultipleShift(x: int, k: int, c: nat)
    requires c > 0
    ensures (x + k * c) % c == x % c
  {
    var q, r := x / c, x % c;
    assert x + k * c == (q + k) * c + r;
    DivModUnique(x + k * c, q + k, r, c);
  }

  /** Reducing modulo 2^32 first does not change the residue modulo a
      power-of-two capacity. */
  lemma WrapThenMod(x: int, c: nat)
    requires IsPowerOfTwo(c) && c <= U32_MOD
    ensures Wrap32(x) % c == x % c
  {
    CapacityDividesU32(c);
    var m := U32_MOD / c;
    assert U32_MOD == m * c;
    var q := x / U32_MOD;
    assert x == Wrap32(x) + q * U32_MOD;
    assert q * U32_MOD == (q * m) * c;
    ModOfMultipleShift(Wrap32(x), q * m, c);
  }

  /** A value already in [0, 2^32) is its own 32-bit value. */
  lemma WrapSmall(x: int)
    requires 0 <= x < U32_MOD
    ensures Wrap32(x) == x
  {
    DivModUnique(x, 0, x, U32_MOD);
  }

  /** `a + d` in 32-bit arithmetic, for a 32-bit `a` and a step `d` below
      2^32: at most one wrap-around. */
  function Add32(a: nat, d: nat): (r: nat)
    requires a < U32_MOD && d < U32_MOD
    ensures r < U32_MOD
  {
    if a + d < U32_MOD then a + d else a + d - U32_MOD
  }

  lemma Add32IsWrap(a: nat, d: nat)
    requires a < U32_MOD && d < U32_MOD
    ensures Wrap32(a + d) == Add32(a, d)
  {
    if a + d < U32_MOD {
      WrapSmall(a + d);
    } else {
      DivModUnique(a + d, 1, a + d - U32_MOD, U32_MOD);
    }
  }

  /** Reduction modulo c of `a + d`, expressed through the residue of `a`. */
  lemma ModStep(a: nat, d: nat, c: nat)
    requires c > 0 && d < c
    ensures (a + d) % c == if a % c + d < c then a % c + d else a % c + d - c
  {
    var k, r := a / c, a % c;
    assert a == k * c + r;
    if r + d < c {
      DivModUnique(a + d, k, r + d, c);
    } else {
      assert a + d == (k + 1) * c + (r + d - c);
      DivModUnique(a + d, k + 1, r + d - c, c);
    }
  }

  lemma DoubleQuotient(x: int, k: int, h: int, r: int)
    requires x == k * h + r
    ensures 2 * x == k * (2 * h) + 2 * r
  {
  }

  /** Masking with c - 1 is reduction modulo c when c is a power of two:
      `x & (Capacity - 1) == x % Capacity`. */
  lemma {:induction false} MaskIsMod(x: nat, c: nat)
    requires IsPowerOfTwo(c)
    ensures BitAnd(x, c - 1) == x % c
    decreases c
  {
    if c != 1 && x != 0 {
      var h := c / 2;
      assert (c - 1) / 2 == h - 1 && (c - 1) % 2 == 1;
      MaskIsMod(x / 2, h);
      var x2, b := x / 2, x % 2;
      var r, k := x2 % h, x2 / h;
      assert BitAnd(x, c - 1) == 2 * BitAnd(x2, h - 1) + b;
      assert BitAnd(x, c - 1) == 2 * r + b;
      assert x2 == k * h + r;
      assert x == 2 * x2 + b;
      DoubleQuotient(x2, k, h, r);
      assert x == k * c + (2 * r + b);
      DivModUnique(x, k, 2 * r + b, c);
    }
  }

  lemma {:induction false} BitAndSelf(a: nat)
    ensures BitAnd(a, a) == a
    decreases a
  {
    if a != 0 {
      BitAndSelf(a / 2);
    }
  }

  /** The compile-time test `N > 0 && (N & (N - 1)) == 0` accepts exactly the
      powers of two. */
  lemma {:induction false} PowerOfTwoTest(n: nat)
    requires n > 0
    ensures BitAnd(n, n - 1) == 0 <==> IsPowerOfTwo(n)
    decreases n
  {
    if n == 1 {
    } else if n % 2 == 1 {
      assert (n - 1) / 2 == n / 2;
      BitAndSelf(n / 2);
      assert BitAnd(n, n - 1) == 2 * (n / 2);
    } else {
      assert (n - 1) / 2 == n / 2 - 1;
      assert BitAnd(n, n - 1) == 2 * BitAnd(n / 2, n / 2 - 1);
      PowerOfTwoTest(n / 2);
    }
  }
}
