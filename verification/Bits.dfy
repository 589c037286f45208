/** Bitwise operators of the source on non-negative integers, and what they mean arithmetically. */
module Bits {
  import opened Digits

  /** Operands of the source's 32-bit `^`, `&` and `>>` below this bound are not truncated. */
  const INT32_LIMIT := 0x8000_0000

  function Pow2(n: nat): (r: nat)
    ensures r > 0
  {
    if n == 0 then 1 else 2 * Pow2(n - 1)
  }

  function BitXor(a: nat, b: nat): nat
  {
    if a == 0 && b == 0 then 0
    else (if a % 2 != b % 2 then 1 else 0) + 2 * BitXor(a / 2, b / 2)
  }

  function BitAnd(a: nat, b: nat): nat
  {
    if a == 0 || b == 0 then 0
    else (if a % 2 == 1 && b % 2 == 1 then 1 else 0) + 2 * BitAnd(a / 2, b / 2)
  }

  function Shr(a: nat, k: nat): nat
  {
    if k == 0 then a else Shr(a, k - 1) / 2
  }

  /** The source's 32-bit operators, on operands they do not truncate. */
  function Xor32(a: nat, b: nat): nat
    requires a < INT32_LIMIT && b < INT32_LIMIT
  {
    BitXor(a, b)
  }

  function And32(a: nat, b: nat): nat
    requires a < INT32_LIMIT && b < INT32_LIMIT
  {
    BitAnd(a, b)
  }

  function Shr32(a: nat, k: nat): nat
    requires a < INT32_LIMIT && k < 32
  {
    Shr(a, k)
  }

  lemma ShrStep(a: nat, k: nat)
    ensures Shr(a, k + 1) == Shr(Shr(a, k), 1) == Shr(a, k) / 2
  {
    assert Shr(Shr(a, k), 1) == Shr(Shr(a, k), 0) / 2;
  }

  lemma {:induction false} XorZero(a: nat)
    ensures BitXor(a, 0) == a
  {
    if a > 0 { XorZero(a / 2); }
  }

  /** `i ^ 1` is the other child of the same parent. */
  lemma {:induction false} XorOne(i: nat)
    ensures BitXor(i, 1) == if i % 2 == 0 then i + 1 else i - 1
    ensures BitXor(i, 1) / 2 == i / 2
  {
    XorZero(i / 2);
    assert BitXor(i / 2, 1 / 2) == i / 2;
  }

  lemma {:induction false} AndOne(i: nat)
    ensures BitAnd(i, 1) == i % 2
  {
    assert i != 0 ==> BitAnd(i / 2, 1 / 2) == 0;
  }

  /** A mask of `k` ones keeps the remainder modulo `2^k`. */
  lemma {:induction false} AndMask(a: nat, k: nat)
    ensures BitAnd(a, Pow2(k) - 1) == a % Pow2(k)
  {
    if a == 0 {
      ModIs(0, Pow2(k), 0, 0);
    } else if k > 0 {
      var m := Pow2(k - 1);
      AndMask(a / 2, k - 1);
      calc {
        BitAnd(a, Pow2(k) - 1);
        BitAnd(a, 2 * m - 1);
        { AndMaskStep(a, m); }
        a % 2 + 2 * BitAnd(a / 2, m - 1);
        a % 2 + 2 * ((a / 2) % m);
        { HalveModulo(a, m); }
        a % (2 * m);
        a % Pow2(k);
      }
    }
  }

  lemma AndMaskStep(a: nat, m: nat)
    requires a > 0 && m > 0
    ensures BitAnd(a, 2 * m - 1) == a % 2 + 2 * BitAnd(a / 2, m - 1)
  {
    assert (2 * m - 1) / 2 == m - 1 && (2 * m - 1) % 2 == 1;
  }

  lemma HalveModulo(a: nat, m: nat)
    requires m > 0
    ensures a % (2 * m) == a % 2 + 2 * ((a / 2) % m)
  {
    var n, q, r := 2 * m, (a / 2) / m, (a / 2) % m;
    assert n * q == 2 * (m * q);
    ModIs(a, n, q, a % 2 + 2 * r);
  }

  /** The quotient and remainder of a division are unique. */
  lemma ModIs(a: int, d: int, q: int, r: int)
    requires d > 0 && a == d * q + r && 0 <= r < d
    ensures a / d == q && a % d == r
  {
    var q', r' := a / d, a % d;
    TimesMonotone(q' + 1, q, d);
    TimesMonotone(q + 1, q', d);
  }

  lemma {:induction false} ShrIsDivision(a: nat, k: nat)
    ensures Shr(a, k) == a / Pow2(k)
  {
    if k > 0 {
      ShrIsDivision(a, k - 1);
      HalfOfQuotient(a, Pow2(k - 1));
    }
  }

  lemma HalfOfQuotient(a: nat, m: nat)
    requires m > 0
    ensures (a / m) / 2 == a / (2 * m)
  {
    var q, r := a / m, a % m;
    var h := q / 2;
    TwiceOver(m, h);
    if q % 2 == 0 {
      assert q == 2 * h;
      ModIs(a, 2 * m, h, r);
    } else {
      assert q == 2 * h + 1;
      ModIs(a, 2 * m, h, m + r);
    }
  }

  lemma TwiceOver(m: nat, h: nat)
    ensures m * (2 * h) == (2 * m) * h && m * (2 * h + 1) == (2 * m) * h + m
  {}

  /** The top bit of an index below `2^k` is already shifted out. */
  lemma {:induction false} ShrBelow(a: nat, k: nat)
    ensures a < Pow2(k) <==> Shr(a, k) == 0
  {
    ShrIsDivision(a, k);
    ModIs(a, Pow2(k), a / Pow2(k), a % Pow2(k));
  }

  lemma {:induction false} ShrAtMost(a: nat, k: nat)
    ensures Shr(a, k) <= a
  {
    if k > 0 { ShrAtMost(a, k - 1); }
  }

  lemma {:induction false} Pow2Monotone(m: nat, n: nat)
    requires m <= n
    ensures Pow2(m) <= Pow2(n)
  {
    if m < n { Pow2Monotone(m, n - 1); }
  }

  lemma {:induction false} Pow2Sum(m: nat, n: nat)
    ensures Pow2(m + n) == Pow2(m) * Pow2(n)
  {
    if n > 0 { Pow2Sum(m, n - 1); }
  }
}
