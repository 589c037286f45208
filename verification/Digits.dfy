/** Positional numerals, most significant digit first. */
module Digits {

  function Pow(base: nat, n: nat): nat
  {
    if n == 0 then 1 else Pow(base, n - 1) * base
  }

  /** The number a digit string denotes. */
  function Val(ds: seq<nat>, base: nat): nat
  {
    if ds == [] then 0 else Val(ds[..|ds| - 1], base) * base + ds[|ds| - 1]
  }

  ghost predicate Below(ds: seq<nat>, base: nat)
  {
    forall i :: 0 <= i < |ds| ==> ds[i] < base
  }

  /** The shortest numeral of `n`, as `toString(base)` prints it. */
  function ToDigits(n: nat, base: nat): seq<nat>
    requires base >= 2
  {
    if n < base then [n]
    else
      QuotientShrinks(n, base);
      ToDigits(n / base, base) + [n % base]
  }

  lemma QuotientShrinks(n: nat, d: nat)
    requires d >= 2 && n >= d
    ensures n / d < n
  {
    QuotientBelow(n, d, n) by { TimesMonotone(2, d, n); assert n * d == d * n; }
  }

  function Zeros(n: nat): seq<nat>
  {
    seq(n, _ => 0)
  }

  lemma {:induction false} ToDigitsDenotes(n: nat, base: nat)
    requires base >= 2
    ensures ToDigits(n, base) != [] && Below(ToDigits(n, base), base)
    ensures Val(ToDigits(n, base), base) == n
  {
    var ds := ToDigits(n, base);
    if n < base {
      assert ds[..0] == [];
    } else {
      QuotientShrinks(n, base);
      var q := n / base;
      assert q * base + n % base == n by { assert q * base == base * q; }
      ToDigitsDenotes(q, base);
      assert ds[..|ds| - 1] == ToDigits(q, base);
    }
  }

  lemma {:induction false} ToDigitsLength(n: nat, base: nat, k: nat)
    requires base >= 2 && k > 0 && n < Pow(base, k)
    ensures |ToDigits(n, base)| <= k
  {
    hide Pow;
    FirstPowers(base);
    PowNext(base, k - 1);
    if k > 1 && n >= base {
      QuotientBelow(n, base, Pow(base, k - 1));
      ToDigitsLength(n / base, base, k - 1);
    }
  }

  lemma FirstPowers(base: nat)
    ensures Pow(base, 0) == 1 && Pow(base, 1) == base
  {}

  lemma PowNext(base: nat, n: nat)
    ensures Pow(base, n + 1) == Pow(base, n) * base
  {}

  lemma QuotientBelow(n: nat, d: nat, m: nat)
    requires d > 0 && n < m * d
    ensures n / d < m
  {
    var q := n / d;
    assert n == q * d + n % d;
    if q >= m { TimesMonotone(m, q, d); }
  }

  lemma TimesMonotone(x: int, y: int, d: nat)
    ensures x <= y ==> x * d <= y * d
    ensures (x + 1) * d == x * d + d
  {}

  lemma {:induction false} ValBound(ds: seq<nat>, base: nat)
    requires Below(ds, base)
    ensures Val(ds, base) < Pow(base, |ds|)
  {
    if ds != [] {
      var n := |ds| - 1;
      ValBound(ds[..n], base);
      NextPlace(Val(ds[..n], base), Pow(base, n), ds[n], base);
    }
  }

  lemma NextPlace(x: nat, m: nat, d: nat, base: nat)
    requires x < m && d < base
    ensures x * base + d < m * base
  {
    TimesMonotone(x + 1, m, base);
    assert (x + 1) * base == x * base + base;
  }

  lemma SplitUnique(x: nat, y: nat, a: nat, b: nat, base: nat)
    requires a < base && b < base && x * base + a == y * base + b
    ensures x == y && a == b
  {
    if x < y { TimesMonotone(x + 1, y, base); }
    if y < x { TimesMonotone(y + 1, x, base); }
  }

  /** Numerals of one length are determined by their value. */
  lemma {:induction false} ValInjective(a: seq<nat>, b: seq<nat>, base: nat)
    requires |a| == |b| && Below(a, base) && Below(b, base)
    requires Val(a, base) == Val(b, base)
    ensures a == b
  {
    if a != [] {
      var n := |a| - 1;
      SplitUnique(Val(a[..n], base), Val(b[..n], base), a[n], b[n], base);
      ValInjective(a[..n], b[..n], base);
      assert a == a[..n] + [a[n]] && b == b[..n] + [b[n]];
    }
  }

  lemma {:induction false} LeadingZeros(k: nat, ds: seq<nat>, base: nat)
    ensures Val(Zeros(k) + ds, base) == Val(ds, base)
  {
    var z := Zeros(k) + ds;
    if ds != [] {
      assert z[..|z| - 1] == Zeros(k) + ds[..|ds| - 1];
      LeadingZeros(k, ds[..|ds| - 1], base);
    } else if k > 0 {
      assert z[..k - 1] == Zeros(k - 1) + ds;
      LeadingZeros(k - 1, ds, base);
    }
  }

  /** A digit put in front counts for the power its position has. */
  lemma {:induction false} LeadingDigit(d: nat, ds: seq<nat>, base: nat)
    ensures Val([d] + ds, base) == d * Pow(base, |ds|) + Val(ds, base)
  {
    var z := [d] + ds;
    if ds == [] {
      assert z[..0] == [] && Pow(base, 0) == 1;
    } else {
      var n := |ds| - 1;
      assert z[..|z| - 1] == [d] + ds[..n];
      LeadingDigit(d, ds[..n], base);
      TimesAssociate(d, Pow(base, n), base);
      assert (d * Pow(base, n) + Val(ds[..n], base)) * base == d * Pow(base, n) * base + Val(ds[..n], base) * base;
    }
  }

  lemma {:induction false} PowSum(base: nat, m: nat, n: nat)
    ensures Pow(base, m + n) == Pow(base, m) * Pow(base, n)
  {
    if n > 0 {
      PowSum(base, m, n - 1);
      TimesAssociate(Pow(base, m), Pow(base, n - 1), base);
    }
  }

  lemma TimesAssociate(x: nat, y: nat, z: nat)
    ensures x * y * z == x * (y * z)
  {}
}
