/** Fee quotes (sdk/fees/index.ts): a flat part and a percentage rounded down. */
module Fees {
  import opened Bits
  import opened Digits
  import opened Results

  const BPS_DENOMINATOR: nat := 10_000

  datatype FeeConfig = FeeConfig(bps: nat, flat: nat, enabled: bool)

  datatype FeeError = FeeExceedsAmount

  function EffectiveBps(config: FeeConfig, maxFeeBps: nat): nat
  {
    if config.bps > maxFeeBps then maxFeeBps else config.bps
  }

  /** `(amount * bps) / BPS_DENOMINATOR`, truncating toward zero. */
  function PercentFee(amount: int, bps: nat): int
  {
    if amount >= 0 then (amount * bps) / BPS_DENOMINATOR else -((-amount * bps) / BPS_DENOMINATOR)
  }

  function CalculateFee(config: FeeConfig, amount: int, maxFeeBps: nat): int
  {
    if !config.enabled then 0 else config.flat + PercentFee(amount, EffectiveBps(config, maxFeeBps))
  }

  function WithdrawalNet(amount: int, config: FeeConfig, maxFeeBps: nat): (r: Result<int, FeeError>)
    ensures var fee := CalculateFee(config, amount, maxFeeBps);
            if fee < amount then r.Ok? && r.value > 0 && r.value + fee == amount else r == Err(FeeExceedsAmount)
  {
    var fee := CalculateFee(config, amount, maxFeeBps);
    if fee >= amount then Err(FeeExceedsAmount) else Ok(amount - fee)
  }

  /** The percentage is the largest whole number of units that does not exceed its share, at the rate asked for or the
      ceiling, whichever is lower. A disabled fee is nothing at all. */
  lemma FeeIsFlooredShare(config: FeeConfig, amount: nat, maxFeeBps: nat)
    ensures !config.enabled ==> CalculateFee(config, amount, maxFeeBps) == 0
    ensures config.enabled ==>
              exists bps: nat, share: nat ::
                && bps <= config.bps && bps <= maxFeeBps && (bps == config.bps || bps == maxFeeBps)
                && share * 10_000 <= amount * bps < (share + 1) * 10_000
                && CalculateFee(config, amount, maxFeeBps) == config.flat + share
  {
    if config.enabled {
      var bps := EffectiveBps(config, maxFeeBps);
      var x := amount * bps;
      var share := x / 10_000;
      assert x == 10_000 * share + x % 10_000;
      assert share * 10_000 <= amount * bps < (share + 1) * 10_000;
      assert CalculateFee(config, amount, maxFeeBps) == config.flat + share;
    }
  }

  /** A negative amount has the fee of its opposite, negated: the division truncates toward zero. */
  lemma NegativeShare(amount: int, bps: nat)
    ensures PercentFee(-amount, bps) == -PercentFee(amount, bps)
  {
    if amount == 0 { assert amount * bps == 0; }
  }

  function Sum(parts: seq<nat>): nat
  {
    if parts == [] then 0 else Sum(parts[..|parts| - 1]) + parts[|parts| - 1]
  }

  function PercentFees(parts: seq<nat>, bps: nat): int
  {
    if parts == [] then 0 else PercentFees(parts[..|parts| - 1], bps) + PercentFee(parts[|parts| - 1], bps)
  }

  function TotalFees(config: FeeConfig, parts: seq<nat>, maxFeeBps: nat): int
  {
    if parts == [] then 0 else TotalFees(config, parts[..|parts| - 1], maxFeeBps) + CalculateFee(config,
        parts[|parts| - 1], maxFeeBps)
  }

  /** Rounding two fees down separately loses at most one unit against rounding once. */
  lemma RoundTwice(a: nat, b: nat, bps: nat)
    ensures PercentFee(a, bps) + PercentFee(b, bps) <= PercentFee(a + b, bps) <= PercentFee(a, bps) + PercentFee(b,
            bps) + 1
  {
    var x, y, d := a * bps, b * bps, BPS_DENOMINATOR;
    assert (a + b) * bps == x + y;
    var q, r := x / d + y / d, x % d + y % d;
    assert x + y == d * q + r;
    if r < d { ModIs(x + y, d, q, r); } else { ModIs(x + y, d, q + 1, r - d); }
  }

  /** Cutting an amount into k >= 1 parts never raises the percentage fee, and lowers it by at most k - 1. */
  lemma {:induction false} CuttingPercentFee(parts: seq<nat>, bps: nat)
    requires parts != []
    ensures PercentFees(parts, bps) <= PercentFee(Sum(parts), bps) <= PercentFees(parts, bps) + |parts| - 1
  {
    var n := |parts| - 1;
    if n == 0 {
      assert parts[..0] == [];
    } else {
      CuttingPercentFee(parts[..n], bps);
      RoundTwice(Sum(parts[..n]), parts[n], bps);
    }
  }

  lemma {:induction false} FeesAddUp(config: FeeConfig, parts: seq<nat>, maxFeeBps: nat)
    ensures TotalFees(config, parts, maxFeeBps) ==
            if config.enabled then |parts| * config.flat + PercentFees(parts, EffectiveBps(config, maxFeeBps)) else 0
  {
    if parts != [] {
      var n := |parts| - 1;
      FeesAddUp(config, parts[..n], maxFeeBps);
      assert (n + 1) * config.flat == n * config.flat + config.flat;
    }
  }

  /** The whole fee of k parts against the fee of the sum: the flat part is paid k times, and
      rounding gives back at most k - 1 units. */
  lemma CuttingFee(config: FeeConfig, parts: seq<nat>, maxFeeBps: nat)
    requires parts != [] && config.enabled
    ensures var k, whole, cut := |parts|, CalculateFee(config, Sum(parts), maxFeeBps),
            TotalFees(config, parts, maxFeeBps);
            whole + (k - 1) * config.flat - (k - 1) <= cut <= whole + (k - 1) * config.flat
  {
    FeesAddUp(config, parts, maxFeeBps);
    CuttingPercentFee(parts, EffectiveBps(config, maxFeeBps));
    var k := |parts|;
    assert k * config.flat == (k - 1) * config.flat + config.flat;
  }

  /** No cut saves anything when the flat fee is at least one unit. */
  lemma CuttingNeverPays(config: FeeConfig, parts: seq<nat>, maxFeeBps: nat)
    requires parts != [] && config.enabled && config.flat >= 1
    ensures TotalFees(config, parts, maxFeeBps) >= CalculateFee(config, Sum(parts), maxFeeBps)
  {
    CuttingFee(config, parts, maxFeeBps);
    TimesMonotone(1, config.flat, |parts| - 1);
    assert config.flat * (|parts| - 1) == (|parts| - 1) * config.flat;
  }

  /** A percentage of at most 100% leaves something of every amount it is taken from, to the last unit. */
  lemma PercentWithinAmount(amount: int, bps: nat)
    requires bps <= BPS_DENOMINATOR
    ensures amount >= 0 ==> 0 <= PercentFee(amount, bps) <= amount
    ensures bps == 0 ==> PercentFee(amount, bps) == 0
  {
    if amount >= 0 {
      TimesMonotone(bps, BPS_DENOMINATOR, amount);
      assert bps * amount == amount * bps;
      var x := amount * bps;
      assert x == BPS_DENOMINATOR * (x / BPS_DENOMINATOR) + x % BPS_DENOMINATOR;
    } else if bps == 0 {
      assert -amount * bps == 0;
    }
  }
}
