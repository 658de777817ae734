/** The relayer's self-calibrating fee: the quote, the cost estimate it learns, and the two gates a
    submission passes. Amounts are 64-bit and wrap, except the fee, which has no bound. */
module Relayer {
  import opened Basics
  import VaultSpec

  type Address = VaultSpec.Address

  const I64_MAX: int := 9223372036854775807
  const I64_SPAN: int := 18446744073709551616

  function Wrap(x: int): int {
    (x + I64_MAX + 1) % I64_SPAN - I64_MAX - 1
  }

  /** Division truncates toward zero. */
  function Quo(x: int, d: int): int
    requires d > 0
  {
    if x >= 0 then x / d else -(-x / d)
  }

  datatype Config = Config(netCost: int, marginBps: int, minMarginBps: int, quoteBufferBps: int, ratePpm: int)

  datatype Quote = Quote(fee: int, basis: int, margin: int)

  function ToAsset(cfg: Config, xlm: int): int {
    Quo(Wrap(xlm * cfg.ratePpm), 1_000_000)
  }

  /** The cost estimate with headroom for gas drift. */
  function Buffered(cfg: Config, observed: int): int {
    Wrap(observed + Quo(Wrap(observed * cfg.quoteBufferBps), 10_000))
  }

  function WithMargin(basis: int, bps: int): int {
    Wrap(basis + Quo(Wrap(basis * bps), 10_000))
  }

  function QuoteFor(cfg: Config, observed: int): Quote {
    var basis := ToAsset(cfg, Buffered(cfg, observed));
    Quote(WithMargin(basis, cfg.marginBps), basis, Quo(Wrap(basis * cfg.marginBps), 10_000))
  }

  function Learn(observed: int, cost: int): int {
    if cost > observed then cost else Wrap(observed - Quo(Wrap(observed - cost), 8))
  }

  function LearnAll(observed: int, costs: seq<int>): int {
    if costs == [] then observed else Learn(LearnAll(observed, costs[..|costs| - 1]), costs[|costs| - 1])
  }

  /** The gate before simulation. */
  predicate PreCheck(cfg: Config, observed: int, fee: int) {
    fee >= ToAsset(cfg, observed)
  }

  function Required(cfg: Config, cost: int): int {
    WithMargin(ToAsset(cfg, cost), cfg.minMarginBps)
  }

  /** The gate on the simulated cost. */
  predicate FinalCheck(cfg: Config, cost: int, fee: int) {
    fee >= Required(cfg, cost)
  }

  datatype Outcome =
    | BadFee | DepositRefused | ForeignRelayer  // the request itself
    | BelowEstimate | PrepareFailed | BelowRequired(required: int) | SendFailed | Sent(profit: int)

  /** A parsed request: amount, fee, and the account the fee is to be paid to. */
  datatype Request = Request(extAmount: int, fee: int, relayer: Address)

  class Service {
    const cfg: Config
    const address: Address
    var observedCost: int

    constructor (cfg: Config, address: Address)
      ensures this.cfg == cfg && this.address == address && observedCost == cfg.netCost
    {
      this.cfg, this.address, observedCost := cfg, address, cfg.netCost;
    }

    method GetQuote() returns (q: Quote)
      ensures q == QuoteFor(cfg, observedCost)
    {
      var observed := observedCost;
      var basis := ToAsset(cfg, Wrap(observed + Quo(Wrap(observed * cfg.quoteBufferBps), 10_000)));
      var margin := Quo(Wrap(basis * cfg.marginBps), 10_000);
      q := Quote(Wrap(basis + margin), basis, margin);
    }

    method LearnCost(cost: int)
      modifies this
      ensures observedCost == Learn(old(observedCost), cost)
    {
      if cost > observedCost {
        observedCost := cost;
      } else {
        observedCost := Wrap(observedCost - Quo(Wrap(observedCost - cost), 8));
      }
    }

    /** One submission. `cost` is what the simulation found, if it succeeded, and `delivered` whether
        sending did. Every outcome names the first condition that fails. The estimate learns the simulated
        cost even when the fee is then refused, and nothing when the request does not get as far as a
        simulation. */
    method Submit(r: Request, cost: Option<int>, delivered: bool) returns (o: Outcome)
      modifies this
      ensures o == BadFee <==> r.fee < 0
      ensures o == DepositRefused <==> 0 <= r.fee && 0 < r.extAmount
      ensures o == ForeignRelayer <==> 0 <= r.fee && r.extAmount <= 0 && r.relayer != address
      ensures 0 <= r.fee && r.extAmount <= 0 && r.relayer == address ==>
                var estimate := ToAsset(cfg, old(observedCost));
                && (o == BelowEstimate <==> r.fee < estimate)
                && (o == PrepareFailed <==> estimate <= r.fee && cost.None?)
                && (estimate <= r.fee && cost.Some? ==>
                      var required := Required(cfg, cost.value);
                      && (o == BelowRequired(required) <==> r.fee < required)
                      && (o == SendFailed <==> required <= r.fee && !delivered)
                      && (o == Sent(r.fee - ToAsset(cfg, cost.value)) <==> required <= r.fee && delivered))
      ensures observedCost == if o.BelowRequired? || o.SendFailed? || o.Sent? then Learn(old(observedCost), cost.value)
                              else old(observedCost)
    {
      if r.fee < 0 {
        return BadFee;
      }
      if r.extAmount > 0 {
        return DepositRefused;
      }
      if r.relayer != address {
        return ForeignRelayer;
      }
      if r.fee < ToAsset(cfg, observedCost) {
        return BelowEstimate;
      }
      if cost.None? {
        return PrepareFailed;
      }
      LearnCost(cost.value);
      var costAsset := ToAsset(cfg, cost.value);
      var required := Wrap(costAsset + Quo(Wrap(costAsset * cfg.minMarginBps), 10_000));
      if r.fee < required {
        return BelowRequired(required);
      }
      if !delivered {
        return SendFailed;
      }
      return Sent(r.fee - costAsset);
    }
  }

  // ----- 64-bit arithmetic

  /** The wrapped value is the only one within 64 bits that differs by whole spans. */
  lemma WrapIs(x: int, y: int)
    ensures y == Wrap(x) <==> -I64_MAX - 1 <= y <= I64_MAX && (x - y) % I64_SPAN == 0
  {
    var n := (x + I64_MAX + 1) / I64_SPAN;
    assert x - Wrap(x) == n * I64_SPAN;
    if -I64_MAX - 1 <= y <= I64_MAX && (x - y) % I64_SPAN == 0 {
      var m := (x - y) / I64_SPAN;
      DivUnique(x + I64_MAX + 1, I64_SPAN, m, y + I64_MAX + 1);
    }
  }

  /** Division rounds toward zero: the rest is smaller than the divisor and has the sign of the dividend. */
  lemma QuoIs(x: int, d: int)
    requires d > 0
    ensures var rest := x - Quo(x, d) * d;
      -d < rest < d && (x >= 0 ==> rest >= 0) && (x <= 0 ==> rest <= 0)
  {
    if x < 0 {
      assert -x == (-x / d) * d + (-x) % d;
    }
  }

  // ----- when nothing wraps

  predicate GoodConfig(cfg: Config) {
    0 <= cfg.minMarginBps <= cfg.marginBps && 0 <= cfg.quoteBufferBps && 0 <= cfg.ratePpm
  }

  /** A margin of `bps` on `x` stays within 64 bits. */
  predicate MarginFits(x: int, bps: int) {
    x * bps <= I64_MAX && x + x * bps / 10_000 <= I64_MAX
  }

  /** The products a quote computes stay within 64 bits. */
  predicate QuoteFits(cfg: Config, observed: int) {
    var top := observed + observed * cfg.quoteBufferBps / 10_000;
    && observed * cfg.quoteBufferBps <= I64_MAX && top <= I64_MAX
    && top * cfg.ratePpm <= I64_MAX && MarginFits(top * cfg.ratePpm / 1_000_000, cfg.marginBps)
  }

  lemma WrapId(x: int)
    requires -I64_MAX - 1 <= x <= I64_MAX
    ensures Wrap(x) == x
  {
  }

  lemma ScaleMono(x: int, y: int, k: int, d: int)
    requires 0 <= x <= y && 0 <= k && d > 0
    ensures 0 <= x * k <= y * k && 0 <= x * k / d <= y * k / d
  {
    MulMono(k, 0, x);
    MulMono(k, x, y);
    DivMono(x * k, y * k, d);
  }

  lemma ToAssetIs(cfg: Config, x: int)
    requires 0 <= x && 0 <= cfg.ratePpm && x * cfg.ratePpm <= I64_MAX
    ensures ToAsset(cfg, x) == x * cfg.ratePpm / 1_000_000 >= 0
  {
    ScaleMono(0, x, cfg.ratePpm, 1_000_000);
    WrapId(x * cfg.ratePpm);
  }

  lemma WithMarginIs(x: int, bps: int)
    requires 0 <= x && 0 <= bps && MarginFits(x, bps)
    ensures WithMargin(x, bps) == x + x * bps / 10_000 >= x
  {
    ScaleMono(0, x, bps, 10_000);
    WrapId(x * bps);
    WrapId(x + x * bps / 10_000);
  }

  /** A smaller margin on a smaller amount is no larger, and fits when the larger one does. */
  lemma MarginMono(x: int, y: int, small: int, large: int)
    requires 0 <= x <= y && 0 <= small <= large && MarginFits(y, large)
    ensures MarginFits(x, small) && x + x * small / 10_000 <= y + y * large / 10_000
  {
    hide MarginFits;
    MulMono(x, small, large);
    MulMono(x, 0, small);
    DivMono(x * small, x * large, 10_000);
    ScaleMono(x, y, large, 10_000);
    MarginBound(x, small, y, large);
  }

  lemma MarginBound(x: int, small: int, y: int, large: int)
    requires x * small <= y * large && x + x * small / 10_000 <= y + y * large / 10_000 && MarginFits(y, large)
    ensures MarginFits(x, small)
  {
  }

  /** Learning never leaves the range of what was seen and never falls below the cost just learned. */
  lemma LearnBounded(observed: int, cost: int, top: int)
    requires 0 <= observed <= top <= I64_MAX && 0 <= cost <= top
    ensures 0 <= Learn(observed, cost) <= top
    ensures cost <= Learn(observed, cost)
    ensures Learn(observed, cost) == if cost > observed then cost else observed - (observed - cost) / 8
  {
    if cost <= observed {
      WrapId(observed - cost);
      WrapId(observed - (observed - cost) / 8);
    }
  }

  lemma {:induction false} LearnAllBounded(observed: int, costs: seq<int>, top: int)
    requires 0 <= observed <= top <= I64_MAX
    requires forall c :: c in costs ==> 0 <= c <= top
    ensures 0 <= LearnAll(observed, costs) <= top
  {
    if costs != [] {
      var front, last := costs[..|costs| - 1], costs[|costs| - 1];
      assert last in costs && forall c :: c in front ==> c in costs;
      LearnAllBounded(observed, front, top);
      LearnBounded(LearnAll(observed, front), last, top);
    }
  }

  lemma BufferedIs(cfg: Config, observed: int)
    requires 0 <= cfg.quoteBufferBps && 0 <= observed && observed * cfg.quoteBufferBps <= I64_MAX
    requires observed + observed * cfg.quoteBufferBps / 10_000 <= I64_MAX
    ensures Buffered(cfg, observed) == observed + observed * cfg.quoteBufferBps / 10_000 >= observed
  {
    ScaleMono(0, observed, cfg.quoteBufferBps, 10_000);
    WrapId(observed * cfg.quoteBufferBps);
    WrapId(observed + observed * cfg.quoteBufferBps / 10_000);
  }

  /** A quote that fits is the buffered cost in asset units plus the target margin. */
  lemma QuoteIs(cfg: Config, observed: int)
    requires GoodConfig(cfg) && 0 <= observed && QuoteFits(cfg, observed)
    ensures var top := observed + observed * cfg.quoteBufferBps / 10_000;
      var q, basis := QuoteFor(cfg, observed), top * cfg.ratePpm / 1_000_000;
      && 0 <= observed <= top == Buffered(cfg, observed)
      && q.basis == basis >= 0 && q.margin == basis * cfg.marginBps / 10_000 && q.fee == q.basis + q.margin
  {
    hide Wrap, MarginFits, ToAsset, WithMargin;
    BufferedIs(cfg, observed);
    var top := observed + observed * cfg.quoteBufferBps / 10_000;
    ToAssetIs(cfg, top);
    var basis := top * cfg.ratePpm / 1_000_000;
    WithMarginIs(basis, cfg.marginBps);
    MarginIs(basis, cfg.marginBps);
  }

  lemma MarginIs(x: int, bps: int)
    requires 0 <= x && 0 <= bps && MarginFits(x, bps)
    ensures Quo(Wrap(x * bps), 10_000) == x * bps / 10_000
  {
    ScaleMono(0, x, bps, 10_000);
    WrapId(x * bps);
  }

  /** A quoted fee is honoured: whatever costs other submissions taught the relayer in between, as long
      as none of them, nor the real cost, exceeds the buffered estimate at quote time, the fee passes
      both gates and the relayer does not lose on it. */
  lemma QuoteHonoured(cfg: Config, observed: int, costs: seq<int>, cost: int)
    requires GoodConfig(cfg) && 0 <= observed && QuoteFits(cfg, observed)
    requires forall c :: c in costs ==> 0 <= c <= Buffered(cfg, observed)
    requires 0 <= cost <= Buffered(cfg, observed)
    ensures var fee := QuoteFor(cfg, observed).fee;
      && PreCheck(cfg, LearnAll(observed, costs), fee)
      && FinalCheck(cfg, cost, fee)
      && fee - ToAsset(cfg, cost) >= 0
  {
    QuoteIs(cfg, observed);
    var top, learned := Buffered(cfg, observed), LearnAll(observed, costs);
    hide Wrap, ToAsset, WithMargin, Buffered, QuoteFor, LearnAll, MarginFits;
    LearnAllBounded(observed, costs, top);
    ScaleMono(learned, top, cfg.ratePpm, 1_000_000);
    ScaleMono(cost, top, cfg.ratePpm, 1_000_000);
    ToAssetIs(cfg, learned);
    ToAssetIs(cfg, cost);
    var basis := top * cfg.ratePpm / 1_000_000;
    ScaleMono(0, basis, cfg.marginBps, 10_000);
    MarginMono(cost * cfg.ratePpm / 1_000_000, basis, cfg.minMarginBps, cfg.marginBps);
    WithMarginIs(cost * cfg.ratePpm / 1_000_000, cfg.minMarginBps);
  }

  /** The gates when nothing wraps: the fee covers the estimate, and then the cost with the minimum margin, both in
      asset units. */
  lemma GatesAre(cfg: Config, x: int, fee: int)
    requires 0 <= x && 0 <= cfg.ratePpm && x * cfg.ratePpm <= I64_MAX && 0 <= cfg.minMarginBps
    requires MarginFits(x * cfg.ratePpm / 1_000_000, cfg.minMarginBps)
    ensures var asset := x * cfg.ratePpm / 1_000_000;
      && (PreCheck(cfg, x, fee) <==> asset <= fee)
      && (FinalCheck(cfg, x, fee) <==> asset + asset * cfg.minMarginBps / 10_000 <= fee)
  {
    hide Wrap, ToAsset, WithMargin, MarginFits;
    ToAssetIs(cfg, x);
    WithMarginIs(x * cfg.ratePpm / 1_000_000, cfg.minMarginBps);
  }

  // ----- the final gate, exactly

  /** The fees a gate admits all cover the real cost in asset units. */
  ghost predicate NeverLoses(cfg: Config, cost: int) {
    forall fee :: fee >= 0 && FinalCheck(cfg, cost, fee) ==> fee >= cost * cfg.ratePpm / 1_000_000
  }

  /** A margin of at most the whole cost never leaves 64 bits. */
  lemma SmallMarginFits(x: int, bps: int)
    requires 0 <= x <= I64_MAX / 1_000_000 && 0 <= bps <= 10_000
    ensures MarginFits(x, bps) && x * bps / 10_000 <= x
  {
    MulMono(x, bps, 10_000);
    DivMono(0, x, 1);
    MulMono(x, 0, bps);
    DivMono(x * bps, x * 10_000, 10_000);
  }

  /** Every relayed spend keeps a profit of at least the minimum margin, as long as the cost in asset
      units is computed without wrapping. */
  lemma NoLoss(cfg: Config, cost: int, fee: int)
    requires 0 <= cost && 0 <= cfg.ratePpm && 0 <= cfg.minMarginBps
    requires cost * cfg.ratePpm <= I64_MAX && MarginFits(cost * cfg.ratePpm / 1_000_000, cfg.minMarginBps)
    requires FinalCheck(cfg, cost, fee)
    ensures ToAsset(cfg, cost) == cost * cfg.ratePpm / 1_000_000
    ensures fee - ToAsset(cfg, cost) >= ToAsset(cfg, cost) * cfg.minMarginBps / 10_000 >= 0
  {
    hide Wrap, ToAsset, WithMargin, MarginFits;
    ToAssetIs(cfg, cost);
    var x := cost * cfg.ratePpm / 1_000_000;
    WithMarginIs(x, cfg.minMarginBps);
    ScaleMono(0, x, cfg.minMarginBps, 10_000);
  }

  /** Past 64 bits what the gate requires falls below the real cost. */
  lemma WrappedRequired(p: int, bps: int)
    requires p > I64_MAX && 0 <= bps <= 10_000
    ensures WithMargin(Quo(Wrap(p), 1_000_000), bps) < p / 1_000_000
  {
    var y := Wrap(p);
    WrapBelow(p);
    hide Wrap;
    var a := Quo(y, 1_000_000);
    if y >= 0 {
      SmallMarginFits(a, bps);
      WithMarginIs(a, bps);
    } else {
      NegativeMargin(a, bps);
    }
  }

  /** A wrapped positive product is at least one span away from its value. */
  lemma WrapBelow(p: int)
    requires p > I64_MAX
    ensures -I64_MAX - 1 <= Wrap(p) <= I64_MAX
    ensures Wrap(p) >= 0 ==> p >= I64_SPAN
  {
    if p < I64_SPAN {
      DivUnique(p + I64_MAX + 1, I64_SPAN, 1, p + I64_MAX + 1 - I64_SPAN);
    }
  }

  lemma NegativeMargin(a: int, bps: int)
    requires -9_223_372_036_855 <= a <= 0 && 0 <= bps <= 10_000
    ensures WithMargin(a, bps) <= 0
  {
    var m := -a * bps;
    MulMono(-a, 0, bps);
    MulMono(-a, bps, 10_000);
    assert a * bps == -m && 0 <= m <= 92_233_720_368_550_000;
    WrapId(a * bps);
    assert -m <= Quo(-m, 10_000) <= 0;
    WrapId(a + Quo(-m, 10_000));
  }

  /** Exactly when the gate is safe: with a minimum margin of at most 100 %, it admits only fees that
      cover the real cost if and only if the cost in asset units fits 64 bits before it is scaled down. */
  lemma NeverLosesIff(cfg: Config, cost: int)
    requires 0 <= cost && 0 <= cfg.ratePpm && 0 <= cfg.minMarginBps <= 10_000
    ensures NeverLoses(cfg, cost) <==> cost * cfg.ratePpm <= I64_MAX
  {
    var p := cost * cfg.ratePpm;
    MulMono(cost, 0, cfg.ratePpm);
    if p <= I64_MAX {
      DivMono(p, I64_MAX, 1_000_000);
      SmallMarginFits(p / 1_000_000, cfg.minMarginBps);
      forall fee | fee >= 0 && FinalCheck(cfg, cost, fee) ensures fee >= p / 1_000_000 {
        NoLoss(cfg, cost, fee);
      }
    } else {
      WrappedRequired(p, cfg.minMarginBps);
      var fee := Max(0, Required(cfg, cost));
      assert FinalCheck(cfg, cost, fee) && fee < p / 1_000_000;
    }
  }

  lemma WrappedCost(cfg: Config, cost: int)
    requires cost * cfg.ratePpm == 10_000_000_000_000_000_000
    ensures ToAsset(cfg, cost) == -8_446_744_073_709
  {
    assert Wrap(10_000_000_000_000_000_000) == -8_446_744_073_709_551_616;
  }

  /** A cost a transaction can really have: 100 XLM of gas, at ten thousand asset units each, wrap to
      a negative asset cost, and a zero fee passes. */
  lemma WrappedCostPasses()
    ensures var cfg := Config(0, 2_000, 500, 1_000, 10_000_000_000);
      var cost := 1_000_000_000;
      cost < 0x1_0000_0000 && ToAsset(cfg, cost) < 0 && FinalCheck(cfg, cost, 0) && !NeverLoses(cfg, cost)
  {
    var cfg, cost := Config(0, 2_000, 500, 1_000, 10_000_000_000), 1_000_000_000;
    hide NeverLoses, Wrap, Quo, ToAsset, WithMargin;
    NeverLosesIff(cfg, cost);
    WrappedCost(cfg, cost);
    NegativeMargin(-8_446_744_073_709, 500);
  }

  // ----- convergence

  function Repeat(observed: int, cost: int, n: nat): int {
    if n == 0 then observed else Learn(Repeat(observed, cost, n - 1), cost)
  }

  /** Under a constant lower cost the estimate falls at every step until it is within 7 of it, never
      below, and stays put once there. */
  lemma {:induction false} Converges(observed: int, cost: int, n: nat)
    requires 0 <= cost <= observed <= I64_MAX
    ensures cost <= Repeat(observed, cost, n) <= observed
    ensures n >= observed - cost ==> Repeat(observed, cost, n) <= cost + 7
    ensures n > 0 && Repeat(observed, cost, n - 1) > cost + 7 ==>
            Repeat(observed, cost, n) < Repeat(observed, cost, n - 1)
    ensures n > 0 && Repeat(observed, cost, n - 1) <= cost + 7 ==>
            Repeat(observed, cost, n) == Repeat(observed, cost, n - 1)
    ensures Repeat(observed, cost, n) <= cost + 7 || Repeat(observed, cost, n) <= observed - n
  {
    if n > 0 {
      Converges(observed, cost, n - 1);
      LearnBounded(Repeat(observed, cost, n - 1), cost, observed);
    }
  }

  // ----- the profit is earned

  /** A sent spend that the vault accepts raises the relayer's account by the fee, so what is left after the gas in
      asset units is the profit reported; a withdrawal the spend pays to the relayer itself comes on top. */
  lemma ProfitIsEarned(cfg: Config, host: VaultSpec.Host, s: VaultSpec.State, proof: VaultSpec.TxProof,
                       ext: VaultSpec.ExtData, address: Address, cost: int)
    requires VaultSpec.Transact(host, s, proof, ext, address, true).1.Ok?
    requires ext.relayer == address != host.self && ext.extAmount <= 0
    requires 0 <= cost && 0 <= cfg.ratePpm && cost * cfg.ratePpm <= I64_MAX
    ensures var after := VaultSpec.Transact(host, s, proof, ext, address, true).0.balances;
      var withdrawn := if ext.recipient == address then -ext.extAmount else 0;
      VaultSpec.BalanceOf(after, address) - VaultSpec.BalanceOf(s.balances, address) - withdrawn
      - cost * cfg.ratePpm / 1_000_000 == ext.fee - ToAsset(cfg, cost)
  {
    hide Wrap, Quo, VaultSpec.Transact, VaultSpec.BalanceOf;
    ToAssetIs(cfg, cost);
    VaultSpec.AcceptedMoves(host, s, proof, ext, address, true, address);
  }
}
