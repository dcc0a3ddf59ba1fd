/** What the revenue-at-risk calculation promises: the bounds that follow
    from the widget limits, the two cases of the ROPR division guard,
    monotonicity in the two sliders, and the page's default scenario. */
module RiskProperties {
  import opened RiskModel

  // ----- Taking a percentage -----

  /** A percentage in [0, 100] of a non-negative amount lies between zero and
      the amount. */
  lemma PercentOfBounds(amount: real, pct: int)
    requires amount >= 0.0 && 0 <= pct <= 100
    ensures 0.0 <= PercentOf(amount, pct) <= amount
  {
  }

  /** A larger percentage of the same non-negative amount is never smaller. */
  lemma PercentOfMonotoneInPercent(amount: real, p: int, q: int)
    requires amount >= 0.0 && p <= q
    ensures PercentOf(amount, p) <= PercentOf(amount, q)
  {
  }

  /** The same non-negative percentage of a larger amount is never smaller. */
  lemma PercentOfMonotoneInAmount(a: real, b: real, pct: int)
    requires a <= b && pct >= 0
    ensures PercentOf(a, pct) <= PercentOf(b, pct)
  {
  }

  /** Any percentage of zero, and zero percent of any amount, is zero. */
  lemma PercentOfZero(amount: real, pct: int)
    requires amount == 0.0 || pct == 0
    ensures PercentOf(amount, pct) == 0.0
  {
  }

  // ----- The ROPR division guard -----

  /** Positive investment: ROPR is the avoided loss as a multiple of the
      investment, less one. It is negative exactly when the investment
      exceeds the avoided loss, never below -1 when the avoided loss is not
      negative, and exactly -1 when nothing is avoided. */
  lemma RoprPositiveInvestment(avoidedLoss: real, investment: int)
    requires investment > 0
    ensures Ropr(avoidedLoss, investment) == avoidedLoss / investment as real - 1.0
    ensures Ropr(avoidedLoss, investment) < 0.0 <==> avoidedLoss < investment as real
    ensures Ropr(avoidedLoss, investment) == -1.0 <==> avoidedLoss == 0.0
    ensures avoidedLoss >= 0.0 ==> Ropr(avoidedLoss, investment) >= -1.0
  {
    var n := investment as real;
    assert n / n == 1.0;
    assert (avoidedLoss - n) / n == avoidedLoss / n - n / n;
    assert Ropr(avoidedLoss, investment) == (avoidedLoss - n) / n;
  }

  /** A larger avoided loss never lowers ROPR for the same investment. */
  lemma RoprMonotone(a: real, b: real, investment: int)
    requires a <= b
    ensures Ropr(a, investment) <= Ropr(b, investment)
  {
  }

  // ----- The calculation -----

  /** Within the domain, 0 <= avoided loss <= revenue at risk <= total
      revenue, and the total investment is not negative. */
  lemma ComputeBounds(i: Inputs)
    requires InDomain(i)
    ensures Compute(i).totalInvestment >= 0
    ensures 0.0 <= Compute(i).revenueAtRisk <= i.totalRevenue as real
    ensures 0.0 <= Compute(i).avoidedLoss <= Compute(i).revenueAtRisk
  {
    PercentOfBounds(i.totalRevenue as real, i.exposurePercent);
    PercentOfBounds(Compute(i).revenueAtRisk, i.effectivenessPercent);
  }

  /** Within the domain, ROPR is exactly 0 when nothing is invested, whatever
      the avoided loss, and at least -1 otherwise. */
  lemma ComputeRoprRange(i: Inputs)
    requires InDomain(i)
    ensures Compute(i).totalInvestment == 0 ==> Compute(i).ropr == 0.0
    ensures Compute(i).totalInvestment > 0 ==> Compute(i).ropr >= -1.0
  {
    ComputeBounds(i);
    if Compute(i).totalInvestment > 0 {
      RoprPositiveInvestment(Compute(i).avoidedLoss, Compute(i).totalInvestment);
    }
  }

  /** No revenue, no exposure or no effectiveness means nothing is avoided:
      ROPR is then -1 with investment and 0 without. */
  lemma ComputeNothingAvoided(i: Inputs)
    requires i.totalRevenue == 0 || i.exposurePercent == 0 || i.effectivenessPercent == 0
    ensures Compute(i).avoidedLoss == 0.0
    ensures i.totalRevenue == 0 || i.exposurePercent == 0 ==> Compute(i).revenueAtRisk == 0.0
    ensures Compute(i).ropr == if Compute(i).totalInvestment > 0 then -1.0 else 0.0
  {
    var o := Compute(i);
    if i.totalRevenue == 0 || i.exposurePercent == 0 {
      PercentOfZero(i.totalRevenue as real, i.exposurePercent);
    }
    PercentOfZero(o.revenueAtRisk, i.effectivenessPercent);
    if o.totalInvestment > 0 {
      RoprPositiveInvestment(o.avoidedLoss, o.totalInvestment);
    }
  }

  /** Raising the effectiveness slider, everything else fixed, never lowers
      the avoided loss or ROPR. */
  lemma ComputeMonotoneInEffectiveness(i: Inputs, effectiveness: int)
    requires InDomain(i) && i.effectivenessPercent <= effectiveness
    ensures Compute(i).avoidedLoss <= Compute(i.(effectivenessPercent := effectiveness)).avoidedLoss
    ensures Compute(i).ropr <= Compute(i.(effectivenessPercent := effectiveness)).ropr
  {
    var j := i.(effectivenessPercent := effectiveness);
    ComputeBounds(i);
    PercentOfMonotoneInPercent(Compute(i).revenueAtRisk, i.effectivenessPercent, effectiveness);
    RoprMonotone(Compute(i).avoidedLoss, Compute(j).avoidedLoss, Compute(i).totalInvestment);
  }

  /** Raising the exposure slider, everything else fixed, never lowers the
      revenue at risk, the avoided loss or ROPR. */
  lemma ComputeMonotoneInExposure(i: Inputs, exposure: int)
    requires InDomain(i) && i.exposurePercent <= exposure
    ensures Compute(i).revenueAtRisk <= Compute(i.(exposurePercent := exposure)).revenueAtRisk
    ensures Compute(i).avoidedLoss <= Compute(i.(exposurePercent := exposure)).avoidedLoss
    ensures Compute(i).ropr <= Compute(i.(exposurePercent := exposure)).ropr
  {
  }

  // ----- The page as a whole -----

  /** Entries within the widget bounds give 0 <= avoided loss <= revenue at
      risk <= revenue, revenue of at least one million, and ROPR of at least
      -1. */
  lemma SimulateBounds(e: Entries)
    requires WithinWidgetBounds(e)
    ensures Simulate(e).totalInvestment >= 0
    ensures 0.0 <= Simulate(e).avoidedLoss <= Simulate(e).revenueAtRisk <= (e.revenueMillions * RevenueUnit) as real
    ensures Simulate(e).ropr >= -1.0
  {
    ComputeBounds(Scale(e));
    ComputeRoprRange(Scale(e));
  }

  /** The default entries: 1,500,000 invested, 40,000,000 at risk,
      30,000,000 avoided, ROPR 19. */
  lemma DefaultScenario()
    ensures Simulate(DefaultEntries()) == Outputs(1_500_000, 40_000_000.0, 30_000_000.0, 19.0)
  {
  }

  /** ROPR has no upper bound over the entries the widgets accept. */
  lemma RoprUnboundedAbove(bound: real)
    ensures exists e :: WithinWidgetBounds(e) && Simulate(e).ropr > bound
  {
    // One thousand invested, full exposure, full effectiveness: ROPR is
    // 1000 times the revenue in millions, less one.
    var millions := if bound < 0.0 then 1 else bound.Floor + 1;
    var e := Entries(millions, 1, 0, 100, 100);
    var o := Simulate(e);
    assert o.totalInvestment == 1000;
    assert o.avoidedLoss == (millions * RevenueUnit) as real;
    RoprPositiveInvestment(o.avoidedLoss, o.totalInvestment);
    assert o.ropr == (millions * 1000) as real - 1.0;
    assert WithinWidgetBounds(e) && o.ropr > bound;
  }
}
