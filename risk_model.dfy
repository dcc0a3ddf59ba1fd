/** The revenue-at-risk calculation: the sidebar entries scaled to whole
    currency amounts, then a fixed chain of four arithmetic steps giving the
    total protective investment, the revenue at risk, the avoided loss and
    the return on risk prevention (ROPR).

    Amounts that the source computes with floating-point division are exact
    `real`s here; amounts it keeps as integers stay `int`. */
module RiskModel {

  /** Revenue is entered in millions. */
  const RevenueUnit: int := 1_000_000
  /** Both investments are entered in thousands. */
  const InvestmentUnit: int := 1_000

  /** The five numbers the sidebar collects, as the user enters them. */
  datatype Entries = Entries(
    revenueMillions: int,
    cyberThousands: int,
    bcdrThousands: int,
    exposurePercent: int,
    effectivenessPercent: int)


  /** The inputs of the calculation, amounts in whole currency units. */
  datatype Inputs = Inputs(
    totalRevenue: int,
    cyberInvestment: int,
    bcdrInvestment: int,
    exposurePercent: int,
    effectivenessPercent: int)

  /** The domain the formula is meant for: no negative amounts, percentages
      in [0, 100]. The calculation itself does not check it. */
  predicate InDomain(i: Inputs) {
    && i.totalRevenue >= 0
    && i.cyberInvestment >= 0
    && i.bcdrInvestment >= 0
    && 0 <= i.exposurePercent <= 100
    && 0 <= i.effectivenessPercent <= 100
  }

  /** The minimums and ranges the sidebar widgets enforce: revenue at least
      one million, investments not negative, both sliders in [0, 100].
      These are exactly the entries whose scaled inputs lie in the formula's
      domain with a revenue of at least one million. */
  function WithinWidgetBounds(e: Entries): (b: bool)
    ensures b <==> InDomain(Scale(e)) && Scale(e).totalRevenue >= RevenueUnit
  {
    && e.revenueMillions >= 1
    && e.cyberThousands >= 0
    && e.bcdrThousands >= 0
    && 0 <= e.exposurePercent <= 100
    && 0 <= e.effectivenessPercent <= 100
  }

  /** The defaults the sidebar widgets start from; they lie within the
      widgets' own bounds. */
  function DefaultEntries(): (e: Entries)
    ensures WithinWidgetBounds(e)
  {
    Entries(100, 1000, 500, 40, 75)
  }

  /** Scales the entries to whole currency amounts; the sliders pass through.
      Every scaled amount is a whole multiple of its unit, and dividing by the
      unit gives back the entry, so no entry is lost or altered. */
  function Scale(e: Entries): (i: Inputs)
    ensures i.totalRevenue % RevenueUnit == 0 && i.totalRevenue / RevenueUnit == e.revenueMillions
    ensures i.cyberInvestment % InvestmentUnit == 0 && i.cyberInvestment / InvestmentUnit == e.cyberThousands
    ensures i.bcdrInvestment % InvestmentUnit == 0 && i.bcdrInvestment / InvestmentUnit == e.bcdrThousands
    ensures i.exposurePercent == e.exposurePercent && i.effectivenessPercent == e.effectivenessPercent
  {
    Inputs(
      e.revenueMillions * RevenueUnit,
      e.cyberThousands * InvestmentUnit,
      e.bcdrThousands * InvestmentUnit,
      e.exposurePercent,
      e.effectivenessPercent)
  }

  /** The four figures the calculation produces; the page displays all but
      the total investment, which serves only as the ROPR divisor. */
  datatype Outputs = Outputs(
    totalInvestment: int,
    revenueAtRisk: real,
    avoidedLoss: real,
    ropr: real)

  /** `pct` percent of `amount`, computed as the source does: the amount times
      the percentage divided by 100. Multiplying the result back by 100 gives
      amount times percentage. */
  function PercentOf(amount: real, pct: int): (r: real)
    ensures r * 100.0 == amount * pct as real
  {
    amount * (pct as real / 100.0)
  }

  /** Total protective investment: the cyber and the BC/DR spend together.
      It is zero exactly when both are zero, and at least each of them, when
      neither is negative. */
  function TotalInvestment(i: Inputs): (t: int)
    ensures i.cyberInvestment >= 0 && i.bcdrInvestment >= 0 ==>
      t >= i.cyberInvestment && t >= i.bcdrInvestment && (t == 0 <==> i.cyberInvestment == 0 && i.bcdrInvestment == 0)
  {
    i.cyberInvestment + i.bcdrInvestment
  }

  /** Return on risk prevention: the net benefit of the investment as a
      multiple of it, or 0 when there is no positive investment to divide by.
      For a positive investment, ROPR + 1 times the investment gives back the
      avoided loss. */
  function Ropr(avoidedLoss: real, investment: int): (r: real)
    ensures investment <= 0 ==> r == 0.0
    ensures investment > 0 ==> (r + 1.0) * investment as real == avoidedLoss
  {
    if investment > 0 then (avoidedLoss - investment as real) / investment as real else 0.0
  }

  /** The calculation block: each figure from the one before it. */
  function Compute(i: Inputs): (o: Outputs)
    ensures o.totalInvestment == i.cyberInvestment + i.bcdrInvestment
    ensures o.revenueAtRisk * 100.0 == i.totalRevenue as real * i.exposurePercent as real
    ensures o.avoidedLoss * 100.0 == o.revenueAtRisk * i.effectivenessPercent as real
    ensures o.totalInvestment > 0 ==> (o.ropr + 1.0) * o.totalInvestment as real == o.avoidedLoss
    ensures o.totalInvestment <= 0 ==> o.ropr == 0.0
  {
    var investment := TotalInvestment(i);
    var atRisk := PercentOf(i.totalRevenue as real, i.exposurePercent);
    var avoided := PercentOf(atRisk, i.effectivenessPercent);
    Outputs(investment, atRisk, avoided, Ropr(avoided, investment))
  }

  /** One run of the page: the sidebar entries scaled, then the calculation. */
  function Simulate(e: Entries): (o: Outputs)
    ensures o.totalInvestment == (e.cyberThousands + e.bcdrThousands) * InvestmentUnit
    ensures o.revenueAtRisk * 100.0 == (e.revenueMillions * RevenueUnit) as real * e.exposurePercent as real
    ensures o.avoidedLoss * 100.0 == o.revenueAtRisk * e.effectivenessPercent as real
    ensures o.totalInvestment > 0 ==> (o.ropr + 1.0) * o.totalInvestment as real == o.avoidedLoss
    ensures o.totalInvestment <= 0 ==> o.ropr == 0.0
  {
    Compute(Scale(e))
  }
}
