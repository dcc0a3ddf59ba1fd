# Revenue-at-Risk Simulator — Dafny model of the calculation

The simulator is a one-page dashboard. It takes five sidebar entries: annual revenue in millions, annual cybersecurity
investment in thousands, annual BC/DR (business continuity / disaster recovery) investment in thousands, the percentage
of revenue at risk without protection, and the effectiveness of the spend in reducing that risk. From these it computes
four figures:

- the total protective investment;
- the revenue at risk;
- the avoided loss;
- the return on risk prevention (ROPR).

It displays three of them as metrics: revenue at risk, avoided loss and ROPR. The bar chart shows revenue at risk and
avoided loss. The total investment is never displayed; it serves only as the ROPR divisor.

This project models that calculation as pure Dafny functions. It proves the bounds, the two cases of the division
guard, monotonicity in the sliders, and the default scenario.

- `risk_model.dfy`, module `RiskModel`: the entries as entered (`Entries`), the bounds the widgets impose
  (`WithinWidgetBounds`) and the widgets' defaults (`DefaultEntries`). `InDomain` is the domain the formula is meant
  for: no negative revenue or investment, and both percentages in [0, 100]. Rows below that say "within the domain"
  mean inputs satisfying `InDomain`. `Scale` turns the entries into whole currency amounts (`Inputs`). `PercentOf`,
  `TotalInvestment`, `Ropr` and `Compute` are the calculation block, giving `Outputs`. `Simulate` is one run of the
  page: scale, then compute.
- `risk_properties.dfy`, module `RiskProperties`: lemmas about those functions.

Amounts that the program divides in floating point (revenue at risk, avoided loss, ROPR) are exact `real`s. The
amounts it keeps as integers (revenue, the investments and their total) are `int`s. Python's `/` on two integers is
true division, so `p / 100` becomes `p as real / 100.0`. Every function is total and has no state, so calling
`Compute` twice on the same inputs gives the same outputs by construction.

The ROPR guard tests `investment > 0`, as module.py:24 does, and gives 0 otherwise. So a negative total investment,
which the widgets never produce, also gives 0.

## Model

| member | source | states |
|---|---|---|
| RiskModel.WithinWidgetBounds | module.py:12-18 | the widgets' minimums and ranges (revenue ≥ 1, investments ≥ 0, sliders in [0, 100]) hold exactly when the scaled inputs are within the domain and the revenue is at least 1,000,000 |
| RiskModel.DefaultEntries | module.py:12-18 | the widgets' defaults (100, 1000, 500, 40, 75) lie within the widgets' own bounds |
| RiskModel.Scale | module.py:12-18 | each scaled amount is a whole multiple of its unit (one million for revenue, one thousand for investments), and dividing by the unit gives back the entry; the sliders pass through unchanged |
| RiskModel.PercentOf | module.py:22-23 | a percentage of an amount, times 100, equals the amount times the percentage |
| RiskModel.TotalInvestment | module.py:13-21 | with both investments non-negative, the total is at least each of them and is zero exactly when both are zero |
| RiskModel.Ropr | module.py:24 | no positive investment gives ROPR exactly 0; with a positive investment, (ROPR + 1) times the investment gives back the avoided loss |
| RiskModel.Compute | module.py:21-24 | total investment is cyber plus BC/DR; revenue at risk times 100 is revenue times exposure; avoided loss times 100 is revenue at risk times effectiveness; the ROPR guard's two cases as for `Ropr` |
| RiskModel.Simulate | module.py:12-24 | the total investment is the two entries' sum in thousands; revenue at risk times 100 is the scaled revenue times exposure; avoided loss times 100 is revenue at risk times effectiveness; with a positive investment, (ROPR + 1) times the investment gives back the avoided loss, and otherwise ROPR is exactly 0 |
| RiskProperties.PercentOfBounds | module.py:17-23 | a percentage in [0, 100] of a non-negative amount lies between 0 and the amount |
| RiskProperties.PercentOfMonotoneInPercent | module.py:22-23 | a larger percentage of the same non-negative amount is never smaller |
| RiskProperties.PercentOfMonotoneInAmount | module.py:23 | the same non-negative percentage of a larger amount is never smaller |
| RiskProperties.PercentOfZero | module.py:22-23 | any percentage of zero, and zero percent of any amount, is zero |
| RiskProperties.RoprPositiveInvestment | module.py:24 | with a positive investment, ROPR is avoided loss / investment − 1; it is negative exactly when the investment exceeds the avoided loss; it is −1 exactly when the avoided loss is 0; it is at least −1 when the avoided loss is not negative |
| RiskProperties.RoprMonotone | module.py:24 | a larger avoided loss never lowers ROPR for the same investment |
| RiskProperties.ComputeBounds | module.py:21-23 | within the domain, total investment ≥ 0 and 0 ≤ avoided loss ≤ revenue at risk ≤ total revenue |
| RiskProperties.ComputeRoprRange | module.py:21-24 | within the domain, ROPR is exactly 0 when nothing is invested, whatever the avoided loss, and at least −1 otherwise |
| RiskProperties.ComputeNothingAvoided | module.py:22-24 | zero revenue, zero exposure or zero effectiveness gives zero avoided loss; zero revenue or zero exposure also gives zero revenue at risk; ROPR is then −1 with positive investment and 0 without |
| RiskProperties.ComputeMonotoneInEffectiveness | module.py:23-24 | raising effectiveness, other inputs fixed, never lowers the avoided loss or ROPR |
| RiskProperties.ComputeMonotoneInExposure | module.py:22-24 | raising exposure, other inputs fixed, never lowers the revenue at risk, the avoided loss or ROPR |
| RiskProperties.SimulateBounds | module.py:12-24 | entries within the widget bounds give investment ≥ 0, 0 ≤ avoided loss ≤ revenue at risk ≤ scaled revenue, and ROPR ≥ −1 |
| RiskProperties.DefaultScenario | module.py:12-24 | the default entries (100, 1000, 500, 40, 75) give investment 1,500,000, revenue at risk 40,000,000, avoided loss 30,000,000 and ROPR 19 |
| RiskProperties.RoprUnboundedAbove | module.py:12-24 | for any bound, some entries within the widget bounds give a ROPR above it |

## Left out

- Streamlit page setup, title, sidebar header, subheader, column layout and explanatory markdown (module.py:5-9,
  module.py:27-29, module.py:57-62): UI plumbing with no logic. The widgets appear only through their numeric bounds
  (`WithinWidgetBounds`) and defaults (`DefaultEntries`).
- Metric formatting (`${…:,.0f}`, `{…:.2f}x`, module.py:30-32): presentation-only string formatting and rounding of
  floats.
- The Plotly grouped bar chart (module.py:35-54): a call into a charting library that is not part of this model. It
  only displays the revenue at risk and the avoided loss, which `Compute` already produces.
- IEEE double rounding in the divisions (module.py:22-24): the model uses exact real arithmetic. Results therefore
  match the program's up to floating-point rounding. For example, the default ROPR is exactly 19 here.
- Input handling by the widgets themselves (rejecting non-numeric text, clamping the sliders, the step sizes of 1 and
  100): it belongs to the UI library. The model takes the entries as integers. It states the widget bounds as a
  predicate, and the lemmas that depend on the bounds require it.
