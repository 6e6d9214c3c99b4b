# Portfolio engine — a verified Dafny model

This project models the computation engine of a small personal-portfolio tool
(`portfolio_module/portfolio.py`). Given holdings, a cash snapshot, target
weights per sector group and a trading rule, the engine computes:

- the value of each holding and of the whole portfolio;
- the market value held per group;
- a normalised target table;
- a rebalancing plan with two tables:
  - the deviation of every group from its target, with a band trigger;
  - a BUY / SELL / HOLD suggestion per group, with the buy capped by cash;
- a de-duplicated positions report sorted by unrealized P&L.

All quantities are exact `real`s. The Python dicts the engine passes around
are records (`datatype`s) and `map<string, …>` tables. Keys that may be
absent are `Option` fields.

Files:

- `basics.dfy` — `Option`, `Abs`, `Min`.
- `ordering.dfy` — Python's string order (`StrLess`), plus a stable sort
  specified by sortedness, permutation and stability (`StableSort`). Also the
  first-occurrence order of dict keys (`Distinct`), and `sorted(set(...))`
  (`SortedSet`).
- `positions.dfy` — `Position` and its derived values, `portfolio_summary`
  and `group_current_values`.
- `targets.dfy` — `normalize_targets`.
- `rebalance.dfy` — `rebalance_plan`.
- `report.dfy` — `positions_report`.

The loops of the source are methods proved against specification functions:

- `GroupCurrentValues` against `GroupValues`;
- `NormalizeTargets` against `Normalized`;
- `RebalancePlan` (through `GroupRows`) against `DeviationReport` / `ActionReport`;
- `PositionsReport` against `PositionsReportOf`.

What the source promises is then proved as lemmas about those functions.

Where the code and a natural reading of its intent differ, the model follows
the code:

- **A zero investable total.** With non-negative shares, prices and cash,
  an investable total of 0 means nothing is held. Every group then has diff 0
  and a HOLD (see `ZeroInvestableHoldsOnWellFormedInput`). The code does not
  check its inputs, though. With a negative stock cash (margin), negative
  other funds or a negative price, the total can be 0 while something is
  held. Every target value is then 0, so a group with a positive holding
  gets `diff < 0` and a SELL, and one with a negative holding gets a BUY
  (see `ZeroInvestableActions`).
- **A zero P&L percentage.** This is 0 not only when the cost basis is 0, but
  also whenever market value equals cost value (see
  `Positions.Position.UnrealizedPnlPct`).

## Model

| member | source | states |
|---|---|---|
| Positions.Position.UnrealizedPnl | portfolio_module/portfolio.py:26-28 | the unrealized P&L is the shares times the per-share gain, `shares * (price - cost)` |
| Positions.Position.UnrealizedPnlPct | portfolio_module/portfolio.py:30-33 | with a nonzero cost basis the percentage times the cost value is the P&L (market value = cost value × (1 + pct)); the percentage is 0 exactly when the cost basis is 0 or the position is flat |
| Positions.Position.MarketValue | portfolio_module/portfolio.py:18-20 | the market value is 0 exactly when no shares are held or the price is 0, and is never negative for non-negative shares and price |
| Positions.Position.CostValue | portfolio_module/portfolio.py:22-24 | the cost value is 0 exactly when no shares are held or the cost is 0, and is never negative for non-negative shares and cost |
| Positions.PortfolioPnlIsSumOfPositionPnl | portfolio_module/portfolio.py:50-52 | the portfolio's unrealized P&L (total market value minus total cost) equals the sum of the positions' unrealized P&L |
| Positions.PortfolioSummary | portfolio_module/portfolio.py:49-66 | totals are the sums over the positions; missing cash keys read 0; other funds count only when the flag is set; the P&L percentage times the cost is the P&L, or 0 when the cost is 0; investable total = market value + stock cash + other investable |
| Positions.GroupCurrentValues | portfolio_module/portfolio.py:69-73 | the dict the loop builds is the per-position accumulation `GroupValues(positions)` |
| Positions.GroupValuesKeys | portfolio_module/portfolio.py:69-73 | a group is a key exactly when some position belongs to it |
| Positions.GroupValuesAreGroupTotals | portfolio_module/portfolio.py:69-73 | each key maps to the summed market value of that group's positions |
| Positions.GroupTotalBounds | portfolio_module/portfolio.py:69-73 | with non-negative shares and prices, each group's accumulated value lies between 0 and the total market value |
| Positions.GroupValuesSumToMarketValue | portfolio_module/portfolio.py:69-73 | the values, taken once per group in dict order, add up to the total market value of all positions |
| Ordering.StableSort | portfolio_module/portfolio.py:168-178 | the result is sorted by the key, is a permutation of the input, and keeps the input order among equal keys (Python's stable `sorted`) |
| Ordering.StrLess | portfolio_module/portfolio.py:112 | Python's string order: no string precedes itself, and a proper prefix precedes the longer string |
| Ordering.StrLessIsStrictTotal | portfolio_module/portfolio.py:112 | the string order is irreflexive, transitive and total, so sorting distinct names orders them strictly |
| Ordering.SortedSet | portfolio_module/portfolio.py:112 | every name occurs once, exactly the names of the input, in strictly increasing string order |
| Targets.EntryOf | portfolio_module/portfolio.py:77 | an entry takes the declared weight, and the band defaults to 0 when absent |
| Targets.RawTable | portfolio_module/portfolio.py:77 | the table has exactly one key per declared group |
| Targets.RawTableLastWins | portfolio_module/portfolio.py:77 | when a group is declared more than once, its last declaration is the one kept |
| Targets.RawWeightTotalSign | portfolio_module/portfolio.py:78 | the raw weight total is non-negative when no weight is negative, and 0 when every weight is 0 |
| Targets.Rescale | portfolio_module/portfolio.py:82 | one rescaled entry keeps its band; its weight is divided by a nonzero total, and is 0 when the total is 0 (the `if total_w else 0.0` guard) |
| Targets.Normalized | portfolio_module/portfolio.py:76-83 | keys are the declared groups and bands are never altered; within 1e-6 of 1 the table is the raw one; otherwise each weight is divided by the raw sum, or set to 0 when that sum is 0 |
| Targets.NormalizeTargets | portfolio_module/portfolio.py:76-83 | rescaling the entries in place, key by key, yields exactly `Normalized(targets)` |
| Targets.RescaleEntries | portfolio_module/portfolio.py:81-82 | the in-place loop leaves the key set unchanged, divides the weight of every key it visits by the total (0 when the total is 0), keeps every band, and leaves entries it does not visit as they were |
| Targets.NormalizedWeightsSumToOne | portfolio_module/portfolio.py:79-82 | after a rescaling by a nonzero raw sum the weights add up to exactly 1 |
| Targets.NormalizedSumWithinTolerance | portfolio_module/portfolio.py:78-83 | for any declarations the normalised weights sum to 1 within 1e-6, unless the raw sum is 0, when they sum to 0 |
| Targets.AllZeroIffZeroRawSum | portfolio_module/portfolio.py:82 | every normalised weight is 0 if and only if the raw weights add up to 0 |
| Rebalance.MaxTradeCash | portfolio_module/portfolio.py:106 | the per-trade cash cap is the stock cash times the fraction, which is 1 when the rule is absent |
| Rebalance.GroupDeviation | portfolio_module/portfolio.py:115-129 | the row of one group: a group without holdings has current value 0 and one without a target has weight 0, target value 0 and is never triggered (the `.get` defaults); otherwise the held value and target weight are taken from the tables, and with a positive target value the row triggers exactly when abs(diff) exceeds target value × band |
| Rebalance.GroupAction | portfolio_module/portfolio.py:142-165 | the action row of one group carries the stock cash and cap, triggers exactly when its deviation row does, and is BUY exactly when the diff is positive and SELL exactly when it is negative |
| Rebalance.Deviation | portfolio_module/portfolio.py:119-129 | target value = investable × weight; current value + diff = target value; triggered only with a positive target value, and then exactly when abs(diff) > target value × band; current weight × investable = current value (0 when investable is 0); pct-point gap + weight = current weight |
| Rebalance.ActionFor | portfolio_module/portfolio.py:143-155 | BUY exactly when diff > 0, with amount = max buy ≤ diff, ≤ stock cash, ≤ cap and equal to one of them; SELL exactly when diff < 0, with amount = -diff > 0 and max buy 0; otherwise HOLD with both amounts 0 |
| Rebalance.TriggeredIffOutsideBand | portfolio_module/portfolio.py:122-126 | with a positive target value the band triggers exactly when the holding lies outside target × (1 ± band) |
| Rebalance.DiffIsWeightGap | portfolio_module/portfolio.py:119-129 | with a nonzero investable total, diff is minus the percentage-point gap times the investable total |
| Rebalance.ActionMovesTowardTarget | portfolio_module/portfolio.py:119-155 | SELL exactly when over target and it returns the holding to target; BUY exactly when under target and never overshoots; HOLD only on target |
| Rebalance.ActionAmountNonNegative | portfolio_module/portfolio.py:143-155 | with non-negative stock cash and fraction no action amount is negative |
| Rebalance.UnclassifiedHoldingSold | portfolio_module/portfolio.py:114-155 | a held group without a target is never triggered and is sold in full |
| Rebalance.ZeroInvestableActions | portfolio_module/portfolio.py:119-155 | with a zero investable total every target value and current weight is 0 and nothing triggers; a non-negative holding is never bought, a positive one is sold and a negative one is bought |
| Rebalance.ZeroInvestableHoldsOnWellFormedInput | portfolio_module/portfolio.py:98-155 | with non-negative shares, prices and cash, a zero investable total gives every group diff 0, no trigger and a HOLD |
| Rebalance.PlanGroups | portfolio_module/portfolio.py:112 | the planned groups are in strictly increasing name order |
| Rebalance.PlanGroupsAreTargetOrHeld | portfolio_module/portfolio.py:111-112 | a group is planned exactly when it has a target or a holding |
| Rebalance.DeviationTable | portfolio_module/portfolio.py:114-140 | one deviation row per group, in the groups' order, each that group's row |
| Rebalance.ActionTable | portfolio_module/portfolio.py:142-165 | one action row per group, in the groups' order, each that group's row |
| Rebalance.GroupRows | portfolio_module/portfolio.py:114-165 | the loop appends exactly the deviation and action tables of the groups |
| Rebalance.SortedDeviationTable | portfolio_module/portfolio.py:167-172 | sorting the deviation rows of groups in increasing order yields exactly one row per group, each that group's own row |
| Rebalance.SortedDeviationOrder | portfolio_module/portfolio.py:167-172 | the sorted deviation rows have non-increasing abs(diff), and equal gaps stay in increasing group order (Python's `reverse=True` keeps ties stable) |
| Rebalance.SortedActionTable | portfolio_module/portfolio.py:174-178 | sorting the action rows of groups in increasing order yields exactly one row per group, each that group's own row |
| Rebalance.SortedActionOrder | portfolio_module/portfolio.py:174-178 | the sorted action rows are ordered by (-triggered, -amount), with full ties in increasing group order |
| Rebalance.RebalancePlan | portfolio_module/portfolio.py:86-180 | the two returned tables are `DeviationReport` and `ActionReport` of the inputs |
| Rebalance.DeviationReportFacts | portfolio_module/portfolio.py:112-172 | the deviation table has exactly one row per planned group, each that group's own row; abs(diff) is non-increasing; equal gaps stay in increasing group order |
| Rebalance.ActionReportFacts | portfolio_module/portfolio.py:112-178 | the action table has exactly one row per planned group, each that group's own row; triggered rows precede untriggered ones; amounts are non-increasing among rows alike in triggering; full ties stay in increasing group order |
| Rebalance.UrgencyOrder | portfolio_module/portfolio.py:175-178 | a table sorted by (-triggered, -amount) has its triggered rows first and larger amounts first within each part |
| Rebalance.SortedTableRows | portfolio_module/portfolio.py:167-178 | stably sorting rows built one per group, in increasing group order, keeps exactly one row per group, each that group's own row |
| Rebalance.SortedTableTies | portfolio_module/portfolio.py:167-178 | the same sort orders the rows by the key and leaves rows with equal keys in increasing group order |
| Report.TickersHeld | portfolio_module/portfolio.py:185-192 | a ticker is in the seen set exactly when some position carries it |
| Report.RowOf | portfolio_module/portfolio.py:194-204 | a row copies the position's ticker, group, shares, cost and price, and carries its cost value, market value, unrealized P&L and P&L percentage; so its P&L is market value minus cost value, and its percentage is 0 exactly when the cost value is 0 or the position is flat |
| Report.FirstPositions | portfolio_module/portfolio.py:185-192 | the de-duplicating loop never keeps more positions than it is given (what it keeps is stated by the lemmas below) |
| Report.Rows | portfolio_module/portfolio.py:188-204 | one report row per kept position, in the same order, each that position's row |
| Report.FirstPositionsCount | portfolio_module/portfolio.py:185-204 | the loop keeps as many positions as there are distinct tickers |
| Report.FirstPositionsCover | portfolio_module/portfolio.py:185-204 | every ticker held is carried by a kept position, and only those |
| Report.FirstPositionsDistinct | portfolio_module/portfolio.py:188-192 | no two kept positions share a ticker |
| Report.FirstPositionsAreFirst | portfolio_module/portfolio.py:188-192 | each kept position is the first one carrying its ticker |
| Report.SortedReportRows | portfolio_module/portfolio.py:206-207 | sorting rows with distinct tickers by (P&L, ticker) descending permutes them, keeps the tickers distinct, and orders them strictly |
| Report.PositionsReport | portfolio_module/portfolio.py:183-208 | the method's result is `PositionsReportOf(positions)`: the rows of the first position of each ticker, stably sorted |
| Report.PositionsReportFacts | portfolio_module/portfolio.py:183-208 | the report has one row per distinct ticker, exactly the tickers held, no ticker twice, each row from the first position with that ticker, in strictly descending (P&L, ticker) order |

## Left out

- `build_positions` (portfolio_module/portfolio.py:36-46) only converts raw dict fields with `str()`/`float()`. The model takes positions as already-typed records. Conversion errors (a missing key, a non-numeric string) are not modelled.
- The `float()` conversions of cash, rule and target values, and the `KeyError` raised when a target lacks `group` or `target_weight`, are not modelled for the same reason: the inputs are typed records with `Option` for the optional keys.
- IEEE-754 floating point. Every quantity is an exact real, so rounding in sums and divisions is not captured. The 1e-6 tolerance is an exact real comparison.
- Aliasing of the nested target dicts. `normalize_targets` mutates `t[k]["w"]` in place; the model reassigns a value-typed `map`.
- `rebalance_plan`'s loop is a method of its own (`GroupRows`). The arithmetic of each row is computed by the functions `Deviation` and `ActionFor`, and the trigger is an `if` expression equal to the source's assignment-then-`if`.
- Python's `sorted`/`list.sort` are modelled by one stable insertion sort. Only their contract is modelled (sorted, permutation, stable), not Timsort's steps.
- `StrLess` orders strings by character code, the way Python compares `str` values. Locale and Unicode normalisation are outside the model.
- The returned rows are records, not string-keyed dicts.
- Report.FirstPositions: its own contract bounds only the length. Which positions it keeps is stated by `FirstPositionsCount`, `FirstPositionsCover`, `FirstPositionsDistinct` and `FirstPositionsAreFirst`.
- Rebalance.ActionAmountNonNegative: states non-negativity only for non-negative stock cash and fraction. The source does not validate either, and a negative cash or fraction can make a BUY amount negative.
- The rest of the repository is not part of this model:
  - the backtest engine and strategies (calls into an external trading library);
  - the display module (UI and string formatting);
  - the entry points `main.py` and `app.py`;
  - the package `__init__` files.
