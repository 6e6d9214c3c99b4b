/**
 * Position valuation, the portfolio-level summary and the per-group market
 * values (`Position`, `portfolio_summary` and `group_current_values` in
 * portfolio_module/portfolio.py). All quantities are exact reals.
 */
module Positions {
  import opened Basics
  import opened Ordering

  /** One holding. Its four derived quantities are computed on demand, never stored. */
  datatype Position = Position(ticker: string, group: string, shares: real, cost: real, price: real)
  {
    /** The holding valued at the current price: 0 exactly when nothing is held or the price is 0. */
    function MarketValue(): (mv: real)
      ensures mv == 0.0 <==> shares == 0.0 || price == 0.0
      ensures shares >= 0.0 && price >= 0.0 ==> mv >= 0.0
    {
      shares * price
    }

    /** The holding valued at its cost basis: 0 exactly when nothing is held or the cost is 0. */
    function CostValue(): (cv: real)
      ensures cv == 0.0 <==> shares == 0.0 || cost == 0.0
      ensures shares >= 0.0 && cost >= 0.0 ==> cv >= 0.0
    {
      shares * cost
    }

    /** Market value minus cost value: the gain per share times the number of shares. */
    function UnrealizedPnl(): (pnl: real)
      ensures pnl == shares * (price - cost)
    {
      MarketValue() - CostValue()
    }

    /** The gain relative to the cost basis; a zero cost basis falls back to 0. */
    function UnrealizedPnlPct(): (pct: real)
      ensures CostValue() != 0.0 ==> pct * CostValue() == UnrealizedPnl()
      ensures CostValue() != 0.0 ==> MarketValue() == CostValue() * (1.0 + pct)
      ensures pct == 0.0 <==> CostValue() == 0.0 || MarketValue() == CostValue()
    {
      if CostValue() != 0.0 then UnrealizedPnl() / CostValue() else 0.0
    }
  }

  /** The cash snapshot. A field that is None is a key absent from the source's `cash` mapping. */
  datatype Cash = Cash(stockCash: Option<real>, otherFundsInvestable: Option<real>)

  datatype Summary = Summary(
    stockMarketValue: real,
    stockCostValue: real,
    unrealizedPnl: real,
    unrealizedPnlPctOnCost: real,
    stockCash: real,
    otherInvestable: real,
    investableTotal: real)

  // Python's `sum(...)` over the positions, a left fold from 0.

  function TotalMarketValue(ps: seq<Position>): real
  {
    if |ps| == 0 then 0.0 else TotalMarketValue(ps[..|ps| - 1]) + ps[|ps| - 1].MarketValue()
  }

  function TotalCostValue(ps: seq<Position>): real
  {
    if |ps| == 0 then 0.0 else TotalCostValue(ps[..|ps| - 1]) + ps[|ps| - 1].CostValue()
  }

  function TotalUnrealizedPnl(ps: seq<Position>): real
  {
    if |ps| == 0 then 0.0 else TotalUnrealizedPnl(ps[..|ps| - 1]) + ps[|ps| - 1].UnrealizedPnl()
  }

  /** The portfolio's unrealized P&L is the sum of the positions' unrealized P&L. */
  lemma {:induction false} PortfolioPnlIsSumOfPositionPnl(ps: seq<Position>)
    ensures TotalMarketValue(ps) - TotalCostValue(ps) == TotalUnrealizedPnl(ps)
  {
    if |ps| > 0 {
      PortfolioPnlIsSumOfPositionPnl(ps[..|ps| - 1]);
    }
  }

  /** `portfolio_summary`: totals over the positions plus the cash that may be invested. */
  function PortfolioSummary(positions: seq<Position>, cash: Cash, includeOther: bool): (s: Summary)
    ensures s.stockMarketValue == TotalMarketValue(positions)
    ensures s.stockCostValue == TotalCostValue(positions)
    ensures s.unrealizedPnl == TotalUnrealizedPnl(positions)
    ensures s.stockCostValue != 0.0 ==> s.unrealizedPnlPctOnCost * s.stockCostValue == s.unrealizedPnl
    ensures s.stockCostValue == 0.0 ==> s.unrealizedPnlPctOnCost == 0.0
    ensures cash.stockCash.None? ==> s.stockCash == 0.0
    ensures cash.stockCash.Some? ==> s.stockCash == cash.stockCash.value
    ensures !includeOther ==> s.otherInvestable == 0.0
    ensures includeOther && cash.otherFundsInvestable.None? ==> s.otherInvestable == 0.0
    ensures includeOther && cash.otherFundsInvestable.Some? ==> s.otherInvestable == cash.otherFundsInvestable.value
    ensures s.investableTotal == s.stockMarketValue + s.stockCash + s.otherInvestable
  {
    var stockMv := TotalMarketValue(positions);
    var stockCost := TotalCostValue(positions);
    var unrealized := stockMv - stockCost;
    PortfolioPnlIsSumOfPositionPnl(positions);
    var stockCash := cash.stockCash.GetOr(0.0);
    var otherInvestable := if includeOther then cash.otherFundsInvestable.GetOr(0.0) else 0.0;
    Summary(
      stockMv,
      stockCost,
      unrealized,
      if stockCost != 0.0 then unrealized / stockCost else 0.0,
      stockCash,
      otherInvestable,
      stockMv + stockCash + otherInvestable)
  }

  // ---------------------------------------------------------------------
  // Market value per group
  // ---------------------------------------------------------------------

  /** The group of every position, in order. */
  function GroupNames(ps: seq<Position>): (names: seq<string>)
    ensures |names| == |ps|
    ensures forall i :: 0 <= i < |ps| ==> names[i] == ps[i].group
  {
    Project(ps, (p: Position) => p.group)
  }

  /** The summed market value of the positions of group `g`. */
  function GroupTotal(ps: seq<Position>, g: string): real
  {
    if |ps| == 0 then 0.0
    else GroupTotal(ps[..|ps| - 1], g) + (if ps[|ps| - 1].group == g then ps[|ps| - 1].MarketValue() else 0.0)
  }

  /** With no short holding and no negative price, a group's total lies between 0 and the portfolio's market value. */
  lemma {:induction false} GroupTotalBounds(ps: seq<Position>, g: string)
    requires forall i :: 0 <= i < |ps| ==> ps[i].shares >= 0.0 && ps[i].price >= 0.0
    ensures 0.0 <= GroupTotal(ps, g) <= TotalMarketValue(ps)
  {
    if |ps| > 0 {
      var init, p := ps[..|ps| - 1], ps[|ps| - 1];
      assert forall i :: 0 <= i < |init| ==> init[i] == ps[i];
      GroupTotalBounds(init, g);
      assert p.MarketValue() >= 0.0;
    }
  }

  /** One position's market value added to its group's entry, the entry created at 0 if missing. */
  function AddToGroup(m: map<string, real>, p: Position): map<string, real>
  {
    m[p.group := (if p.group in m then m[p.group] else 0.0) + p.MarketValue()]
  }

  /** The dict `group_current_values` builds, one position at a time. */
  function GroupValues(ps: seq<Position>): map<string, real>
  {
    if |ps| == 0 then map[] else AddToGroup(GroupValues(ps[..|ps| - 1]), ps[|ps| - 1])
  }

  lemma {:induction false} GroupTotalOfAbsentGroup(ps: seq<Position>, g: string)
    requires g !in GroupNames(ps)
    ensures GroupTotal(ps, g) == 0.0
  {
    if |ps| > 0 {
      assert GroupNames(ps) == GroupNames(ps[..|ps| - 1]) + [ps[|ps| - 1].group];
      GroupTotalOfAbsentGroup(ps[..|ps| - 1], g);
    }
  }

  /** `group_current_values`: a dict filled in one pass over the positions. */
  method GroupCurrentValues(positions: seq<Position>) returns (g: map<string, real>)
    ensures g == GroupValues(positions)
  {
    g := map[];
    for i := 0 to |positions|
      invariant g == GroupValues(positions[..i])
    {
      var p := positions[i];
      assert positions[..i + 1][..i] == positions[..i];
      g := g[p.group := (if p.group in g then g[p.group] else 0.0) + p.MarketValue()];
    }
    assert positions[..|positions|] == positions;
  }

  /** The keys of `group_current_values` are exactly the groups held. */
  lemma {:induction false} GroupValuesKeys(ps: seq<Position>, g: string)
    ensures g in GroupValues(ps) <==> g in GroupNames(ps)
  {
    if |ps| > 0 {
      assert GroupNames(ps) == GroupNames(ps[..|ps| - 1]) + [ps[|ps| - 1].group];
      GroupValuesKeys(ps[..|ps| - 1], g);
    }
  }

  /** Each group held maps to the summed market value of that group's positions. */
  lemma {:induction false} GroupValuesAreGroupTotals(ps: seq<Position>, g: string)
    requires g in GroupValues(ps)
    ensures GroupValues(ps)[g] == GroupTotal(ps, g)
  {
    if |ps| > 0 {
      var init := ps[..|ps| - 1];
      assert GroupNames(ps) == GroupNames(init) + [ps[|ps| - 1].group];
      GroupValuesKeys(init, g);
      if g in GroupNames(init) {
        GroupValuesAreGroupTotals(init, g);
      } else {
        GroupTotalOfAbsentGroup(init, g);
      }
    }
  }

  /** Sum of a map's values taken over `keys`, in that order. */
  function SumValues(keys: seq<string>, m: map<string, real>): real
    requires forall k :: k in keys ==> k in m
  {
    if |keys| == 0 then 0.0 else SumValues(keys[..|keys| - 1], m) + m[keys[|keys| - 1]]
  }

  /** Replacing one entry's value changes a sum over distinct keys by the difference, once. */
  lemma {:induction false} SumValuesUpdate(keys: seq<string>, m: map<string, real>, k: string, v: real)
    requires forall x :: x in keys ==> x in m
    requires forall i, j :: 0 <= i < j < |keys| ==> keys[i] != keys[j]
    ensures k !in keys ==> SumValues(keys, m[k := v]) == SumValues(keys, m)
    ensures k in keys ==> SumValues(keys, m[k := v]) == SumValues(keys, m) - m[k] + v
  {
    if |keys| > 0 {
      var init := keys[..|keys| - 1];
      assert keys == init + [keys[|keys| - 1]];
      SumValuesUpdate(init, m, k, v);
      if k == keys[|keys| - 1] {
        assert k !in init;
      }
    }
  }

  /**
   * Adding a position to its group's entry (created at 0, its key appended,
   * when missing) adds the position's market value to the sum over the keys.
   */
  lemma {:induction false} SumValuesAdd(d: seq<string>, m: map<string, real>, p: Position, d': seq<string>)
    requires forall k :: k in d ==> k in m
    requires forall i, j :: 0 <= i < j < |d| ==> d[i] != d[j]
    requires p.group in d <==> p.group in m
    requires d' == if p.group in d then d else d + [p.group]
    ensures forall k :: k in d' ==> k in AddToGroup(m, p)
    ensures SumValues(d', AddToGroup(m, p)) == SumValues(d, m) + p.MarketValue()
  {
    var m' := AddToGroup(m, p);
    SumValuesUpdate(d, m, p.group, m'[p.group]);
    if p.group !in d {
      assert (d + [p.group])[..|d|] == d;
    }
  }

  /**
   * The values of `group_current_values`, added in the dict's key order
   * (first occurrence of each group), give the total market value.
   */
  lemma {:induction false} GroupValuesSumToMarketValue(ps: seq<Position>)
    ensures forall k :: k in Distinct(GroupNames(ps)) ==> k in GroupValues(ps)
    ensures SumValues(Distinct(GroupNames(ps)), GroupValues(ps)) == TotalMarketValue(ps)
  {
    if |ps| > 0 {
      var init, p := ps[..|ps| - 1], ps[|ps| - 1];
      var d' := Distinct(GroupNames(ps));
      assert (forall k :: k in d' ==> k in AddToGroup(GroupValues(init), p))
          && SumValues(d', AddToGroup(GroupValues(init), p)) == TotalMarketValue(init) + p.MarketValue()
      by {
        GroupValuesSumToMarketValue(init);
        GroupValuesKeys(init, p.group);
        assert GroupNames(ps)[..|ps| - 1] == GroupNames(init);
        SumValuesAdd(Distinct(GroupNames(init)), GroupValues(init), p, d');
      }
    }
  }
}
