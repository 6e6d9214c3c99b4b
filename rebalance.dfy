/**
 * The rebalancing plan (`rebalance_plan` in portfolio_module/portfolio.py):
 * for every group that has a target or a holding, how far it is from its
 * target, whether the gap is outside its band, and one bounded action.
 */
module Rebalance {
  import opened Basics
  import opened Ordering
  import opened Positions
  import opened Targets

  /** The trading rules; `maxTradeCashFraction` is None when the key is absent. */
  datatype Rules = Rules(maxTradeCashFraction: Option<real>)

  datatype Action = Buy | Sell | Hold

  /** One row of the deviation table. */
  datatype DeviationRow = DeviationRow(
    group: string,
    currentValue: real,
    currentWeight: real,
    targetWeight: real,
    targetValue: real,
    diff: real,
    diffPctPoint: real,
    triggered: bool)

  /** One row of the action table. */
  datatype ActionRow = ActionRow(
    group: string,
    action: Action,
    actionAmount: real,
    maxBuy: real,
    maxTradeCash: real,
    stockCash: real,
    triggered: bool)

  // ---------------------------------------------------------------------
  // One group
  // ---------------------------------------------------------------------

  /** The most cash one trade may use: the stock cash times the rule's fraction, 1 by default. */
  function MaxTradeCash(stockCash: real, rules: Rules): (m: real)
    ensures rules.maxTradeCashFraction.None? ==> m == stockCash
    ensures rules.maxTradeCashFraction.Some? ==> m == stockCash * rules.maxTradeCashFraction.value
  {
    stockCash * rules.maxTradeCashFraction.GetOr(1.0)
  }

  /**
   * The deviation of a group holding `cur` against weight `w` and band `band`
   * of the investable total `investable`.
   */
  function Deviation(g: string, cur: real, w: real, band: real, investable: real): (r: DeviationRow)
    ensures r.group == g && r.currentValue == cur && r.targetWeight == w
    ensures r.targetValue == investable * w
    ensures r.currentValue + r.diff == r.targetValue
    ensures r.triggered ==> r.targetValue > 0.0
    ensures r.targetValue > 0.0 ==> (r.triggered <==> Abs(r.diff) > r.targetValue * band)
    ensures investable != 0.0 ==> r.currentWeight * investable == cur
    ensures investable == 0.0 ==> r.currentWeight == 0.0
    ensures r.diffPctPoint + w == r.currentWeight
  {
    var targetValue := investable * w;
    var diff := targetValue - cur;
    var trigger := if targetValue > 0.0 then Abs(diff) > targetValue * band else false;
    var curW := if investable != 0.0 then cur / investable else 0.0;
    DeviationRow(g, cur, curW, w, targetValue, diff, curW - w, trigger)
  }

  /** The action for a gap `diff`: buy what cash allows, sell the excess, or hold. */
  function ActionFor(g: string, diff: real, stockCash: real, maxTradeCash: real, triggered: bool): (a: ActionRow)
    ensures a.group == g && a.maxTradeCash == maxTradeCash && a.stockCash == stockCash && a.triggered == triggered
    ensures a.action == Buy <==> diff > 0.0
    ensures a.action == Sell <==> diff < 0.0
    ensures a.action == Buy ==>
              a.actionAmount == a.maxBuy && a.maxBuy <= diff && a.maxBuy <= stockCash && a.maxBuy <= maxTradeCash
              && (a.maxBuy == diff || a.maxBuy == stockCash || a.maxBuy == maxTradeCash)
    ensures a.action == Sell ==> a.actionAmount > 0.0 && a.actionAmount + diff == 0.0 && a.maxBuy == 0.0
    ensures a.action == Hold ==> a.actionAmount == 0.0 && a.maxBuy == 0.0
  {
    if diff > 0.0 then
      var maxBuy := Min(Min(diff, stockCash), maxTradeCash);
      ActionRow(g, Buy, maxBuy, maxBuy, maxTradeCash, stockCash, triggered)
    else if diff < 0.0 then ActionRow(g, Sell, Abs(diff), 0.0, maxTradeCash, stockCash, triggered)
    else ActionRow(g, Hold, 0.0, 0.0, maxTradeCash, stockCash, triggered)
  }

  /**
   * The deviation row of group `g` given the normalized targets `t`, the
   * current value per group `cur` and the investable total: a group without a
   * holding reads 0, one without a target reads weight 0 and band 0.
   */
  function GroupDeviation(g: string, t: map<string, TargetEntry>, cur: map<string, real>, investable: real)
    : (r: DeviationRow)
    ensures r.group == g
    ensures g in cur ==> r.currentValue == cur[g]
    ensures g !in cur ==> r.currentValue == 0.0
    ensures g in t ==> r.targetWeight == t[g].w
    ensures g in t && r.targetValue > 0.0 ==> (r.triggered <==> Abs(r.diff) > r.targetValue * t[g].band)
    ensures g !in t ==> r.targetWeight == 0.0 && r.targetValue == 0.0 && !r.triggered
  {
    Deviation(g, if g in cur then cur[g] else 0.0, if g in t then t[g].w else 0.0, if g in t then t[g].band else 0.0, investable)
  }

  /** The action row of group `g`. */
  function GroupAction(g: string, t: map<string, TargetEntry>, cur: map<string, real>, investable: real,
                       stockCash: real, maxTradeCash: real): (a: ActionRow)
    ensures a.group == g && a.stockCash == stockCash && a.maxTradeCash == maxTradeCash
    ensures a.triggered == GroupDeviation(g, t, cur, investable).triggered
    ensures a.action == Buy <==> GroupDeviation(g, t, cur, investable).diff > 0.0
    ensures a.action == Sell <==> GroupDeviation(g, t, cur, investable).diff < 0.0
  {
    var d := GroupDeviation(g, t, cur, investable);
    ActionFor(g, d.diff, stockCash, maxTradeCash, d.triggered)
  }

  /** The deviation row of group `g` for the plan's own inputs. */
  function PlanDeviation(positions: seq<Position>, cash: Cash, targets: seq<TargetDecl>, includeOther: bool,
                         g: string): DeviationRow
  {
    GroupDeviation(g, Normalized(targets), GroupValues(positions), PortfolioSummary(positions, cash, includeOther).investableTotal)
  }

  /** The action row of group `g` for the plan's own inputs. */
  function PlanAction(positions: seq<Position>, cash: Cash, targets: seq<TargetDecl>, includeOther: bool, rules: Rules,
                      g: string): ActionRow
  {
    var s := PortfolioSummary(positions, cash, includeOther);
    GroupAction(g, Normalized(targets), GroupValues(positions), s.investableTotal, s.stockCash, MaxTradeCash(s.stockCash, rules))
  }

  // ---------------------------------------------------------------------
  // What a group's rows mean
  // ---------------------------------------------------------------------

  /** With a positive target, the band triggers exactly when the holding is outside target × (1 ± band). */
  lemma TriggeredIffOutsideBand(g: string, cur: real, w: real, band: real, investable: real)
    requires investable * w > 0.0
    ensures var r := Deviation(g, cur, w, band, investable);
            r.triggered <==> cur < r.targetValue - r.targetValue * band || cur > r.targetValue + r.targetValue * band
  {
  }

  /** The money gap is the weight gap in percentage points times the investable total, with the opposite sign. */
  lemma DiffIsWeightGap(g: string, cur: real, w: real, band: real, investable: real)
    requires investable != 0.0
    ensures var r := Deviation(g, cur, w, band, investable);
            r.diff == -(r.diffPctPoint * investable)
  {
    var r := Deviation(g, cur, w, band, investable);
    assert r.diffPctPoint * investable == r.currentWeight * investable - w * investable;
  }

  /**
   * Each action moves the holding toward its target: a sell brings it back
   * exactly, a buy never goes past it, and a hold means it is on target.
   */
  lemma ActionMovesTowardTarget(g: string, t: map<string, TargetEntry>, cur: map<string, real>, investable: real,
                                stockCash: real, maxTradeCash: real)
    ensures var d := GroupDeviation(g, t, cur, investable);
            var a := GroupAction(g, t, cur, investable, stockCash, maxTradeCash);
            && (a.action == Sell <==> d.currentValue > d.targetValue)
            && (a.action == Buy <==> d.currentValue < d.targetValue)
            && (a.action == Sell ==> d.currentValue - a.actionAmount == d.targetValue)
            && (a.action == Buy ==> d.currentValue + a.actionAmount <= d.targetValue)
            && (a.action == Hold ==> d.currentValue == d.targetValue)
  {
  }

  /** With non-negative stock cash and fraction, no action amount is negative. */
  lemma ActionAmountNonNegative(g: string, t: map<string, TargetEntry>, cur: map<string, real>, investable: real,
                                stockCash: real, rules: Rules)
    requires stockCash >= 0.0
    requires rules.maxTradeCashFraction.Some? ==> rules.maxTradeCashFraction.value >= 0.0
    ensures GroupAction(g, t, cur, investable, stockCash, MaxTradeCash(stockCash, rules)).actionAmount >= 0.0
  {
    if rules.maxTradeCashFraction.Some? {
      ProductNonNegative(stockCash, rules.maxTradeCashFraction.value);
    }
  }

  lemma ProductNonNegative(a: real, b: real)
    requires a >= 0.0 && b >= 0.0
    ensures a * b >= 0.0
  {
  }

  /** A held group without a target is never triggered and is sold in full. */
  lemma UnclassifiedHoldingSold(g: string, t: map<string, TargetEntry>, cur: map<string, real>, investable: real,
                                stockCash: real, maxTradeCash: real)
    requires g !in t
    requires g in cur && cur[g] > 0.0
    ensures var a := GroupAction(g, t, cur, investable, stockCash, maxTradeCash);
            a.action == Sell && a.actionAmount == cur[g] && !a.triggered
  {
  }

  /**
   * When the investable total is 0 every target value is 0: no group with a
   * non-negative holding is bought, every group with a positive holding is
   * sold, and a group with a negative holding is bought.
   */
  lemma ZeroInvestableActions(g: string, t: map<string, TargetEntry>, cur: map<string, real>,
                              stockCash: real, maxTradeCash: real)
    ensures var d := GroupDeviation(g, t, cur, 0.0);
            var a := GroupAction(g, t, cur, 0.0, stockCash, maxTradeCash);
            && d.targetValue == 0.0 && d.currentWeight == 0.0 && !d.triggered
            && (d.currentValue >= 0.0 ==> a.action != Buy)
            && (d.currentValue > 0.0 ==> a.action == Sell)
            && (d.currentValue < 0.0 ==> a.action == Buy)
  {
  }

  /**
   * With no short holding, no negative price and no negative cash, an
   * investable total of 0 means nothing is held: every group's diff is 0 and
   * its action is HOLD.
   */
  lemma ZeroInvestableHoldsOnWellFormedInput(positions: seq<Position>, cash: Cash, targets: seq<TargetDecl>,
                                             includeOther: bool, rules: Rules, g: string)
    requires forall i :: 0 <= i < |positions| ==> positions[i].shares >= 0.0 && positions[i].price >= 0.0
    requires cash.stockCash.Some? ==> cash.stockCash.value >= 0.0
    requires cash.otherFundsInvestable.Some? ==> cash.otherFundsInvestable.value >= 0.0
    requires PortfolioSummary(positions, cash, includeOther).investableTotal == 0.0
    ensures PlanDeviation(positions, cash, targets, includeOther, g).diff == 0.0
    ensures !PlanDeviation(positions, cash, targets, includeOther, g).triggered
    ensures PlanAction(positions, cash, targets, includeOther, rules, g).action == Hold
  {
    GroupTotalBounds(positions, g);
    var cur := GroupValues(positions);
    if g in cur {
      GroupValuesAreGroupTotals(positions, g);
    }
    assert TotalMarketValue(positions) == 0.0;
    assert (if g in cur then cur[g] else 0.0) == 0.0;
  }

  // ---------------------------------------------------------------------
  // Ordering of the two tables
  // ---------------------------------------------------------------------

  function Greater(a: real, b: real): bool { a > b }

  /** The deviation table's sort key. */
  function DiffMagnitude(r: DeviationRow): real { Abs(r.diff) }

  /** The action table's sort key. */
  function Urgency(r: ActionRow): (bool, real) { (r.triggered, r.actionAmount) }

  /** Python's order on the key (-triggered, -amount): triggered first, then the larger amount. */
  function MoreUrgent(x: (bool, real), y: (bool, real)): bool
  {
    (x.0 && !y.0) || (x.0 == y.0 && x.1 > y.1)
  }

  lemma GreaterIsStrictTotal()
    ensures StrictTotalOrder(Greater)
  {
  }

  lemma MoreUrgentIsStrictTotal()
    ensures StrictTotalOrder(MoreUrgent)
  {
  }

  function DeviationGroup(r: DeviationRow): string { r.group }

  function ActionGroup(r: ActionRow): string { r.group }

  /** The groups the plan covers: every target group and every held group, in increasing name order. */
  function PlanGroups(positions: seq<Position>, targets: seq<TargetDecl>): (gs: seq<string>)
    ensures forall i, j :: 0 <= i < j < |gs| ==> StrLess(gs[i], gs[j])
  {
    SortedSet(TableOrder(targets) + Distinct(GroupNames(positions)))
  }

  /** A group is planned exactly when it has a target or a holding. */
  lemma PlanGroupsAreTargetOrHeld(positions: seq<Position>, targets: seq<TargetDecl>, g: string)
    ensures g in PlanGroups(positions, targets) <==> g in Normalized(targets) || g in GroupValues(positions)
  {
    GroupValuesKeys(positions, g);
    assert g in TableOrder(targets) + Distinct(GroupNames(positions))
       <==> g in TableOrder(targets) || g in Distinct(GroupNames(positions));
  }

  // ---------------------------------------------------------------------
  // The plan
  // ---------------------------------------------------------------------

  /** The deviation rows of `groups`, in that order. */
  function DeviationTable(groups: seq<string>, t: map<string, TargetEntry>, cur: map<string, real>, investable: real)
    : (rows: seq<DeviationRow>)
    ensures |rows| == |groups|
    ensures forall j :: 0 <= j < |groups| ==> rows[j] == GroupDeviation(groups[j], t, cur, investable)
  {
    if |groups| == 0 then []
    else DeviationTable(groups[..|groups| - 1], t, cur, investable) + [GroupDeviation(groups[|groups| - 1], t, cur, investable)]
  }

  /** The action rows of `groups`, in that order. */
  function ActionTable(groups: seq<string>, t: map<string, TargetEntry>, cur: map<string, real>, investable: real,
                       stockCash: real, maxTradeCash: real): (rows: seq<ActionRow>)
    ensures |rows| == |groups|
    ensures forall j :: 0 <= j < |groups| ==> rows[j] == GroupAction(groups[j], t, cur, investable, stockCash, maxTradeCash)
  {
    if |groups| == 0 then []
    else ActionTable(groups[..|groups| - 1], t, cur, investable, stockCash, maxTradeCash)
         + [GroupAction(groups[|groups| - 1], t, cur, investable, stockCash, maxTradeCash)]
  }

  /**
   * The loop of `rebalance_plan`: one deviation row and one action row per
   * group, appended in the order of `groups`.
   */
  method GroupRows(groups: seq<string>, t: map<string, TargetEntry>, curByGroup: map<string, real>,
                   investable: real, stockCash: real, maxTradeCash: real)
    returns (deviationRows: seq<DeviationRow>, actionRows: seq<ActionRow>)
    ensures deviationRows == DeviationTable(groups, t, curByGroup, investable)
    ensures actionRows == ActionTable(groups, t, curByGroup, investable, stockCash, maxTradeCash)
  {
    deviationRows, actionRows := [], [];
    for i := 0 to |groups|
      invariant deviationRows == DeviationTable(groups[..i], t, curByGroup, investable)
      invariant actionRows == ActionTable(groups[..i], t, curByGroup, investable, stockCash, maxTradeCash)
    {
      var g := groups[i];
      assert groups[..i + 1][..i] == groups[..i];
      var cur := if g in curByGroup then curByGroup[g] else 0.0;
      var w := if g in t then t[g].w else 0.0;
      var band := if g in t then t[g].band else 0.0;
      var row := Deviation(g, cur, w, band, investable);
      deviationRows := deviationRows + [row];
      actionRows := actionRows + [ActionFor(g, row.diff, stockCash, maxTradeCash, row.triggered)];
    }
    assert groups[..|groups|] == groups;
  }

  /** The deviation table `rebalance_plan` returns: the rows of every planned group, largest |diff| first. */
  function DeviationReport(positions: seq<Position>, cash: Cash, targets: seq<TargetDecl>, includeOther: bool)
    : seq<DeviationRow>
  {
    GreaterIsStrictTotal();
    var rows := DeviationTable(PlanGroups(positions, targets), Normalized(targets), GroupValues(positions),
                               PortfolioSummary(positions, cash, includeOther).investableTotal);
    StableSort(rows, DiffMagnitude, Greater)
  }

  /** The action table `rebalance_plan` returns: triggered rows first, then the larger amount first. */
  function ActionReport(positions: seq<Position>, cash: Cash, targets: seq<TargetDecl>, includeOther: bool,
                        rules: Rules): seq<ActionRow>
  {
    MoreUrgentIsStrictTotal();
    var s := PortfolioSummary(positions, cash, includeOther);
    var rows := ActionTable(PlanGroups(positions, targets), Normalized(targets), GroupValues(positions),
                            s.investableTotal, s.stockCash, MaxTradeCash(s.stockCash, rules));
    StableSort(rows, Urgency, MoreUrgent)
  }

  /**
   * `rebalance_plan`: one deviation row and one action row per planned group,
   * built in group order, then sorted (stably) by |diff| descending and by
   * (triggered first, amount descending).
   */
  method RebalancePlan(positions: seq<Position>, cash: Cash, targets: seq<TargetDecl>, includeOther: bool, rules: Rules)
    returns (deviations: seq<DeviationRow>, actions: seq<ActionRow>)
    ensures deviations == DeviationReport(positions, cash, targets, includeOther)
    ensures actions == ActionReport(positions, cash, targets, includeOther, rules)
  {
    var summary := PortfolioSummary(positions, cash, includeOther);
    var investable := summary.investableTotal;
    var stockCash := summary.stockCash;
    var t := NormalizeTargets(targets);
    var curByGroup := GroupCurrentValues(positions);
    var maxTradeCash := MaxTradeCash(stockCash, rules);

    var allGroups := SortedSet(TableOrder(targets) + Distinct(GroupNames(positions)));
    var deviationRows, actionRows := GroupRows(allGroups, t, curByGroup, investable, stockCash, maxTradeCash);

    GreaterIsStrictTotal();
    deviations := StableSort(deviationRows, DiffMagnitude, Greater);
    MoreUrgentIsStrictTotal();
    actions := StableSort(actionRows, Urgency, MoreUrgent);
  }

  /**
   * The sorted deviation rows of groups given in increasing order: one row per
   * group, that group's own row.
   */
  lemma SortedDeviationTable(groups: seq<string>, t: map<string, TargetEntry>, cur: map<string, real>, investable: real,
                             rs: seq<DeviationRow>)
    requires forall i, j :: 0 <= i < j < |groups| ==> StrLess(groups[i], groups[j])
    requires StrictTotalOrder(Greater)
    requires rs == StableSort(DeviationTable(groups, t, cur, investable), DiffMagnitude, Greater)
    ensures |rs| == |groups|
    ensures forall g :: g in groups <==> exists i :: 0 <= i < |rs| && rs[i].group == g
    ensures forall i, j :: 0 <= i < j < |rs| ==> rs[i].group != rs[j].group
    ensures forall i :: 0 <= i < |rs| ==> rs[i] == GroupDeviation(rs[i].group, t, cur, investable)
  {
    var rows := DeviationTable(groups, t, cur, investable);
    var rowOf := g => GroupDeviation(g, t, cur, investable);
    assert forall j :: 0 <= j < |rows| ==> rows[j] == rowOf(groups[j]) && DeviationGroup(rows[j]) == groups[j];
    SortedTableRows(groups, rows, rs, DiffMagnitude, Greater, DeviationGroup, rowOf);
    forall i | 0 <= i < |rs|
      ensures rs[i] == GroupDeviation(rs[i].group, t, cur, investable)
    {
      assert rs[i] == rowOf(DeviationGroup(rs[i]));
    }
  }

  /**
   * The same sorted rows have the largest gap first, and equal gaps in
   * increasing group order.
   */
  lemma SortedDeviationOrder(groups: seq<string>, t: map<string, TargetEntry>, cur: map<string, real>, investable: real,
                             rs: seq<DeviationRow>)
    requires forall i, j :: 0 <= i < j < |groups| ==> StrLess(groups[i], groups[j])
    requires StrictTotalOrder(Greater)
    requires rs == StableSort(DeviationTable(groups, t, cur, investable), DiffMagnitude, Greater)
    ensures forall i, j :: 0 <= i < j < |rs| ==> Abs(rs[i].diff) >= Abs(rs[j].diff)
    ensures forall i, j :: 0 <= i < j < |rs| && Abs(rs[i].diff) == Abs(rs[j].diff) ==> StrLess(rs[i].group, rs[j].group)
  {
    var rows := DeviationTable(groups, t, cur, investable);
    assert forall j :: 0 <= j < |rows| ==> DeviationGroup(rows[j]) == groups[j];
    SortedTableTies(groups, rows, rs, DiffMagnitude, Greater, DeviationGroup);
    GapOrder(rs);
  }

  /**
   * The deviation table holds exactly one row per planned group, that group's
   * own row, with the largest gap first and equal gaps in increasing group order.
   */
  lemma DeviationReportFacts(positions: seq<Position>, cash: Cash, targets: seq<TargetDecl>, includeOther: bool,
                             rs: seq<DeviationRow>)
    requires rs == DeviationReport(positions, cash, targets, includeOther)
    ensures |rs| == |PlanGroups(positions, targets)|
    ensures forall g :: g in PlanGroups(positions, targets) <==> exists i :: 0 <= i < |rs| && rs[i].group == g
    ensures forall i, j :: 0 <= i < j < |rs| ==> rs[i].group != rs[j].group
    ensures forall i :: 0 <= i < |rs| ==> rs[i] == PlanDeviation(positions, cash, targets, includeOther, rs[i].group)
    ensures forall i, j :: 0 <= i < j < |rs| ==> Abs(rs[i].diff) >= Abs(rs[j].diff)
    ensures forall i, j :: 0 <= i < j < |rs| && Abs(rs[i].diff) == Abs(rs[j].diff) ==> StrLess(rs[i].group, rs[j].group)
  {
    var t, cur := Normalized(targets), GroupValues(positions);
    var investable := PortfolioSummary(positions, cash, includeOther).investableTotal;
    GreaterIsStrictTotal();
    SortedDeviationTable(PlanGroups(positions, targets), t, cur, investable, rs);
    SortedDeviationOrder(PlanGroups(positions, targets), t, cur, investable, rs);
  }

  /**
   * The sorted action rows of groups given in increasing order: one row per
   * group, that group's own row.
   */
  lemma SortedActionTable(groups: seq<string>, t: map<string, TargetEntry>, cur: map<string, real>, investable: real,
                          stockCash: real, m: real, rs: seq<ActionRow>)
    requires forall i, j :: 0 <= i < j < |groups| ==> StrLess(groups[i], groups[j])
    requires StrictTotalOrder(MoreUrgent)
    requires rs == StableSort(ActionTable(groups, t, cur, investable, stockCash, m), Urgency, MoreUrgent)
    ensures |rs| == |groups|
    ensures forall g :: g in groups <==> exists i :: 0 <= i < |rs| && rs[i].group == g
    ensures forall i, j :: 0 <= i < j < |rs| ==> rs[i].group != rs[j].group
    ensures forall i :: 0 <= i < |rs| ==> rs[i] == GroupAction(rs[i].group, t, cur, investable, stockCash, m)
  {
    var rows := ActionTable(groups, t, cur, investable, stockCash, m);
    var rowOf := g => GroupAction(g, t, cur, investable, stockCash, m);
    assert forall j :: 0 <= j < |rows| ==> rows[j] == rowOf(groups[j]) && ActionGroup(rows[j]) == groups[j];
    SortedTableRows(groups, rows, rs, Urgency, MoreUrgent, ActionGroup, rowOf);
    forall i | 0 <= i < |rs|
      ensures rs[i] == GroupAction(rs[i].group, t, cur, investable, stockCash, m)
    {
      assert rs[i] == rowOf(ActionGroup(rs[i]));
    }
  }

  /**
   * The same sorted rows are in decreasing urgency, and full ties in
   * increasing group order.
   */
  lemma SortedActionOrder(groups: seq<string>, t: map<string, TargetEntry>, cur: map<string, real>, investable: real,
                          stockCash: real, m: real, rs: seq<ActionRow>)
    requires forall i, j :: 0 <= i < j < |groups| ==> StrLess(groups[i], groups[j])
    requires StrictTotalOrder(MoreUrgent)
    requires rs == StableSort(ActionTable(groups, t, cur, investable, stockCash, m), Urgency, MoreUrgent)
    ensures SortedBy(rs, Urgency, MoreUrgent)
    ensures forall i, j :: 0 <= i < j < |rs| && Urgency(rs[i]) == Urgency(rs[j]) ==> StrLess(rs[i].group, rs[j].group)
  {
    var rows := ActionTable(groups, t, cur, investable, stockCash, m);
    assert forall j :: 0 <= j < |rows| ==> ActionGroup(rows[j]) == groups[j];
    SortedTableTies(groups, rows, rs, Urgency, MoreUrgent, ActionGroup);
  }

  /**
   * The action table holds exactly one row per planned group, that group's own
   * row; triggered rows come first, larger amounts first among rows alike in
   * that, and full ties in increasing group order.
   */
  lemma ActionReportFacts(positions: seq<Position>, cash: Cash, targets: seq<TargetDecl>, includeOther: bool, rules: Rules,
                          rs: seq<ActionRow>)
    requires rs == ActionReport(positions, cash, targets, includeOther, rules)
    ensures |rs| == |PlanGroups(positions, targets)|
    ensures forall g :: g in PlanGroups(positions, targets) <==> exists i :: 0 <= i < |rs| && rs[i].group == g
    ensures forall i, j :: 0 <= i < j < |rs| ==> rs[i].group != rs[j].group
    ensures forall i :: 0 <= i < |rs| ==> rs[i] == PlanAction(positions, cash, targets, includeOther, rules, rs[i].group)
    ensures forall i, j :: 0 <= i < j < |rs| && rs[j].triggered ==> rs[i].triggered
    ensures forall i, j :: 0 <= i < j < |rs| && rs[i].triggered == rs[j].triggered ==> rs[i].actionAmount >= rs[j].actionAmount
    ensures forall i, j :: 0 <= i < j < |rs| && Urgency(rs[i]) == Urgency(rs[j]) ==> StrLess(rs[i].group, rs[j].group)
  {
    var s := PortfolioSummary(positions, cash, includeOther);
    MoreUrgentIsStrictTotal();
    SortedActionTable(PlanGroups(positions, targets), Normalized(targets), GroupValues(positions),
                      s.investableTotal, s.stockCash, MaxTradeCash(s.stockCash, rules), rs);
    SortedActionOrder(PlanGroups(positions, targets), Normalized(targets), GroupValues(positions),
                      s.investableTotal, s.stockCash, MaxTradeCash(s.stockCash, rules), rs);
    UrgencyOrder(rs);
  }

  /** A table sorted by the gap's magnitude, largest first, has non-increasing abs(diff). */
  lemma GapOrder(rs: seq<DeviationRow>)
    requires SortedBy(rs, DiffMagnitude, Greater)
    ensures forall i, j :: 0 <= i < j < |rs| ==> Abs(rs[i].diff) >= Abs(rs[j].diff)
  {
    forall i, j | 0 <= i < j < |rs|
      ensures Abs(rs[i].diff) >= Abs(rs[j].diff)
    {
      assert !Greater(DiffMagnitude(rs[j]), DiffMagnitude(rs[i]));
    }
  }

  /** A table sorted by urgency has its triggered rows first and, among rows alike in that, the larger amount first. */
  lemma UrgencyOrder(rs: seq<ActionRow>)
    requires SortedBy(rs, Urgency, MoreUrgent)
    ensures forall i, j :: 0 <= i < j < |rs| && rs[j].triggered ==> rs[i].triggered
    ensures forall i, j :: 0 <= i < j < |rs| && rs[i].triggered == rs[j].triggered ==> rs[i].actionAmount >= rs[j].actionAmount
  {
    forall i, j | 0 <= i < j < |rs|
      ensures rs[j].triggered ==> rs[i].triggered
      ensures rs[i].triggered == rs[j].triggered ==> rs[i].actionAmount >= rs[j].actionAmount
    {
      assert !MoreUrgent(Urgency(rs[j]), Urgency(rs[i]));
    }
  }

  /**
   * What a stable sort keeps of a table with one row per group, built in
   * increasing group order: the same rows, one per group.
   */
  lemma SortedTableRows<T(!new), K(!new)>(groups: seq<string>, rows: seq<T>, sorted: seq<T>, key: T -> K,
                                           lt: (K, K) -> bool, group: T -> string, rowOf: string -> T)
    requires forall i, j :: 0 <= i < j < |groups| ==> StrLess(groups[i], groups[j])
    requires |rows| == |groups|
    requires forall j :: 0 <= j < |rows| ==> rows[j] == rowOf(groups[j]) && group(rows[j]) == groups[j]
    requires StrictTotalOrder(lt)
    requires sorted == StableSort(rows, key, lt)
    ensures |sorted| == |groups|
    ensures forall g :: g in groups <==> exists i :: 0 <= i < |sorted| && group(sorted[i]) == g
    ensures forall i, j :: 0 <= i < j < |sorted| ==> group(sorted[i]) != group(sorted[j])
    ensures forall i :: 0 <= i < |sorted| ==> sorted[i] == rowOf(group(sorted[i]))
  {
    assert multiset(sorted) == multiset(rows);
    assert |sorted| == |rows| by {
      assert |multiset(sorted)| == |multiset(rows)|;
    }
    forall g | g in groups
      ensures exists i :: 0 <= i < |sorted| && group(sorted[i]) == g
    {
      var j :| 0 <= j < |groups| && groups[j] == g;
      assert rows[j] in multiset(sorted);
      var i :| 0 <= i < |sorted| && sorted[i] == rows[j];
    }
    forall i | 0 <= i < |sorted|
      ensures group(sorted[i]) in groups
      ensures sorted[i] == rowOf(group(sorted[i]))
    {
      assert sorted[i] in multiset(rows);
    }
    forall i, j | 0 <= i < j < |rows|
      ensures group(rows[i]) != group(rows[j])
    {
      StrLessIrreflexive(groups[i]);
    }
    DistinctKeysPermutation(rows, sorted, group);
  }

  /**
   * A stable sort of a table built in increasing group order is sorted by its
   * key and leaves rows with equal keys in increasing group order.
   */
  lemma SortedTableTies<T(!new), K(!new)>(groups: seq<string>, rows: seq<T>, sorted: seq<T>, key: T -> K,
                                           lt: (K, K) -> bool, group: T -> string)
    requires forall i, j :: 0 <= i < j < |groups| ==> StrLess(groups[i], groups[j])
    requires |rows| == |groups|
    requires forall j :: 0 <= j < |rows| ==> group(rows[j]) == groups[j]
    requires StrictTotalOrder(lt)
    requires sorted == StableSort(rows, key, lt)
    ensures SortedBy(sorted, key, lt)
    ensures forall i, j :: 0 <= i < j < |sorted| && key(sorted[i]) == key(sorted[j]) ==>
              StrLess(group(sorted[i]), group(sorted[j]))
  {
    var before := (x: T, y: T) => StrLess(group(x), group(y));
    assert ChainedBy(rows, before);
    StableTieBreak(rows, sorted, key, before);
  }
}
