/**
 * The positions report (`positions_report` in portfolio_module/portfolio.py):
 * one row per ticker, taken from the first position carrying it, sorted by
 * unrealized P&L and then by ticker, both descending.
 */
module Report {
  import opened Ordering
  import opened Positions

  /** One row of the report: a position's fields and its four derived quantities. */
  datatype ReportRow = ReportRow(
    ticker: string,
    group: string,
    shares: real,
    cost: real,
    price: real,
    costValue: real,
    marketValue: real,
    unrealizedPnl: real,
    unrealizedPnlPct: real)

  /** The report row of one position: its own fields and valuations, with P&L equal to market value minus cost value. */
  function RowOf(p: Position): (r: ReportRow)
    ensures r.ticker == p.ticker && r.group == p.group
    ensures r.shares == p.shares && r.cost == p.cost && r.price == p.price
    ensures r.marketValue == p.MarketValue() && r.costValue == p.CostValue()
    ensures r.unrealizedPnl == p.UnrealizedPnl() && r.unrealizedPnlPct == p.UnrealizedPnlPct()
    ensures r.unrealizedPnl == r.marketValue - r.costValue
    ensures r.unrealizedPnlPct == 0.0 <==> r.costValue == 0.0 || r.marketValue == r.costValue
  {
    ReportRow(p.ticker, p.group, p.shares, p.cost, p.price,
              p.CostValue(), p.MarketValue(), p.UnrealizedPnl(), p.UnrealizedPnlPct())
  }

  function TickerOf(r: ReportRow): string { r.ticker }

  /** The set of tickers of `ps`. */
  function Tickers(ps: seq<Position>): set<string>
  {
    if |ps| == 0 then {} else Tickers(ps[..|ps| - 1]) + {ps[|ps| - 1].ticker}
  }

  /** A ticker is in the set exactly when some position carries it. */
  lemma {:induction false} TickersHeld(ps: seq<Position>)
    ensures forall x :: x in Tickers(ps) <==> exists i :: 0 <= i < |ps| && ps[i].ticker == x
  {
    if |ps| > 0 {
      var init := ps[..|ps| - 1];
      TickersHeld(init);
      assert forall i :: 0 <= i < |init| ==> init[i] == ps[i];
    }
  }

  /** The position of index `k` is the first one carrying its ticker. */
  ghost predicate FirstOfTicker(ps: seq<Position>, k: int)
    requires 0 <= k < |ps|
  {
    forall j :: 0 <= j < k ==> ps[j].ticker != ps[k].ticker
  }

  /** `x` is the first position of `ps` carrying its ticker. */
  ghost predicate FirstHolding(ps: seq<Position>, x: Position)
  {
    exists k :: 0 <= k < |ps| && FirstOfTicker(ps, k) && x == ps[k]
  }

  /** Some element of `fs` carries ticker `x`. */
  ghost predicate CarriesTicker(fs: seq<Position>, x: string)
  {
    exists i :: 0 <= i < |fs| && fs[i].ticker == x
  }

  /** The positions the loop of `positions_report` keeps: the first one of each ticker, in order. */
  function FirstPositions(ps: seq<Position>): (fs: seq<Position>)
    ensures |fs| <= |ps|
  {
    if |ps| == 0 then []
    else
      var init, p := ps[..|ps| - 1], ps[|ps| - 1];
      if p.ticker in Tickers(init) then FirstPositions(init) else FirstPositions(init) + [p]
  }

  /** The report row of every position of `ps`, in order. */
  function Rows(ps: seq<Position>): (rows: seq<ReportRow>)
    ensures |rows| == |ps|
    ensures forall i :: 0 <= i < |ps| ==> rows[i] == RowOf(ps[i])
  {
    if |ps| == 0 then [] else Rows(ps[..|ps| - 1]) + [RowOf(ps[|ps| - 1])]
  }

  /** Larger unrealized P&L first, then the larger ticker: Python's `reverse=True` on `(pnl, ticker)`. */
  function Ahead(x: (real, string), y: (real, string)): bool
  {
    x.0 > y.0 || (x.0 == y.0 && StrLess(y.1, x.1))
  }

  function PnlKey(r: ReportRow): (real, string) { (r.unrealizedPnl, r.ticker) }

  lemma AheadIsStrictTotal()
    ensures StrictTotalOrder(Ahead)
  {
    StrLessIsStrictTotal();
  }

  /** Reference definition of `positions_report`. */
  function PositionsReportOf(ps: seq<Position>): seq<ReportRow>
  {
    AheadIsStrictTotal();
    StableSort(Rows(FirstPositions(ps)), PnlKey, Ahead)
  }

  /**
   * `positions_report`: skip every position whose ticker was seen before,
   * collect one row for each of the others, then sort the rows.
   */
  method PositionsReport(positions: seq<Position>) returns (result: seq<ReportRow>)
    ensures result == PositionsReportOf(positions)
  {
    var seen: set<string> := {};
    result := [];
    for i := 0 to |positions|
      invariant seen == Tickers(positions[..i])
      invariant result == Rows(FirstPositions(positions[..i]))
    {
      var p := positions[i];
      assert positions[..i + 1][..i] == positions[..i];
      if p.ticker in seen {
        continue;
      }
      seen := seen + {p.ticker};
      result := result + [RowOf(p)];
    }
    assert positions[..|positions|] == positions;
    AheadIsStrictTotal();
    result := StableSort(result, PnlKey, Ahead);
  }

  /** As many positions are kept as there are tickers. */
  lemma {:induction false} FirstPositionsCount(ps: seq<Position>)
    ensures |FirstPositions(ps)| == |Tickers(ps)|
  {
    if |ps| > 0 {
      var init, p := ps[..|ps| - 1], ps[|ps| - 1];
      FirstPositionsCount(init);
      var ts0 := Tickers(init);
      assert Tickers(ps) == ts0 + {p.ticker};
      if p.ticker in ts0 {
        assert FirstPositions(ps) == FirstPositions(init);
        assert Tickers(ps) == ts0;
      } else {
        assert FirstPositions(ps) == FirstPositions(init) + [p];
        assert |ts0 + {p.ticker}| == |ts0| + 1;
      }
    }
  }

  /** Every ticker held is carried by a kept position, and only those. */
  lemma {:induction false} FirstPositionsCover(ps: seq<Position>)
    ensures forall x :: x in Tickers(ps) <==> CarriesTicker(FirstPositions(ps), x)
  {
    if |ps| > 0 {
      var init, p := ps[..|ps| - 1], ps[|ps| - 1];
      var fs, fs0 := FirstPositions(ps), FirstPositions(init);
      FirstPositionsCover(init);
      assert Tickers(ps) == Tickers(init) + {p.ticker};
      if p.ticker in Tickers(init) {
        assert fs == fs0;
      } else {
        assert fs == fs0 + [p];
        forall x
          ensures x in Tickers(ps) <==> CarriesTicker(fs, x)
        {
          if x == p.ticker {
            assert fs[|fs0|].ticker == x;
          } else {
            if CarriesTicker(fs0, x) {
              var i :| 0 <= i < |fs0| && fs0[i].ticker == x;
              assert fs[i].ticker == x;
            }
            if CarriesTicker(fs, x) {
              var i :| 0 <= i < |fs| && fs[i].ticker == x;
              assert fs0[i].ticker == x;
            }
          }
        }
      }
    }
  }

  /** No two kept positions carry the same ticker. */
  lemma {:induction false} FirstPositionsDistinct(ps: seq<Position>, fs: seq<Position>)
    requires fs == FirstPositions(ps)
    ensures forall i, j :: 0 <= i < j < |fs| ==> fs[i].ticker != fs[j].ticker
  {
    if |ps| > 0 {
      var init, p := ps[..|ps| - 1], ps[|ps| - 1];
      var fs0 := FirstPositions(init);
      FirstPositionsDistinct(init, fs0);
      if p.ticker in Tickers(init) {
        assert fs == fs0;
      } else {
        FirstPositionsCover(init);
        assert fs == fs0 + [p];
        forall i, j | 0 <= i < j < |fs|
          ensures fs[i].ticker != fs[j].ticker
        {
          if j == |fs0| {
            assert CarriesTicker(fs0, fs0[i].ticker);
            assert fs[i] == fs0[i] && fs[j] == p;
          } else {
            assert fs[i] == fs0[i] && fs[j] == fs0[j];
          }
        }
      }
    }
  }

  /** Each kept position is the first one carrying its ticker. */
  lemma {:induction false} FirstPositionsAreFirst(ps: seq<Position>, fs: seq<Position>)
    requires fs == FirstPositions(ps)
    ensures forall i :: 0 <= i < |fs| ==> FirstHolding(ps, fs[i])
  {
    if |ps| > 0 {
      var init, p := ps[..|ps| - 1], ps[|ps| - 1];
      var fs0 := FirstPositions(init);
      FirstPositionsAreFirst(init, fs0);
      assert fs == if p.ticker in Tickers(init) then fs0 else fs0 + [p];
      forall i | 0 <= i < |fs|
        ensures FirstHolding(ps, fs[i])
      {
        if i < |fs0| {
          var k :| 0 <= k < |init| && FirstOfTicker(init, k) && fs0[i] == init[k];
          forall j | 0 <= j < k
            ensures ps[j].ticker != ps[k].ticker
          {
            assert ps[j] == init[j] && ps[k] == init[k];
          }
          assert FirstOfTicker(ps, k) && fs[i] == ps[k];
        } else {
          TickersHeld(init);
          forall j | 0 <= j < |init|
            ensures ps[j].ticker != p.ticker
          {
            assert ps[j] == init[j];
          }
          assert FirstOfTicker(ps, |ps| - 1) && fs[i] == ps[|ps| - 1];
        }
      }
    }
  }

  /** A permutation of the rows of `fs` holds the row of every position of `fs`, and only those. */
  lemma {:induction false} PermutedRows(fs: seq<Position>, rs: seq<ReportRow>)
    requires multiset(rs) == multiset(Rows(fs))
    ensures |rs| == |fs|
    ensures forall x :: CarriesTicker(fs, x) <==> exists i :: 0 <= i < |rs| && rs[i].ticker == x
    ensures forall i :: 0 <= i < |rs| ==> exists j :: 0 <= j < |fs| && rs[i] == RowOf(fs[j])
  {
    var rows := Rows(fs);
    assert |rs| == |rows| by {
      assert |multiset(rs)| == |multiset(rows)|;
    }
    forall i | 0 <= i < |rs|
      ensures exists j :: 0 <= j < |fs| && rs[i] == RowOf(fs[j])
    {
      assert rs[i] in multiset(rows);
      var j :| 0 <= j < |rows| && rows[j] == rs[i];
    }
    forall x | CarriesTicker(fs, x)
      ensures exists i :: 0 <= i < |rs| && rs[i].ticker == x
    {
      var j :| 0 <= j < |fs| && fs[j].ticker == x;
      assert rows[j] in multiset(rs);
      var i :| 0 <= i < |rs| && rs[i] == rows[j];
    }
    forall i | 0 <= i < |rs|
      ensures CarriesTicker(fs, rs[i].ticker)
    {
      var j :| 0 <= j < |fs| && rs[i] == RowOf(fs[j]);
    }
  }

  /**
   * Stably sorting rows with pairwise distinct tickers permutes them, keeps
   * the tickers distinct and orders the rows strictly by descending (P&L, ticker).
   */
  lemma SortedReportRows(rows: seq<ReportRow>, rs: seq<ReportRow>)
    requires forall i, j :: 0 <= i < j < |rows| ==> rows[i].ticker != rows[j].ticker
    requires StrictTotalOrder(Ahead)
    requires rs == StableSort(rows, PnlKey, Ahead)
    ensures multiset(rs) == multiset(rows)
    ensures forall i, j :: 0 <= i < j < |rs| ==> rs[i].ticker != rs[j].ticker
    ensures forall i, j :: 0 <= i < j < |rs| ==> Ahead(PnlKey(rs[i]), PnlKey(rs[j]))
  {
    assert forall i, j :: 0 <= i < j < |rs| ==> rs[i].ticker != rs[j].ticker by {
      forall i, j | 0 <= i < j < |rows|
        ensures TickerOf(rows[i]) != TickerOf(rows[j])
      {
      }
      DistinctKeysPermutation(rows, rs, TickerOf);
    }
    SortedDistinctIsStrict(rs, PnlKey, Ahead);
  }

  /**
   * The report holds one row per ticker held, each the row of the first
   * position carrying that ticker, in strictly descending (P&L, ticker) order.
   */
  lemma {:induction false} PositionsReportFacts(ps: seq<Position>, rs: seq<ReportRow>)
    requires rs == PositionsReportOf(ps)
    ensures |rs| == |Tickers(ps)|
    ensures forall x :: x in Tickers(ps) <==> exists i :: 0 <= i < |rs| && rs[i].ticker == x
    ensures forall i, j :: 0 <= i < j < |rs| ==> rs[i].ticker != rs[j].ticker
    ensures forall i :: 0 <= i < |rs| ==> exists k :: 0 <= k < |ps| && FirstOfTicker(ps, k) && rs[i] == RowOf(ps[k])
    ensures forall i, j :: 0 <= i < j < |rs| ==>
              rs[i].unrealizedPnl > rs[j].unrealizedPnl
              || (rs[i].unrealizedPnl == rs[j].unrealizedPnl && StrLess(rs[j].ticker, rs[i].ticker))
  {
    var fs := FirstPositions(ps);
    FirstPositionsCount(ps);
    FirstPositionsCover(ps);
    FirstPositionsDistinct(ps, fs);
    AheadIsStrictTotal();
    SortedReportRows(Rows(fs), rs);
    PermutedRows(fs, rs);
    forall i | 0 <= i < |rs|
      ensures exists k :: 0 <= k < |ps| && FirstOfTicker(ps, k) && rs[i] == RowOf(ps[k])
    {
      var j :| 0 <= j < |fs| && rs[i] == RowOf(fs[j]);
      FirstPositionsAreFirst(ps, fs);
      assert FirstHolding(ps, fs[j]);
    }
    forall i, j | 0 <= i < j < |rs|
      ensures rs[i].unrealizedPnl > rs[j].unrealizedPnl
              || (rs[i].unrealizedPnl == rs[j].unrealizedPnl && StrLess(rs[j].ticker, rs[i].ticker))
    {
      assert Ahead(PnlKey(rs[i]), PnlKey(rs[j]));
    }
  }

}
