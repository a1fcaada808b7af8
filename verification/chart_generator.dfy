/** The numeric content of the `ChartGenerator` class: the year-over-year
    comparison table of one company, and which companies the trend chart
    draws a line for. Figure layout and number formatting are not modelled. */
module ChartGenerator {
  import opened Wrappers
  import opened Sequences
  import opened FinancialData

  // ---------------------------------------------------------------------------
  // Comparison table
  // ---------------------------------------------------------------------------

  /** One line of the comparison table: the metric's display label, its value
      in the chosen year and in the year before, the change and the change in
      percent of the prior value. */
  datatype ComparisonRow = ComparisonRow(indicator: string, current: real, prior: real, change: real, percent: real)

  /** `change / prior * 100`, with 0 in place of the division by zero. */
  function PercentChange(change: real, prior: real): (p: real)
    ensures prior == 0.0 ==> p == 0.0
    ensures prior != 0.0 ==> p * prior == change * 100.0
  {
    if prior != 0.0 then change / prior * 100.0 else 0.0
  }

  /** The catalog entries whose metric the table can compare: a column with a
      number in both rows. */
  function Numeric(columns: set<string>, current: Record, prior: Record): ((string, string)) -> bool {
    (entry: (string, string)) => Change(columns, current, prior, entry.0).Some?
  }

  /** The table line of a comparable catalog entry. */
  function MakeRow(columns: set<string>, current: Record, prior: Record, entry: (string, string)): (row: ComparisonRow)
    requires Change(columns, current, prior, entry.0).Some?
    ensures row.indicator == entry.1
    ensures row.current == Cell(current, entry.0).value && row.prior == Cell(prior, entry.0).value
    ensures row.change == row.current - row.prior
    ensures row.prior == 0.0 ==> row.percent == 0.0
    ensures row.prior != 0.0 ==> row.percent * row.prior == row.change * 100.0
  {
    var change := Change(columns, current, prior, entry.0).value;
    var priorValue := Cell(prior, entry.0).value;
    ComparisonRow(entry.1, Cell(current, entry.0).value, priorValue, change, PercentChange(change, priorValue))
  }

  /** The loop over the catalog: a line for every comparable metric, skipping
      the others. */
  function Rows(catalog: seq<(string, string)>, columns: set<string>, current: Record, prior: Record)
    : (rows: seq<ComparisonRow>)
    ensures |rows| <= |catalog|
    decreases |catalog|
  {
    if |catalog| == 0 then []
    else
      var init, entry := catalog[..|catalog| - 1], catalog[|catalog| - 1];
      Rows(init, columns, current, prior)
        + (if Change(columns, current, prior, entry.0).Some? then [MakeRow(columns, current, prior, entry)] else [])
  }

  /** The table is exactly one line per comparable catalog entry, in catalog
      order: the `k`-th line is made from the `k`-th comparable entry. */
  lemma {:induction false} RowsFollowCatalog(catalog: seq<(string, string)>, columns: set<string>,
                                             current: Record, prior: Record)
    ensures var kept := Filter(catalog, Numeric(columns, current, prior));
            var rows := Rows(catalog, columns, current, prior);
            && |rows| == |kept|
            && forall k :: 0 <= k < |kept| ==>
                 && kept[k] in catalog
                 && Change(columns, current, prior, kept[k].0).Some?
                 && rows[k] == MakeRow(columns, current, prior, kept[k])
    decreases |catalog|
  {
    if |catalog| > 0 {
      var p := Numeric(columns, current, prior);
      var init, entry := catalog[..|catalog| - 1], catalog[|catalog| - 1];
      RowsFollowCatalog(init, columns, current, prior);
      var kept, keptInit := Filter(catalog, p), Filter(init, p);
      var rows, rowsInit := Rows(catalog, columns, current, prior), Rows(init, columns, current, prior);
      assert catalog == init + [entry];
      assert kept == keptInit + (if p(entry) then [entry] else []);
      forall k | 0 <= k < |kept|
        ensures kept[k] in catalog && Change(columns, current, prior, kept[k].0).Some?
        ensures rows[k] == MakeRow(columns, current, prior, kept[k])
      {
        assert kept[k] in kept;
        if k < |keptInit| {
          assert kept[k] == keptInit[k] && rows[k] == rowsInit[k];
        }
      }
    }
  }

  /** `generate_comparison_table` on an integer year: the comparison of the
      company's row for `year` with its row for the year before; empty for an
      unknown company or when either row is missing. */
  function ComparisonTable(t: Table, companyName: string, year: int): (rows: seq<ComparisonRow>)
    ensures CompanyCode(companyName).None? ==> rows == []
    ensures CompanyCode(companyName).Some? ==>
              var code := CompanyCode(companyName).value;
              !HasRow(t, code, year) || !HasRow(t, code, year - 1) ==> rows == []
    ensures |rows| <= |MetricCatalog|
  {
    match CompanyCode(companyName)
    case None => []
    case Some(code) =>
      match RowPair(t, code, year)
      case None => []
      case Some((current, prior)) => Rows(MetricCatalog, t.columns, current, prior)
  }

  /** When both years have a row, the table holds one line per catalog metric
      numeric in both rows, in catalog order, each made by `MakeRow` from the
      values of the two rows. */
  lemma ComparisonTableContents(t: Table, companyName: string, year: int)
    requires CompanyCode(companyName).Some?
    requires HasRow(t, CompanyCode(companyName).value, year) && HasRow(t, CompanyCode(companyName).value, year - 1)
    ensures var code := CompanyCode(companyName).value;
            var current, prior := RowPair(t, code, year).value.0, RowPair(t, code, year).value.1;
            var kept := Filter(MetricCatalog, Numeric(t.columns, current, prior));
            var rows := ComparisonTable(t, companyName, year);
            && current in t.rows && current.code == code && current.year == year
            && prior in t.rows && prior.code == code && prior.year == year - 1
            && |rows| == |kept|
            && forall k :: 0 <= k < |kept| ==>
                 && kept[k] in MetricCatalog
                 && Change(t.columns, current, prior, kept[k].0).Some?
                 && rows[k] == MakeRow(t.columns, current, prior, kept[k])
                 && rows[k].indicator == kept[k].1
                 && rows[k].current == Cell(current, kept[k].0).value
                 && rows[k].prior == Cell(prior, kept[k].0).value
                 && rows[k].change == rows[k].current - rows[k].prior
  {
    var code := CompanyCode(companyName).value;
    var current, prior := RowPair(t, code, year).value.0, RowPair(t, code, year).value.1;
    assert ComparisonTable(t, companyName, year) == Rows(MetricCatalog, t.columns, current, prior);
    CatalogLines(t.columns, current, prior);
  }

  /** The lines made from the whole catalog for two rows, entry by entry. */
  lemma CatalogLines(columns: set<string>, current: Record, prior: Record)
    ensures var kept := Filter(MetricCatalog, Numeric(columns, current, prior));
            var rows := Rows(MetricCatalog, columns, current, prior);
            && |rows| == |kept|
            && forall k :: 0 <= k < |kept| ==>
                 && kept[k] in MetricCatalog
                 && Change(columns, current, prior, kept[k].0).Some?
                 && rows[k] == MakeRow(columns, current, prior, kept[k])
                 && rows[k].indicator == kept[k].1
                 && rows[k].current == Cell(current, kept[k].0).value
                 && rows[k].prior == Cell(prior, kept[k].0).value
                 && rows[k].change == rows[k].current - rows[k].prior
  {
    RowsFollowCatalog(MetricCatalog, columns, current, prior);
  }

  // ---------------------------------------------------------------------------
  // Trend chart
  // ---------------------------------------------------------------------------

  /** One line of the trend chart: the company name and its series. */
  datatype Trace = Trace(company: string, points: seq<(string, real)>)

  /** Each selected company with its series, in selection order. */
  function CompanySeries(t: Table, companies: seq<string>, metric: string, yearsRange: int): (all: seq<Trace>)
    ensures |all| == |companies|
    ensures forall i :: 0 <= i < |companies| ==> all[i] == Trace(companies[i], SeriesFor(t, companies[i], metric, yearsRange))
  {
    seq(|companies|, i requires 0 <= i < |companies| => Trace(companies[i], SeriesFor(t, companies[i], metric, yearsRange)))
  }

  predicate HasPoints(trace: Trace) {
    trace.points != []
  }

  /** The lines drawn for the given company series: those with points, in
      order; `None` when there is none and the chart is not drawn. */
  function Drawn(all: seq<Trace>): (traces: Option<seq<Trace>>)
    ensures traces.None? <==> forall i :: 0 <= i < |all| ==> all[i].points == []
    ensures traces.Some? ==> forall trace :: trace in traces.value <==> trace in all && trace.points != []
    ensures traces.Some? ==> Subseq(traces.value, all)
    ensures traces.Some? ==>
              forall trace :: multiset(traces.value)[trace] == if trace.points != [] then multiset(all)[trace] else 0
  {
    var drawn := Filter(all, HasPoints);
    FilterSubseq(all, HasPoints);
    FilterCount(all, HasPoints);
    if |drawn| == 0 then
      assert forall i :: 0 <= i < |all| ==> all[i] !in drawn;
      None
    else
      assert drawn[0] in drawn;
      Some(drawn)
  }

  /** The lines `generate_line_chart` draws, one per selected company with a
      non-empty series, in selection order; `None` when no company has data,
      and `None` for a metric outside the catalog, whose title lookup raises. */
  function LineChartTraces(t: Table, companies: seq<string>, metric: string, yearsRange: int): (traces: Option<seq<Trace>>)
    ensures Lookup(MetricCatalog, metric).None? ==> traces.None?
    ensures Lookup(MetricCatalog, metric).Some? ==>
              var all := CompanySeries(t, companies, metric, yearsRange);
              && (traces.None? <==> forall i :: 0 <= i < |all| ==> all[i].points == [])
              && (traces.Some? ==> forall trace :: trace in traces.value <==> trace in all && trace.points != [])
              && (traces.Some? ==> Subseq(traces.value, all))
              && (traces.Some? ==> forall trace :: multiset(traces.value)[trace] ==
                                     if trace.points != [] then multiset(all)[trace] else 0)
  {
    if Lookup(MetricCatalog, metric).None? then None
    else Drawn(CompanySeries(t, companies, metric, yearsRange))
  }
}
