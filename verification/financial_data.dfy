/** The `FinancialData` class of the dashboard: the loaded table of yearly
    financial ratios, the fixed company directory and metric tables, and the
    queries the page makes of them (company codes, the year list, a company's
    recent series for one metric, and the risk/highlight narrative). */
module FinancialData {
  import opened Wrappers
  import opened Sequences
  import opened Text

  // ---------------------------------------------------------------------------
  // The loaded table
  // ---------------------------------------------------------------------------

  /** One row of the table: company code, year, and the metric cells of that
      row. A cell that is `None` or absent holds a value `float` rejects. */
  datatype Record = Record(code: string, year: int, cells: map<string, Option<real>>)

  /** The table as loaded: its column names and its rows in file order. */
  datatype Table = Table(columns: set<string>, rows: seq<Record>)

  function CodeYear(row: Record): (string, int) {
    (row.code, row.year)
  }

  /** At most one row per (company code, year). */
  ghost predicate WellFormed(t: Table) {
    DistinctBy(t.rows, CodeYear)
  }

  /** The number in a row's cell, if the cell holds one. */
  function Cell(row: Record, metric: string): Option<real> {
    if metric in row.cells then row.cells[metric] else None
  }

  /** The distinct years for which company `code` has a row. */
  ghost function CompanyYears(t: Table, code: string): set<int> {
    set row | row in t.rows && row.code == code :: row.year
  }

  /** The table has a row for company `code` in year `y`. */
  ghost predicate HasRow(t: Table, code: string, y: int) {
    y in CompanyYears(t, code)
  }

  // ---------------------------------------------------------------------------
  // Static tables
  // ---------------------------------------------------------------------------

  /** Company display name to stock code, in declaration order. */
  const Directory: seq<(string, string)> := [
    ("美食-KY", "2723"),
    ("王品", "2727"),
    ("瓦城", "2729"),
    ("六角", "2732"),
    ("漢來美食", "1268")
  ]

  /** Metric column to display label, in declaration order. */
  const MetricCatalog: seq<(string, string)> := [
    ("財務結構-負債佔資產比率(%)", "財務結構-負債佔資產比率(%)"),
    ("財務結構-長期資金佔不動產、廠房及設備比率(%)", "財務結構-長期資金佔不動產、廠房及設備比率(%)"),
    ("償債能力-流動比率(%)", "償債能力-流動比率(%)"),
    ("償債能力-速動比率(%)", "償債能力-速動比率(%)"),
    ("償債能力-利息保障倍數(%)", "償債能力-利息保障倍數(%)"),
    ("經營能力-應收款項週轉率(次)", "經營能力-應收款項週轉率(次)"),
    ("經營能力-平均收現日數", "經營能力-平均收現日數"),
    ("經營能力-存貨週轉率(次)", "經營能力-存貨週轉率(次)"),
    ("經營能力-平均售貨日數", "經營能力-平均售貨日數"),
    ("經營能力-不動產、廠房及設備週轉率(次)", "經營能力-不動產、廠房及設備週轉率(次)"),
    ("經營能力-總資產週轉率(次)", "經營能力-總資產週轉率(次)"),
    ("獲利能力-資產報酬率(%)", "獲利能力-資產報酬率(%)"),
    ("獲利能力-權益報酬率(%)", "獲利能力-權益報酬率(%)"),
    ("獲利能力-稅前純益佔實收資本比率(%)", "獲利能力-稅前純益佔實收資本比率(%)"),
    ("獲利能力-純益率(%)", "獲利能力-純益率(%)"),
    ("獲利能力-每股盈餘(元)", "獲利能力-每股盈餘(元)"),
    ("現金流量-現金流量比率(%)", "現金流量-現金流量比率(%)"),
    ("現金流量-現金流量允當比率(%)", "現金流量-現金流量允當比率(%)"),
    ("現金流量-現金再投資比率(%)", "現金流量-現金再投資比率(%)")
  ]

  /** The one metric for which a fall is the favourable direction. */
  const DebtToAssetRatio: string := "財務結構-負債佔資產比率(%)"
  const NetProfitMargin: string := "獲利能力-純益率(%)"
  const ReturnOnEquity: string := "獲利能力-權益報酬率(%)"
  const EarningsPerShare: string := "獲利能力-每股盈餘(元)"
  const CashFlowRatio: string := "現金流量-現金流量比率(%)"

  /** The five metrics the narrative looks at, in the order it reports them. */
  const KeyMetrics: seq<string> :=
    [DebtToAssetRatio, NetProfitMargin, ReturnOnEquity, EarningsPerShare, CashFlowRatio]

  datatype Direction = Rise | Fall

  /** The declared favourable direction of each key metric. */
  const IndicatorLogic: seq<(string, Direction)> := [
    (DebtToAssetRatio, Fall),
    (NetProfitMargin, Rise),
    (ReturnOnEquity, Rise),
    (EarningsPerShare, Rise),
    (CashFlowRatio, Rise)
  ]

  /** The canned sentence for a favourable and for an unfavourable change. */
  datatype Sentences = Sentences(good: string, bad: string)

  const MetricSentences: seq<(string, Sentences)> := [
    (DebtToAssetRatio,
     Sentences("負債佔資產比率下降，表示財務結構更穩健", "負債佔資產比率上升，可能增加財務槓桿風險")),
    (NetProfitMargin,
     Sentences("純益率上升，顯示獲利能力提升", "純益率下降，顯示獲利能力減弱")),
    (ReturnOnEquity,
     Sentences("權益報酬率上升，代表股東報酬提升", "權益報酬率下降，代表股東報酬減少")),
    (EarningsPerShare,
     Sentences("每股盈餘上升，代表公司整體獲利表現提升", "每股盈餘下降，顯示獲利表現疲弱")),
    (CashFlowRatio,
     Sentences("現金流量比率上升，顯示現金流狀況改善", "現金流量比率下降，可能表示償債能力減弱"))
  ]

  // ---------------------------------------------------------------------------
  // Company directory and year list
  // ---------------------------------------------------------------------------

  /** The company names in the order the directory lists them. */
  function CompanyNames(): (names: seq<string>)
    ensures names == ["美食-KY", "王品", "瓦城", "六角", "漢來美食"]
  {
    seq(|Directory|, i requires 0 <= i < |Directory| => Directory[i].0)
  }

  /** The stock code of a company name, `None` for a name not in the directory. */
  function CompanyCode(name: string): (r: Option<string>)
    ensures name == "美食-KY" ==> r == Some("2723")
    ensures name == "王品" ==> r == Some("2727")
    ensures name == "瓦城" ==> r == Some("2729")
    ensures name == "六角" ==> r == Some("2732")
    ensures name == "漢來美食" ==> r == Some("1268")
    ensures r.None? <==> name !in CompanyNames()
  {
    Lookup(Directory, name)
  }

  /** No two companies share a code, so a code identifies its company. */
  lemma DirectoryInjective(a: string, b: string)
    requires CompanyCode(a).Some? && CompanyCode(a) == CompanyCode(b)
    ensures a == b
  {
    assert a in CompanyNames() && b in CompanyNames();
  }

  /** The year texts of the rows are exactly the texts of their years. */
  lemma RowYearTexts(rows: seq<Record>)
    ensures forall s :: s in Texts(RowYears(rows)) <==> exists row :: row in rows && s == YearString(row.year)
  {
    var texts := Texts(RowYears(rows));
    forall s
      ensures s in texts <==> exists row :: row in rows && s == YearString(row.year)
    {
      if s in texts {
        var i :| 0 <= i < |texts| && texts[i] == s;
        assert rows[i] in rows;
      }
      if exists row :: row in rows && s == YearString(row.year) {
        var row :| row in rows && s == YearString(row.year);
        var i :| 0 <= i < |rows| && rows[i] == row;
        assert texts[i] == s;
      }
    }
  }

  /** `get_years`: every distinct year of the table, as text, each once, in
      ascending string order. */
  function Years(t: Table): (ys: seq<string>)
    ensures StrictlySorted(ys, LexLess) && Distinct(ys)
    ensures forall s :: s in ys <==> exists row :: row in t.rows && s == YearString(row.year)
  {
    var texts := Texts(RowYears(t.rows));
    var ys := SortDistinct(texts, LexLess);
    LexStrictTotalOrder();
    SortDistinctSorted(texts, LexLess);
    StrictlySortedDistinct(ys, LexLess);
    RowYearTexts(t.rows);
    ys
  }

  /** When every year has four digits, the string sort of the year list is
      also the numeric sort: each entry reads back as a year of the table and
      the years strictly increase along the list. */
  lemma YearsNumericOrder(t: Table)
    requires forall row :: row in t.rows ==> 1000 <= row.year <= 9999
    ensures forall i :: 0 <= i < |Years(t)| ==>
              ParseYear(Years(t)[i]).Some? && ParseYear(Years(t)[i]).value in RowYears(t.rows)
    ensures forall i, j :: 0 <= i < j < |Years(t)| ==>
              ParseYear(Years(t)[i]).value < ParseYear(Years(t)[j]).value
  {
    YearTextsNumeric(Years(t), t.rows);
  }

  /** Strictly sorted texts of four-digit years read back as strictly
      increasing years of the rows. */
  lemma YearTextsNumeric(ys: seq<string>, rows: seq<Record>)
    requires forall row :: row in rows ==> 1000 <= row.year <= 9999
    requires StrictlySorted(ys, LexLess)
    requires forall s :: s in ys ==> exists row :: row in rows && s == YearString(row.year)
    ensures forall i :: 0 <= i < |ys| ==>
              ParseYear(ys[i]).Some? && ParseYear(ys[i]).value in RowYears(rows)
    ensures forall i, j :: 0 <= i < j < |ys| ==> ParseYear(ys[i]).value < ParseYear(ys[j]).value
  {
    forall i | 0 <= i < |ys|
      ensures ParseYear(ys[i]).Some? && ParseYear(ys[i]).value in RowYears(rows)
      ensures 1000 <= ParseYear(ys[i]).value <= 9999
      ensures ys[i] == YearString(ParseYear(ys[i]).value)
    {
      assert ys[i] in ys;
      var row :| row in rows && ys[i] == YearString(row.year);
      assert ParseYear(YearString(row.year)) == Some(row.year);
      var k :| 0 <= k < |rows| && rows[k] == row;
      assert RowYears(rows)[k] == row.year;
    }
    forall i, j | 0 <= i < j < |ys|
      ensures ParseYear(ys[i]).value < ParseYear(ys[j]).value
    {
      FourDigitYearOrder(ParseYear(ys[i]).value, ParseYear(ys[j]).value);
    }
  }

  // ---------------------------------------------------------------------------
  // Windowed series
  // ---------------------------------------------------------------------------

  /** The rows of company `code`: each row of the table with that code, as
      often as it occurs there, in table order. */
  function CompanyRows(t: Table, code: string): (rows: seq<Record>)
    ensures forall row :: row in rows <==> row in t.rows && row.code == code
    ensures Subseq(rows, t.rows)
  {
    var ofCompany := (row: Record) => row.code == code;
    FilterSubseq(t.rows, ofCompany);
    Filter(t.rows, ofCompany)
  }

  /** The company's rows hold each of its table rows exactly as often as the
      table does. */
  lemma CompanyRowsCount(t: Table, code: string)
    ensures forall row :: multiset(CompanyRows(t, code))[row] == if row.code == code then multiset(t.rows)[row] else 0
  {
    FilterCount(t.rows, (row: Record) => row.code == code);
  }

  predicate IntLess(a: int, b: int) {
    a < b
  }

  lemma IntLessOrder()
    ensures StrictTotalOrder(IntLess)
  {
  }

  /** The years of the rows, in row order. */
  function RowYears(rows: seq<Record>): (ys: seq<int>)
    ensures |ys| == |rows|
    ensures forall i :: 0 <= i < |rows| ==> ys[i] == rows[i].year
  {
    seq(|rows|, i requires 0 <= i < |rows| => rows[i].year)
  }

  /** The distinct years of the rows, ascending. */
  function AvailableYears(rows: seq<Record>): seq<int> {
    SortDistinct(RowYears(rows), IntLess)
  }

  /** How many years a window holds: 5 for the five-year choice, otherwise 10. */
  function Window(yearsRange: int): nat {
    if yearsRange == 5 then 5 else 10
  }

  /** The last five (or ten) of the available years, or all of them when
      there are fewer. */
  function SelectYears(available: seq<int>, yearsRange: int): (selected: seq<int>)
    ensures |selected| == if |available| < Window(yearsRange) then |available| else Window(yearsRange)
    ensures selected == available[|available| - |selected|..]
  {
    if yearsRange == 5 then
      (if |available| >= 5 then available[|available| - 5..] else available)
    else
      (if |available| >= 10 then available[|available| - 10..] else available)
  }

  /** `y` is one of company `code`'s years and fewer than `w` of its years are
      later: the meaning of "among the `w` most recent years". */
  ghost predicate IsRecent(t: Table, code: string, y: int, w: nat) {
    y in CompanyYears(t, code) && |set z | z in CompanyYears(t, code) && y < z| < w
  }

  /** In a strictly ascending sequence, exactly the elements after `s[i]` are
      larger than it. */
  lemma CountLater(s: seq<int>, i: int)
    requires StrictlySorted(s, IntLess) && 0 <= i < |s|
    ensures |set z | z in s && s[i] < z| == |s| - 1 - i
  {
    var later := s[i + 1..];
    assert (set z | z in s && s[i] < z) == (set z | z in later) by {
      forall z | z in s && s[i] < z
        ensures z in later
      {
        var k :| 0 <= k < |s| && s[k] == z;
        assert k > i;
        assert later[k - i - 1] == z;
      }
      forall z | z in later
        ensures z in s && s[i] < z
      {
        var k :| 0 <= k < |later| && later[k] == z;
        assert s[i + 1 + k] == z;
        assert IntLess(s[i], s[i + 1 + k]);
      }
    }
    IntLessOrder();
    StrictlySortedDistinct(later, IntLess);
    DistinctCard(later);
  }

  /** The selected window is exactly the available years that have fewer than
      a window's worth of later years. */
  lemma SelectYearsRecent(available: seq<int>, yearsRange: int, y: int)
    requires StrictlySorted(available, IntLess)
    ensures y in SelectYears(available, yearsRange) <==>
              y in available && |set z | z in available && y < z| < Window(yearsRange)
  {
    var selected := SelectYears(available, yearsRange);
    var n, m := |available|, |selected|;
    if y in available {
      var i :| 0 <= i < n && available[i] == y;
      CountLater(available, i);
      if y in selected {
        var k :| 0 <= k < m && selected[k] == y;
        assert available[n - m + k] == y;
      }
    }
  }

  /** The available years of a company are its years, ascending. */
  lemma AvailableYearsFacts(t: Table, code: string)
    ensures StrictlySorted(AvailableYears(CompanyRows(t, code)), IntLess)
    ensures forall y :: y in AvailableYears(CompanyRows(t, code)) <==> y in CompanyYears(t, code)
    ensures |AvailableYears(CompanyRows(t, code))| == |CompanyYears(t, code)|
  {
    var rows := CompanyRows(t, code);
    var available := AvailableYears(rows);
    IntLessOrder();
    SortDistinctSorted(RowYears(rows), IntLess);
    forall y
      ensures y in available <==> y in CompanyYears(t, code)
    {
      if y in available {
        assert y in RowYears(rows);
        var i :| 0 <= i < |rows| && RowYears(rows)[i] == y;
        assert rows[i] in rows;
      }
      if y in CompanyYears(t, code) {
        var row :| row in t.rows && row.code == code && row.year == y;
        var i :| 0 <= i < |rows| && rows[i] == row;
        assert RowYears(rows)[i] == y;
      }
    }
    StrictlySortedDistinct(available, IntLess);
    DistinctCard(available);
    assert (set y | y in available) == CompanyYears(t, code);
  }

  /** The rows of company `code` that fall in the selected window, each as
      often as it occurs, in table order. */
  function WindowRows(t: Table, code: string, yearsRange: int): (picked: seq<Record>)
    ensures forall row :: row in picked <==>
              row in CompanyRows(t, code) && row.year in SelectYears(AvailableYears(CompanyRows(t, code)), yearsRange)
    ensures Subseq(picked, CompanyRows(t, code))
  {
    var rows := CompanyRows(t, code);
    var selected := SelectYears(AvailableYears(rows), yearsRange);
    var inWindow := (row: Record) => row.year in selected;
    FilterSubseq(rows, inWindow);
    Filter(rows, inWindow)
  }

  /** The window keeps each company row of a selected year exactly as often as
      the company's rows hold it, and no other row. */
  lemma WindowRowsCount(t: Table, code: string, yearsRange: int)
    ensures var selected := SelectYears(AvailableYears(CompanyRows(t, code)), yearsRange);
            forall row :: multiset(WindowRows(t, code, yearsRange))[row] ==
              if row.year in selected then multiset(CompanyRows(t, code))[row] else 0
  {
    var selected := SelectYears(AvailableYears(CompanyRows(t, code)), yearsRange);
    FilterCount(CompanyRows(t, code), (row: Record) => row.year in selected);
  }

  predicate AllNumeric(rows: seq<Record>, metric: string) {
    forall i :: 0 <= i < |rows| ==> Cell(rows[i], metric).Some?
  }

  /** The (year text, value) entries of the rows, in row order. */
  function Points(rows: seq<Record>, metric: string): (points: seq<(string, real)>)
    requires AllNumeric(rows, metric)
    ensures |points| == |rows|
    ensures forall i :: 0 <= i < |rows| ==>
              points[i] == (YearString(rows[i].year), Cell(rows[i], metric).value)
  {
    seq(|rows|, i requires 0 <= i < |rows| => (YearString(rows[i].year), Cell(rows[i], metric).value))
  }

  /** The values of one metric for one company over its most recent five (or
      ten) years, as the dict keyed by year text that the comprehension builds
      from the window rows in row order. Empty for an unknown company, a
      company without rows, a metric that is not a column, and a window holding
      a value `float` rejects. */
  function SeriesFor(t: Table, companyName: string, metric: string, yearsRange: int): (r: seq<(string, real)>)
    ensures CompanyCode(companyName).None? ==> r == []
    ensures CompanyCode(companyName).Some? && CompanyYears(t, CompanyCode(companyName).value) == {} ==> r == []
    ensures metric !in t.columns ==> r == []
    ensures CompanyCode(companyName).Some? && !AllNumeric(WindowRows(t, CompanyCode(companyName).value, yearsRange), metric)
            ==> r == []
    ensures r != [] <==> SeriesAvailable(t, companyName, metric, yearsRange)
  {
    match CompanyCode(companyName)
    case None => []
    case Some(code) =>
      var rows := CompanyRows(t, code);
      if |rows| == 0 then
        assert CompanyYears(t, code) == set row | row in rows :: row.year;
        []
      else
        var picked := WindowRows(t, code, yearsRange);
        if metric !in t.columns then []
        else if !AllNumeric(picked, metric) then []
        else
          assert rows[0] in rows && rows[0].year in CompanyYears(t, code);
          WindowRowsNonEmpty(t, code, yearsRange);
          FromPairs(Points(picked, metric))
  }

  /** What `get_data_for_years` needs to return a non-empty dict: a known
      company with rows, the metric as a column, and a number in every window
      cell of it. */
  ghost predicate SeriesAvailable(t: Table, companyName: string, metric: string, yearsRange: int) {
    && CompanyCode(companyName).Some?
    && CompanyYears(t, CompanyCode(companyName).value) != {}
    && metric in t.columns
    && AllNumeric(WindowRows(t, CompanyCode(companyName).value, yearsRange), metric)
  }

  /** A company with rows has rows in its window. */
  lemma WindowRowsNonEmpty(t: Table, code: string, yearsRange: int)
    requires CompanyYears(t, code) != {}
    ensures WindowRows(t, code, yearsRange) != []
  {
    AvailableYearsFacts(t, code);
    var selected := SelectYears(AvailableYears(CompanyRows(t, code)), yearsRange);
    assert selected[0] in selected;
    SelectedYearsPicked(t, code, yearsRange);
  }

  /** A non-empty series is the dict of the window rows of a known company,
      all numeric. */
  lemma SeriesShape(t: Table, companyName: string, metric: string, yearsRange: int)
    requires SeriesFor(t, companyName, metric, yearsRange) != []
    ensures CompanyCode(companyName).Some?
    ensures var picked := WindowRows(t, CompanyCode(companyName).value, yearsRange);
            && AllNumeric(picked, metric)
            && SeriesFor(t, companyName, metric, yearsRange) == FromPairs(Points(picked, metric))
  {
  }

  /** The selected window of a company is exactly its recent years. */
  lemma SelectedIffRecent(t: Table, code: string, yearsRange: int, y: int)
    ensures y in SelectYears(AvailableYears(CompanyRows(t, code)), yearsRange) <==>
              IsRecent(t, code, y, Window(yearsRange))
  {
    var available := AvailableYears(CompanyRows(t, code));
    AvailableYearsFacts(t, code);
    SelectYearsRecent(available, yearsRange, y);
    assert (set z | z in available && y < z) == (set z | z in CompanyYears(t, code) && y < z);
  }

  /** The window rows are the company's rows for its recent years. */
  lemma WindowRowsRecent(t: Table, code: string, yearsRange: int, row: Record)
    ensures row in WindowRows(t, code, yearsRange) <==>
              row in t.rows && row.code == code && IsRecent(t, code, row.year, Window(yearsRange))
  {
    SelectedIffRecent(t, code, yearsRange, row.year);
  }

  /** Every series entry is the year text and value of a window row: a row of
      the company for one of its `Window(yearsRange)` most recent years, and
      the last such row for that year. */
  lemma SeriesEntries(t: Table, companyName: string, metric: string, yearsRange: int, k: int)
    requires 0 <= k < |SeriesFor(t, companyName, metric, yearsRange)|
    ensures CompanyCode(companyName).Some?
    ensures var code := CompanyCode(companyName).value;
            var picked := WindowRows(t, code, yearsRange);
            exists j :: && 0 <= j < |picked|
                        && picked[j] in t.rows && picked[j].code == code
                        && IsRecent(t, code, picked[j].year, Window(yearsRange))
                        && Cell(picked[j], metric).Some?
                        && SeriesFor(t, companyName, metric, yearsRange)[k]
                           == (YearString(picked[j].year), Cell(picked[j], metric).value)
                        && forall j' :: j < j' < |picked| ==> picked[j'].year != picked[j].year
  {
    SeriesShape(t, companyName, metric, yearsRange);
    var code := CompanyCode(companyName).value;
    var picked := WindowRows(t, code, yearsRange);
    var points := Points(picked, metric);
    FromPairsLast(points, k);
    var j :| 0 <= j < |points| && points[j] == FromPairs(points)[k]
             && forall j' :: j < j' < |points| ==> points[j'].0 != points[j].0;
    assert picked[j] in picked;
    WindowRowsRecent(t, code, yearsRange, picked[j]);
    forall j' | j < j' < |picked|
      ensures picked[j'].year != picked[j].year
    {
      assert points[j'].0 == YearString(picked[j'].year);
    }
  }

  /** A non-empty series has an entry for each of the company's
      `Window(yearsRange)` most recent years. */
  lemma SeriesComplete(t: Table, companyName: string, metric: string, yearsRange: int, y: int)
    requires SeriesAvailable(t, companyName, metric, yearsRange)
    requires IsRecent(t, CompanyCode(companyName).value, y, Window(yearsRange))
    ensures exists k :: 0 <= k < |SeriesFor(t, companyName, metric, yearsRange)|
                        && SeriesFor(t, companyName, metric, yearsRange)[k].0 == YearString(y)
  {
    SeriesShape(t, companyName, metric, yearsRange);
    var code := CompanyCode(companyName).value;
    var picked := WindowRows(t, code, yearsRange);
    var r := SeriesFor(t, companyName, metric, yearsRange);
    var row :| row in t.rows && row.code == code && row.year == y;
    WindowRowsRecent(t, code, yearsRange, row);
    PointKeyPresent(picked, metric, row);
    var k :| 0 <= k < |r| && Keys(r)[k] == YearString(y);
  }

  /** The dict built from the points of some rows has a key for each row. */
  lemma PointKeyPresent(rows: seq<Record>, metric: string, row: Record)
    requires AllNumeric(rows, metric)
    requires row in rows
    ensures YearString(row.year) in Keys(FromPairs(Points(rows, metric)))
  {
    var points := Points(rows, metric);
    var i :| 0 <= i < |rows| && rows[i] == row;
    assert Keys(points)[i] == YearString(row.year);
    FromPairsKeys(points);
  }

  /** With one row per (company, year), the window rows have different years. */
  lemma WindowRowsDistinctYears(t: Table, code: string, yearsRange: int)
    requires WellFormed(t)
    ensures Distinct(RowYears(WindowRows(t, code, yearsRange)))
  {
    var rows := CompanyRows(t, code);
    var selected := SelectYears(AvailableYears(rows), yearsRange);
    var picked := WindowRows(t, code, yearsRange);
    FilterDistinctBy(t.rows, (row: Record) => row.code == code, CodeYear);
    FilterDistinctBy(rows, (row: Record) => row.year in selected, CodeYear);
    var ys := RowYears(picked);
    forall i, j | 0 <= i < j < |ys|
      ensures ys[i] != ys[j]
    {
      assert picked[i] in picked && picked[j] in picked;
      assert CodeYear(picked[i]) != CodeYear(picked[j]);
    }
  }

  /** A suffix of a strictly ascending sequence is strictly ascending. */
  lemma SuffixSorted(s: seq<int>, k: nat)
    requires StrictlySorted(s, IntLess) && k <= |s|
    ensures StrictlySorted(s[k..], IntLess)
  {
    forall i, j | 0 <= i < j < |s| - k
      ensures IntLess(s[k..][i], s[k..][j])
    {
      assert s[k..][i] == s[k + i] && s[k..][j] == s[k + j];
    }
  }

  /** The selected years are among the available ones, ascending. */
  lemma SelectedSorted(available: seq<int>, yearsRange: int)
    requires StrictlySorted(available, IntLess)
    ensures StrictlySorted(SelectYears(available, yearsRange), IntLess)
    ensures forall y :: y in SelectYears(available, yearsRange) ==> y in available
  {
    var selected := SelectYears(available, yearsRange);
    SuffixSorted(available, |available| - |selected|);
  }

  lemma WindowYearsSelected(t: Table, code: string, yearsRange: int)
    ensures forall y :: y in RowYears(WindowRows(t, code, yearsRange)) ==>
              y in SelectYears(AvailableYears(CompanyRows(t, code)), yearsRange)
  {
    var picked := WindowRows(t, code, yearsRange);
    var ys := RowYears(picked);
    forall y | y in ys
      ensures y in SelectYears(AvailableYears(CompanyRows(t, code)), yearsRange)
    {
      var i :| 0 <= i < |ys| && ys[i] == y;
      assert picked[i] in picked;
    }
  }

  lemma SelectedYearsPicked(t: Table, code: string, yearsRange: int)
    ensures forall y :: y in SelectYears(AvailableYears(CompanyRows(t, code)), yearsRange) ==>
              y in RowYears(WindowRows(t, code, yearsRange))
  {
    var rows := CompanyRows(t, code);
    var available := AvailableYears(rows);
    var selected := SelectYears(available, yearsRange);
    AvailableYearsFacts(t, code);
    forall y | y in selected
      ensures exists row :: row in rows && row.year == y
    {
      assert y in available;
      assert y in CompanyYears(t, code);
      var row :| row in t.rows && row.code == code && row.year == y;
      assert row in rows;
    }
    FilteredYears(rows, WindowRows(t, code, yearsRange), selected);
  }

  /** Keeping the rows whose year is among some years keeps every one of
      those years that the rows have. */
  lemma FilteredYears(rows: seq<Record>, picked: seq<Record>, selected: seq<int>)
    requires forall row :: row in picked <==> row in rows && row.year in selected
    requires forall y :: y in selected ==> exists row :: row in rows && row.year == y
    ensures forall y :: y in selected ==> y in RowYears(picked)
  {
    forall y | y in selected
      ensures y in RowYears(picked)
    {
      var row :| row in rows && row.year == y;
      var i :| 0 <= i < |picked| && picked[i] == row;
      assert RowYears(picked)[i] == y;
    }
  }

  /** The texts of some years, in order. */
  function Texts(ys: seq<int>): (texts: seq<string>)
    ensures |texts| == |ys|
    ensures forall i :: 0 <= i < |ys| ==> texts[i] == YearString(ys[i])
  {
    seq(|ys|, i requires 0 <= i < |ys| => YearString(ys[i]))
  }

  /** The texts of the selected years are pairwise different. */
  lemma SelectedTexts(t: Table, code: string, yearsRange: int)
    ensures var selected := SelectYears(AvailableYears(CompanyRows(t, code)), yearsRange);
            |set x | x in Texts(selected)| == |selected|
  {
    var available := AvailableYears(CompanyRows(t, code));
    var selected := SelectYears(available, yearsRange);
    var texts := Texts(selected);
    AvailableYearsFacts(t, code);
    SelectedSorted(available, yearsRange);
    IntLessOrder();
    StrictlySortedDistinct(selected, IntLess);
    forall i, j | 0 <= i < j < |texts|
      ensures texts[i] != texts[j]
    {
      if texts[i] == texts[j] {
        YearStringInjective(selected[i], selected[j]);
      }
    }
    DistinctCard(texts);
  }

  /** Rows whose years are exactly `ys` make a dict whose keys are exactly the
      texts of `ys`. */
  lemma {:induction false} PointKeys(rows: seq<Record>, ys: seq<int>, metric: string)
    requires AllNumeric(rows, metric)
    requires forall y :: y in RowYears(rows) <==> y in ys
    ensures (set x | x in Keys(FromPairs(Points(rows, metric)))) == (set x | x in Texts(ys))
  {
    var points := Points(rows, metric);
    var keys := Keys(FromPairs(points));
    var texts := Texts(ys);
    FromPairsKeys(points);
    forall x | x in keys
      ensures x in texts
    {
      var i :| 0 <= i < |points| && Keys(points)[i] == x;
      assert RowYears(rows)[i] in RowYears(rows);
      var k :| 0 <= k < |ys| && ys[k] == rows[i].year;
      assert texts[k] == x;
    }
    forall x | x in texts
      ensures x in keys
    {
      var k :| 0 <= k < |ys| && texts[k] == x;
      assert ys[k] in ys;
      var i :| 0 <= i < |rows| && RowYears(rows)[i] == ys[k];
      assert Keys(points)[i] == x;
    }
    assert forall x :: x in keys <==> x in texts;
  }

  /** The keys of the dict built from the window rows are the texts of the
      selected years. */
  lemma WindowKeys(t: Table, code: string, metric: string, yearsRange: int)
    requires AllNumeric(WindowRows(t, code, yearsRange), metric)
    ensures var selected := SelectYears(AvailableYears(CompanyRows(t, code)), yearsRange);
            (set x | x in Keys(FromPairs(Points(WindowRows(t, code, yearsRange), metric)))) == (set x | x in Texts(selected))
  {
    var selected := SelectYears(AvailableYears(CompanyRows(t, code)), yearsRange);
    var picked := WindowRows(t, code, yearsRange);
    WindowYearsSelected(t, code, yearsRange);
    SelectedYearsPicked(t, code, yearsRange);
    PointKeys(picked, selected, metric);
  }

  /** A non-empty series has exactly min(window, years on record) entries,
      under pairwise different keys: one per selected year, however many rows
      a year has. */
  lemma SeriesExact(t: Table, companyName: string, metric: string, yearsRange: int)
    requires SeriesAvailable(t, companyName, metric, yearsRange)
    ensures var r := SeriesFor(t, companyName, metric, yearsRange);
            var n := |CompanyYears(t, CompanyCode(companyName).value)|;
            |r| == (if n < Window(yearsRange) then n else Window(yearsRange))
    ensures var r := SeriesFor(t, companyName, metric, yearsRange);
            forall i, j :: 0 <= i < j < |r| ==> r[i].0 != r[j].0
  {
    SeriesShape(t, companyName, metric, yearsRange);
    var code := CompanyCode(companyName).value;
    var r := SeriesFor(t, companyName, metric, yearsRange);
    var points := Points(WindowRows(t, code, yearsRange), metric);
    FromPairsDistinct(points);
    DistinctCard(Keys(r));
    WindowKeys(t, code, metric, yearsRange);
    SelectedTexts(t, code, yearsRange);
    AvailableYearsFacts(t, code);
    forall i, j | 0 <= i < j < |r|
      ensures r[i].0 != r[j].0
    {
      assert Keys(r)[i] == r[i].0 && Keys(r)[j] == r[j].0;
    }
  }

  /** With one row per (company, year), the series holds one entry per window
      row, in row order. */
  lemma SeriesPerRow(t: Table, companyName: string, metric: string, yearsRange: int)
    requires WellFormed(t)
    requires SeriesAvailable(t, companyName, metric, yearsRange)
    ensures CompanyCode(companyName).Some?
    ensures var picked := WindowRows(t, CompanyCode(companyName).value, yearsRange);
            && AllNumeric(picked, metric)
            && SeriesFor(t, companyName, metric, yearsRange) == Points(picked, metric)
  {
    SeriesShape(t, companyName, metric, yearsRange);
    var code := CompanyCode(companyName).value;
    var picked := WindowRows(t, code, yearsRange);
    WindowRowsDistinctYears(t, code, yearsRange);
    PointKeysDistinct(picked, metric);
    FromPairsIdentity(Points(picked, metric));
  }

  /** Rows with pairwise different years give points with pairwise different
      keys. */
  lemma PointKeysDistinct(rows: seq<Record>, metric: string)
    requires AllNumeric(rows, metric)
    requires Distinct(RowYears(rows))
    ensures Distinct(Keys(Points(rows, metric)))
  {
    var points := Points(rows, metric);
    forall i, j | 0 <= i < j < |points|
      ensures Keys(points)[i] != Keys(points)[j]
    {
      assert RowYears(rows)[i] != RowYears(rows)[j];
      if Keys(points)[i] == Keys(points)[j] {
        YearStringInjective(rows[i].year, rows[j].year);
      }
    }
  }

  // ---------------------------------------------------------------------------
  // Polarity rule and narrative
  // ---------------------------------------------------------------------------

  /** Whether a year-over-year change of `metric` is favourable: a fall for
      the debt-to-asset ratio, a rise for every other metric. */
  predicate IsPositiveChange(metric: string, change: real): (favourable: bool)
    ensures favourable <==> Movement(change) == Some(FavouredDirection(metric))
  {
    if metric == DebtToAssetRatio then change < 0.0 else change > 0.0
  }

  /** The direction a value moved in; a zero change moves in none. */
  function Movement(change: real): Option<Direction> {
    if change > 0.0 then Some(Rise) else if change < 0.0 then Some(Fall) else None
  }

  /** The direction in which the code judges a metric to improve. */
  function FavouredDirection(metric: string): Direction {
    if metric == DebtToAssetRatio then Fall else Rise
  }

  /** No change is never favourable, whatever the metric; and the debt ratio
      is judged exactly as any other metric would judge the opposite change. */
  lemma PolarityRule(metric: string, change: real)
    ensures !IsPositiveChange(metric, 0.0)
    ensures metric != DebtToAssetRatio ==>
              (IsPositiveChange(DebtToAssetRatio, change) <==> IsPositiveChange(metric, -change))
  {
  }

  /** The hard-coded rule agrees with the declared favourable direction of
      every key metric. */
  lemma PolarityMatchesIndicatorLogic(metric: string, change: real)
    requires metric in KeyMetrics
    ensures Lookup(IndicatorLogic, metric) == Some(FavouredDirection(metric))
    ensures IsPositiveChange(metric, change) <==>
              match Lookup(IndicatorLogic, metric).value
              case Rise => change > 0.0
              case Fall => change < 0.0
  {
    var i := KeyIndex(metric);
    KeyMetricLookups(i);
    KeyMetricsDistinct();
    assert i != 0 ==> KeyMetrics[i] != KeyMetrics[0];
  }

  lemma KeyMetricsDistinct()
    ensures Distinct(KeyMetrics)
  {
  }

  lemma KeyMetricAligned()
    ensures |KeyMetrics| == |MetricSentences| == |IndicatorLogic| == 5
    ensures forall i :: 0 <= i < 5 ==> MetricSentences[i].0 == KeyMetrics[i] == IndicatorLogic[i].0
  {
  }

  /** The position of a key metric in the list of key metrics. */
  ghost function KeyIndex(metric: string): (i: int)
    requires metric in KeyMetrics
    ensures 0 <= i < |KeyMetrics| == 5 && KeyMetrics[i] == metric
  {
    var i :| 0 <= i < |KeyMetrics| && KeyMetrics[i] == metric; i
  }

  /** Both tables answer a key metric with the entry at its own position. */
  lemma KeyMetricLookups(i: int)
    requires 0 <= i < 5
    ensures Lookup(MetricSentences, KeyMetrics[i]) == Some(MetricSentences[i].1)
    ensures Lookup(IndicatorLogic, KeyMetrics[i]) == Some(IndicatorLogic[i].1)
  {
    KeyMetricsDistinct();
    KeyMetricAligned();
    LookupAt(MetricSentences, i);
    LookupAt(IndicatorLogic, i);
  }

  /** The sentence table has an entry for exactly the key metrics. */
  lemma SentenceTableKeys(metric: string)
    ensures Lookup(MetricSentences, metric).Some? <==> metric in KeyMetrics
  {
    KeyMetricAligned();
    if metric in KeyMetrics {
      KeyMetricLookups(KeyIndex(metric));
    }
  }

  /** Each key metric has a non-empty "good" sentence different from every
      "bad" sentence, and different metrics have different sentences. */
  lemma SentenceTableDistinct(i: int, j: int)
    requires 0 <= i < 5 && 0 <= j < 5
    ensures |MetricSentences[i].1.good| > 0 && |MetricSentences[i].1.bad| > 0
    ensures MetricSentences[i].1.good != MetricSentences[j].1.bad
    ensures i != j ==> MetricSentences[i].1.good != MetricSentences[j].1.good
    ensures i != j ==> MetricSentences[i].1.bad != MetricSentences[j].1.bad
  {
  }

  /** The sentences of a key metric. */
  function SentencesOf(metric: string): Sentences
    requires metric in KeyMetrics
  {
    SentenceTableKeys(metric);
    Lookup(MetricSentences, metric).value
  }

  /** The "good" sentence for a favourable change, the "bad" one otherwise. */
  function Sentence(sentences: Sentences, metric: string, change: real): string {
    if IsPositiveChange(metric, change) then sentences.good else sentences.bad
  }

  /** `_get_change_description`: the sentence for a change of `metric`;
      `None` where the sentence table has no entry for the metric, so that
      asking it for a sentence raises. */
  function ChangeDescription(metric: string, change: real): (d: Option<string>)
    ensures d.Some? <==> metric in KeyMetrics
  {
    SentenceTableKeys(metric);
    match Lookup(MetricSentences, metric)
    case None => None
    case Some(sentences) => Some(Sentence(sentences, metric, change))
  }

  /** A key metric's description is a non-empty sentence: its "good" one
      exactly when the change is favourable and its "bad" one exactly when it
      is not. */
  lemma ChangeDescriptionChoice(metric: string, change: real)
    requires metric in KeyMetrics
    ensures var d := ChangeDescription(metric, change).value;
            && |d| > 0
            && (d == SentencesOf(metric).good <==> IsPositiveChange(metric, change))
            && (d == SentencesOf(metric).bad <==> !IsPositiveChange(metric, change))
  {
    var i := KeyIndex(metric);
    KeyMetricLookups(i);
    SentenceTableDistinct(i, i);
  }

  /** The ten sentences of the key metrics are pairwise different. */
  lemma SentencesDistinct(a: string, b: string)
    requires a in KeyMetrics && b in KeyMetrics
    ensures SentencesOf(a).good != SentencesOf(b).bad
    ensures SentencesOf(a).good == SentencesOf(b).good ==> a == b
    ensures SentencesOf(a).bad == SentencesOf(b).bad ==> a == b
  {
    var i, j := KeyIndex(a), KeyIndex(b);
    KeyMetricLookups(i);
    KeyMetricLookups(j);
    SentenceTableDistinct(i, j);
  }

  /** The change of `metric` from the prior row to the current row, when the
      metric is a column and both cells hold numbers. */
  function Change(columns: set<string>, current: Record, prior: Record, metric: string): (c: Option<real>)
    ensures c.Some? <==> metric in columns && Cell(current, metric).Some? && Cell(prior, metric).Some?
    ensures c.Some? ==> Cell(prior, metric).value + c.value == Cell(current, metric).value
  {
    if metric in columns && Cell(current, metric).Some? && Cell(prior, metric).Some? then
      Some(Cell(current, metric).value - Cell(prior, metric).value)
    else None
  }

  ghost predicate Favourable(columns: set<string>, current: Record, prior: Record, metric: string) {
    Change(columns, current, prior, metric).Some? && IsPositiveChange(metric, Change(columns, current, prior, metric).value)
  }

  ghost predicate Unfavourable(columns: set<string>, current: Record, prior: Record, metric: string) {
    Change(columns, current, prior, metric).Some? && !IsPositiveChange(metric, Change(columns, current, prior, metric).value)
  }

  /** The sentence table has an entry for every metric of `ms`. */
  ghost predicate Covers(table: seq<(string, Sentences)>, ms: seq<string>) {
    forall i :: 0 <= i < |ms| ==> Lookup(table, ms[i]).Some?
  }

  /** Each metric of `ms` with its sentences from `table`: what the loop
      body has in hand once it has looked the metric up. */
  function Paired(ms: seq<string>, table: seq<(string, Sentences)>): (entries: seq<(string, Sentences)>)
    requires Covers(table, ms)
    ensures |entries| == |ms|
    ensures forall i :: 0 <= i < |ms| ==> entries[i] == (ms[i], Lookup(table, ms[i]).value)
  {
    seq(|ms|, i requires 0 <= i < |ms| => (ms[i], Lookup(table, ms[i]).value))
  }

  /** `h` is the highlight the metric of `entry` yields: its change is
      favourable and `h` is its non-empty "good" sentence. */
  ghost predicate Highlight(columns: set<string>, current: Record, prior: Record, entry: (string, Sentences), h: string) {
    Favourable(columns, current, prior, entry.0) && h == entry.1.good && |h| > 0
  }

  /** `r` is the risk the metric of `entry` yields: its change is
      unfavourable and `r` is its non-empty "bad" sentence. */
  ghost predicate Risk(columns: set<string>, current: Record, prior: Record, entry: (string, Sentences), r: string) {
    Unfavourable(columns, current, prior, entry.0) && r == entry.1.bad && |r| > 0
  }

  /** What one metric adds to `(risks, highlights)`: nothing without a change
      or with an empty description, else its description on the side the
      direction of the change picks. */
  function Contribution(columns: set<string>, current: Record, prior: Record, entry: (string, Sentences))
    : (added: (seq<string>, seq<string>))
    ensures added.1 == (if Highlight(columns, current, prior, entry, entry.1.good) then [entry.1.good] else [])
    ensures added.0 == (if Risk(columns, current, prior, entry, entry.1.bad) then [entry.1.bad] else [])
  {
    var (metric, sentences) := entry;
    match Change(columns, current, prior, metric)
    case None => ([], [])
    case Some(change) =>
      var description := Sentence(sentences, metric, change);
      if |description| == 0 then ([], [])
      else if IsPositiveChange(metric, change) then ([], [description])
      else ([description], [])
  }

  /** The loop over the metrics, accumulating `(risks, highlights)` metric by
      metric. */
  function Narrate(entries: seq<(string, Sentences)>, columns: set<string>, current: Record, prior: Record)
    : (out: (seq<string>, seq<string>))
    ensures |out.0| + |out.1| <= |entries|
    decreases |entries|
  {
    if |entries| == 0 then ([], [])
    else
      var prev := Narrate(entries[..|entries| - 1], columns, current, prior);
      var added := Contribution(columns, current, prior, entries[|entries| - 1]);
      (prev.0 + added.0, prev.1 + added.1)
  }

  /** The highlights are exactly the sentences the metrics yield as
      highlights. */
  lemma NarrateHighlights(entries: seq<(string, Sentences)>, columns: set<string>, current: Record, prior: Record)
    ensures forall h :: h in Narrate(entries, columns, current, prior).1 <==>
              exists i :: 0 <= i < |entries| && Highlight(columns, current, prior, entries[i], h)
  {
    forall h {
      NarrateHighlightsAt(entries, columns, current, prior, h);
    }
  }

  lemma {:induction false} NarrateHighlightsAt(entries: seq<(string, Sentences)>, columns: set<string>,
                                      current: Record, prior: Record, h: string)
    ensures h in Narrate(entries, columns, current, prior).1 <==>
              exists i :: 0 <= i < |entries| && Highlight(columns, current, prior, entries[i], h)
    decreases |entries|
  {
    if |entries| > 0 {
      var init := entries[..|entries| - 1];
      var n := |entries| - 1;
      NarrateHighlightsAt(init, columns, current, prior, h);
      if exists i :: 0 <= i < |entries| && Highlight(columns, current, prior, entries[i], h) {
        var i :| 0 <= i < |entries| && Highlight(columns, current, prior, entries[i], h);
        if i < n {
          assert init[i] == entries[i];
        }
      }
      if exists i :: 0 <= i < |init| && Highlight(columns, current, prior, init[i], h) {
        var i :| 0 <= i < |init| && Highlight(columns, current, prior, init[i], h);
        assert entries[i] == init[i];
      }
    }
  }

  /** The risks are exactly the sentences the metrics yield as risks. */
  lemma NarrateRisks(entries: seq<(string, Sentences)>, columns: set<string>, current: Record, prior: Record)
    ensures forall r :: r in Narrate(entries, columns, current, prior).0 <==>
              exists i :: 0 <= i < |entries| && Risk(columns, current, prior, entries[i], r)
  {
    forall r {
      NarrateRisksAt(entries, columns, current, prior, r);
    }
  }

  lemma {:induction false} NarrateRisksAt(entries: seq<(string, Sentences)>, columns: set<string>,
                                      current: Record, prior: Record, r: string)
    ensures r in Narrate(entries, columns, current, prior).0 <==>
              exists i :: 0 <= i < |entries| && Risk(columns, current, prior, entries[i], r)
    decreases |entries|
  {
    if |entries| > 0 {
      var init := entries[..|entries| - 1];
      var n := |entries| - 1;
      NarrateRisksAt(init, columns, current, prior, r);
      if exists i :: 0 <= i < |entries| && Risk(columns, current, prior, entries[i], r) {
        var i :| 0 <= i < |entries| && Risk(columns, current, prior, entries[i], r);
        if i < n {
          assert init[i] == entries[i];
        }
      }
      if exists i :: 0 <= i < |init| && Risk(columns, current, prior, init[i], r) {
        var i :| 0 <= i < |init| && Risk(columns, current, prior, init[i], r);
        assert entries[i] == init[i];
      }
    }
  }

  function GoodSentences(entries: seq<(string, Sentences)>): (goods: seq<string>)
    ensures |goods| == |entries| && forall i :: 0 <= i < |entries| ==> goods[i] == entries[i].1.good
  {
    seq(|entries|, i requires 0 <= i < |entries| => entries[i].1.good)
  }

  function BadSentences(entries: seq<(string, Sentences)>): (bads: seq<string>)
    ensures |bads| == |entries| && forall i :: 0 <= i < |entries| ==> bads[i] == entries[i].1.bad
  {
    seq(|entries|, i requires 0 <= i < |entries| => entries[i].1.bad)
  }

  /** Highlights follow the metric order, and so do risks. */
  lemma NarrateOrder(entries: seq<(string, Sentences)>, columns: set<string>, current: Record, prior: Record)
    ensures var out := Narrate(entries, columns, current, prior);
            Subseq(out.1, GoodSentences(entries)) && Subseq(out.0, BadSentences(entries))
  {
    HighlightsOrdered(entries, columns, current, prior);
    RisksOrdered(entries, columns, current, prior);
  }

  lemma {:induction false} HighlightsOrdered(entries: seq<(string, Sentences)>, columns: set<string>, current: Record, prior: Record)
    ensures Subseq(Narrate(entries, columns, current, prior).1, GoodSentences(entries))
    decreases |entries|
  {
    if |entries| > 0 {
      var init := entries[..|entries| - 1];
      var x := entries[|entries| - 1].1.good;
      HighlightsOrdered(init, columns, current, prior);
      var prev := Narrate(init, columns, current, prior).1;
      assert GoodSentences(entries) == GoodSentences(init) + [x];
      assert Narrate(entries, columns, current, prior).1
          == prev + Contribution(columns, current, prior, entries[|entries| - 1]).1;
      if Highlight(columns, current, prior, entries[|entries| - 1], x) {
        assert Narrate(entries, columns, current, prior).1 == prev + [x];
        SubseqAppendBoth(prev, GoodSentences(init), x);
      } else {
        assert Narrate(entries, columns, current, prior).1 == prev;
        SubseqExtend(prev, GoodSentences(init), x);
      }
    }
  }

  lemma {:induction false} RisksOrdered(entries: seq<(string, Sentences)>, columns: set<string>, current: Record, prior: Record)
    ensures Subseq(Narrate(entries, columns, current, prior).0, BadSentences(entries))
    decreases |entries|
  {
    if |entries| > 0 {
      var init := entries[..|entries| - 1];
      var x := entries[|entries| - 1].1.bad;
      RisksOrdered(init, columns, current, prior);
      var prev := Narrate(init, columns, current, prior).0;
      assert BadSentences(entries) == BadSentences(init) + [x];
      assert Narrate(entries, columns, current, prior).0
          == prev + Contribution(columns, current, prior, entries[|entries| - 1]).0;
      if Risk(columns, current, prior, entries[|entries| - 1], x) {
        assert Narrate(entries, columns, current, prior).0 == prev + [x];
        SubseqAppendBoth(prev, BadSentences(init), x);
      } else {
        assert Narrate(entries, columns, current, prior).0 == prev;
        SubseqExtend(prev, BadSentences(init), x);
      }
    }
  }

  // ---------------------------------------------------------------------------
  // Risk and highlight analysis
  // ---------------------------------------------------------------------------

  /** The first of `rows` for year `y`, the row `.iloc[0]` picks. */
  function FirstRowOf(rows: seq<Record>, y: int): (r: Option<Record>)
    ensures r.None? <==> forall i :: 0 <= i < |rows| ==> rows[i].year != y
    ensures r.Some? ==> exists i :: 0 <= i < |rows| && rows[i] == r.value && r.value.year == y
                                    && forall j :: 0 <= j < i ==> rows[j].year != y
    decreases |rows|
  {
    if |rows| == 0 then None
    else if rows[0].year == y then Some(rows[0])
    else
      var r := FirstRowOf(rows[1..], y);
      assert forall i :: 1 <= i < |rows| ==> rows[i] == rows[1..][i - 1];
      r
  }

  /** The company's first row for year `y` and its first row for the year
      before, when it has both. */
  function RowPair(t: Table, code: string, y: int): (p: Option<(Record, Record)>)
    ensures p.Some? <==> HasRow(t, code, y) && HasRow(t, code, y - 1)
    ensures p.Some? ==> && p.value.0 in t.rows && p.value.0.code == code && p.value.0.year == y
                        && p.value.1 in t.rows && p.value.1.code == code && p.value.1.year == y - 1
  {
    var current, prior := FirstRowOf(CompanyRows(t, code), y), FirstRowOf(CompanyRows(t, code), y - 1);
    FirstRowPresence(t, code, y);
    FirstRowPresence(t, code, y - 1);
    if current.Some? && prior.Some? then Some((current.value, prior.value)) else None
  }

  /** With one row per company and year, the row picked for a year is the
      company's only row for it. */
  lemma FirstRowUnique(t: Table, row: Record)
    requires WellFormed(t) && row in t.rows
    ensures FirstRowOf(CompanyRows(t, row.code), row.year) == Some(row)
  {
    var rows := CompanyRows(t, row.code);
    FirstRowPresence(t, row.code, row.year);
    var r := FirstRowOf(rows, row.year).value;
    var k :| 0 <= k < |rows| && rows[k] == r && r.year == row.year;
    assert r in rows;
    var i :| 0 <= i < |t.rows| && t.rows[i] == r;
    var j :| 0 <= j < |t.rows| && t.rows[j] == row;
    assert CodeYear(t.rows[i]) == CodeYear(t.rows[j]);
    assert i == j;
  }

  /** The current-year and prior-year rows the analysis compares: none when
      the company is unknown, the year text is not an integer, or the company
      lacks a row for that year or for the year before. */
  function YearComparison(t: Table, companyName: string, year: string): (p: Option<(Record, Record)>)
    ensures CompanyCode(companyName).None? || ParseYear(year).None? ==> p.None?
    ensures CompanyCode(companyName).Some? && ParseYear(year).Some? ==>
              p == RowPair(t, CompanyCode(companyName).value, ParseYear(year).value)
  {
    match CompanyCode(companyName)
    case None => None
    case Some(code) =>
      match ParseYear(year)
      case None => None
      case Some(y) => RowPair(t, code, y)
  }

  /** The company's first row for year `y` exists exactly when the table has a
      row of the company for that year, and it is such a row. */
  lemma FirstRowPresence(t: Table, code: string, y: int)
    ensures var r := FirstRowOf(CompanyRows(t, code), y);
            && (r.Some? <==> HasRow(t, code, y))
            && (r.Some? ==> r.value in t.rows && r.value.code == code && r.value.year == y)
  {
    var rows := CompanyRows(t, code);
    if FirstRowOf(rows, y).Some? {
      var i :| 0 <= i < |rows| && rows[i] == FirstRowOf(rows, y).value;
      assert rows[i] in rows;
    } else {
      forall a | a in t.rows && a.code == code
        ensures a.year != y
      {
        assert a in rows;
      }
    }
  }

  /** Every key metric has an entry in the sentence table. */
  lemma KeyMetricsCovered()
    ensures Covers(MetricSentences, KeyMetrics)
  {
    forall i | 0 <= i < |KeyMetrics|
      ensures Lookup(MetricSentences, KeyMetrics[i]).Some?
    {
      KeyMetricLookups(i);
    }
  }

  /** Each key metric with its sentences, in the order the analysis visits them. */
  function KeyEntries(): (entries: seq<(string, Sentences)>)
    ensures |entries| == |KeyMetrics|
    ensures forall i :: 0 <= i < |KeyMetrics| ==> entries[i] == (KeyMetrics[i], SentencesOf(KeyMetrics[i]))
  {
    KeyMetricsCovered();
    Paired(KeyMetrics, MetricSentences)
  }

  /** The sentence the loop uses for a key metric is the one
      `ChangeDescription` gives for it. */
  lemma KeyEntryDescription(i: int, change: real)
    requires 0 <= i < |KeyMetrics|
    ensures ChangeDescription(KeyMetrics[i], change) == Some(Sentence(KeyEntries()[i].1, KeyEntries()[i].0, change))
  {
    KeyMetricLookups(i);
  }

  /** `get_risk_highlight`: the `(risks, highlights)` sentences for the change
      of the key metrics from the year before `year` to `year`. Both lists are
      empty when the company is unknown, the year is not an integer, or either
      year has no row; together they hold at most one sentence per key metric. */
  function RiskHighlight(t: Table, companyName: string, year: string): (out: (seq<string>, seq<string>))
    ensures CompanyCode(companyName).None? ==> out == ([], [])
    ensures ParseYear(year).None? ==> out == ([], [])
    ensures CompanyCode(companyName).Some? && ParseYear(year).Some? ==>
              var code, y := CompanyCode(companyName).value, ParseYear(year).value;
              !HasRow(t, code, y) || !HasRow(t, code, y - 1) ==> out == ([], [])
    ensures |out.0| + |out.1| <= |KeyMetrics|
  {
    match YearComparison(t, companyName, year)
    case None => ([], [])
    case Some((current, prior)) => Narrate(KeyEntries(), t.columns, current, prior)
  }

  /** The change of `metric` the analysis sees, if it compares two rows and
      both hold a number for the metric. */
  ghost function KeyChange(t: Table, companyName: string, year: string, metric: string): Option<real> {
    match YearComparison(t, companyName, year)
    case None => None
    case Some((current, prior)) => Change(t.columns, current, prior, metric)
  }

  /** Each key metric with a change lands in exactly one list: its "good"
      sentence among the highlights exactly when the change is favourable,
      its "bad" sentence among the risks exactly when it is not, and never a
      sentence of it on the wrong side. */
  lemma RiskHighlightPartition(t: Table, companyName: string, year: string, metric: string)
    requires metric in KeyMetrics
    ensures var out := RiskHighlight(t, companyName, year);
            var change := KeyChange(t, companyName, year, metric);
            && (SentencesOf(metric).good in out.1 <==> change.Some? && IsPositiveChange(metric, change.value))
            && (SentencesOf(metric).bad in out.0 <==> change.Some? && !IsPositiveChange(metric, change.value))
            && SentencesOf(metric).good !in out.0
            && SentencesOf(metric).bad !in out.1
  {
    match YearComparison(t, companyName, year)
    case None =>
    case Some((current, prior)) =>
      var entries := KeyEntries();
      var good, bad := SentencesOf(metric).good, SentencesOf(metric).bad;
      var i := KeyIndex(metric);
      SentenceTableDistinct(i, i);
      KeyMetricLookups(i);
      NarrateHighlightsAt(entries, t.columns, current, prior, good);
      NarrateRisksAt(entries, t.columns, current, prior, bad);
      NarrateHighlightsAt(entries, t.columns, current, prior, bad);
      NarrateRisksAt(entries, t.columns, current, prior, good);
      assert Highlight(t.columns, current, prior, entries[i], good) <==> Favourable(t.columns, current, prior, metric);
      assert Risk(t.columns, current, prior, entries[i], bad) <==> Unfavourable(t.columns, current, prior, metric);
      forall j | 0 <= j < |entries|
        ensures Highlight(t.columns, current, prior, entries[j], good) ==> j == i
        ensures Risk(t.columns, current, prior, entries[j], bad) ==> j == i
        ensures !Highlight(t.columns, current, prior, entries[j], bad)
        ensures !Risk(t.columns, current, prior, entries[j], good)
      {
        SentencesDistinct(KeyMetrics[j], metric);
        SentencesDistinct(metric, KeyMetrics[j]);
        KeyMetricsDistinct();
      }
  }

  /** The highlights follow the order of the key metrics, and so do the risks. */
  lemma RiskHighlightOrder(t: Table, companyName: string, year: string)
    ensures var out := RiskHighlight(t, companyName, year);
            Subseq(out.1, GoodSentences(KeyEntries())) && Subseq(out.0, BadSentences(KeyEntries()))
  {
    match YearComparison(t, companyName, year)
    case None =>
    case Some((current, prior)) =>
      NarrateOrder(KeyEntries(), t.columns, current, prior);
  }
}
