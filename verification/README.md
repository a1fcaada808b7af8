# Restaurant-group financial dashboard: data logic in Dafny

The dashboard in `app.py` loads one table of yearly financial ratios for five
listed restaurant groups. It answers four kinds of question about that table:

- which stock code belongs to a company name, and which years the table covers;
- the values of one metric for one company over its most recent five or ten
  years (`get_data_for_years`), which feed the trend chart;
- a narrative of "risks" and "highlights" built from the change of five key
  metrics between a year and the year before (`get_risk_highlight`);
- a year-over-year comparison table of every catalogued metric
  (`generate_comparison_table`).

This project models those queries as pure Dafny functions over an immutable
table and proves what they return.

- A row is `Record(code, year, cells)`. A cell holds `Some(x)` for a number
  and `None` (or is absent) for a value that `float` rejects.
- A table is its set of column names plus its rows in file order.
- The static tables of the class are constants with the exact strings of the
  source:
  - the company directory;
  - the 19-entry metric catalog;
  - the five key metrics;
  - their declared favourable direction;
  - their "good"/"bad" sentences.
- A Python dict literal is modelled as an association list read by first
  match (`Sequences.Lookup`). A dict that a function builds is modelled as its
  entries in insertion order (`Sequences.FromPairs`). Assigning to a key that
  is already present keeps its place and replaces its value.
- `str(year)`, `int(text)` and Python's string ordering are modelled in
  module `Text`.

Modules:

- `Wrappers`: `Option`.
- `Sequences`: sub-sequences, filtering, lookup, sorting.
- `Text`: year text, integer parsing, string order.
- `FinancialData`: the `FinancialData` class.
- `ChartGenerator`: the comparison table, and which companies the trend chart
  draws.

Three facts about the code shape the model:

- In `get_data_for_years`, a value in the window that `float` rejects raises
  inside the `try`. The catch-all handler then returns an empty dict, so
  `SeriesFor` is empty whenever one window cell is not a number.
- `get_years` sorts the years as *strings*. For four-digit years this is the
  numeric order (`FinancialData.YearsNumericOrder`).
- An empty CSV cell is read by pandas as NaN, which `float` accepts. A cell of
  the model holds `None` only for text that `float` rejects; NaN is not
  modelled (see "Left out").

## Model

| member | source | states |
|---|---|---|
| FinancialData.CompanyNames | app.py:146-148 | The directory names are the five companies, in declaration order. |
| FinancialData.CompanyCode | app.py:150-152 | Each of the five names maps to its fixed stock code (2723, 2727, 2729, 2732, 1268). The result is `None` exactly for names outside the directory. |
| FinancialData.DirectoryInjective | app.py:72-78 | No two directory names share a code, so a code identifies its company. |
| FinancialData.Years | app.py:154-156 | The year list is strictly ascending in string order and has no repeats. It contains the text of a year exactly when some row has that year. |
| FinancialData.RowYearTexts | app.py:156 | The texts of the rows' years are exactly the texts of the years some row has. |
| FinancialData.YearsNumericOrder | app.py:154-156 | When all years have four digits, each entry reads back as a year of the table, and the years strictly increase along the list. |
| Text.YearString | app.py:191 | Reading back the text a year is written as gives the year: `int(str(y)) == y`. |
| Text.ParseYear | app.py:220 | A text reads as an integer exactly when it is non-empty, ends in a digit, and is all decimal digits after an optional leading minus sign. A text of digits reads as a non-negative number; one with a minus sign reads as a non-positive one. |
| Text.ParseYearRoundTrip | app.py:220 | A text in the form `str` writes ("0", or digits without a leading zero, optionally after a minus sign) reads as the number that prints back as that text: `str(int(s)) == s`. |
| Text.ParseYearLeadingZero | app.py:220 | A leading zero does not change the number a digit text reads as, with or without a minus sign, and "-0" reads as 0, as with `int`. Together with the round trip this fixes the value of every accepted text. |
| Text.YearStringCanonical | app.py:191 | `str(y)` is always in that form, so the round trip covers every key the series writes. |
| Text.YearStringInjective | app.py:191 | Different years have different texts, so year keys never collide. |
| Text.FourDigitYearOrder | app.py:156 | For years 1000..9999, string order of the texts is the numeric order of the years, in both directions. |
| Text.LexLess | app.py:156 | `a < b` on strings holds exactly when, at some position k, a and b agree before k and either a ends at k or a's k-th character is smaller than b's. |
| Text.LexStrictTotalOrder | app.py:156 | Python's string `<` is irreflexive, transitive and total, so `sorted` on strings is well defined. |
| Sequences.SortDistinctSorted | app.py:156 | `sorted(set(xs))` is strictly ascending. |
| FinancialData.CompanyRows | app.py:170 | The company's rows are exactly the table rows with its code, kept in table order (a sub-sequence of the table). |
| FinancialData.CompanyRowsCount | app.py:170 | Each row of the company occurs among its rows as often as in the table, and no other row occurs. |
| FinancialData.SelectYears | app.py:179-182 | The window has min(W, n) years: W = 5 when the range is 5, else 10, and n is the number of available years. It is the last part of the ascending year list, with no padding. |
| FinancialData.SelectYearsRecent | app.py:179-182 | A year is selected exactly when it is available and fewer than W available years are later. |
| FinancialData.AvailableYearsFacts | app.py:177 | The available years are strictly ascending. They are exactly the company's years, each once. |
| FinancialData.SelectedIffRecent | app.py:177-182 | A year is in the window exactly when the company has it and fewer than W of its years are later. |
| FinancialData.WindowRows | app.py:184 | The kept rows are exactly the company's rows whose year is in the window, kept in order (a sub-sequence of the company's rows). |
| FinancialData.WindowRowsCount | app.py:184 | Each kept row occurs as often as among the company's rows, and a row outside the window does not occur. |
| FinancialData.WindowRowsNonEmpty | app.py:172-184 | A company with at least one row keeps at least one row in its window. |
| FinancialData.WindowRowsRecent | app.py:169-184 | A row is kept exactly when it is the company's and its year is among the W most recent. |
| FinancialData.SeriesFor | app.py:162-195 | The series is empty for an unknown company, for a company without rows, for a metric that is not a column, and when a window cell is not a number. It is non-empty exactly when none of these four holds. |
| Sequences.PutLaws | app.py:191 | After `d[k] = v`, `d[k]` is `v` and every other key reads as before. A new key is appended to the keys; a present key leaves the keys unchanged. |
| Sequences.FromPairs | app.py:191 | A dict built from pairs has no more entries than pairs. It is empty exactly when there are no pairs. |
| Sequences.FromPairsKeys | app.py:191 | The built dict has exactly the keys of the pairs it was built from. |
| Sequences.FromPairsDistinct | app.py:191 | The built dict never holds a key twice. |
| Sequences.FromPairsLast | app.py:191 | Each entry of the built dict is the last pair with its key. |
| Sequences.FromPairsIdentity | app.py:191 | Pairs with pairwise different keys build a dict of exactly those pairs, in order. |
| FinancialData.SeriesEntries | app.py:191 | Every entry is the year text and numeric value of a window row: a row of the company for one of its W most recent years, and the last window row for that year. |
| FinancialData.SeriesComplete | app.py:177-191 | For a known company with rows, a metric that is a column and numbers in every window cell, the series has an entry for every one of the company's W most recent years. |
| FinancialData.WindowKeys | app.py:177-191 | The keys of the dict built from the window rows are exactly the texts of the selected years. |
| FinancialData.SeriesExact | app.py:177-191 | Under the same four conditions, the series has exactly min(W, years on record) entries, with pairwise different keys, however many rows a year has. |
| FinancialData.SeriesPerRow | app.py:184-191 | Under the same four conditions and with one row per company and year, the series is one entry per window row, in table order. |
| FinancialData.IsPositiveChange | app.py:197-202 | A change is favourable exactly when it moves in the metric's favoured direction: a fall for the debt-to-asset ratio, a rise for every other metric. A zero change moves in no direction. |
| FinancialData.PolarityRule | app.py:197-202 | A zero change is never favourable. The debt ratio judges a change as any other metric judges its negation. |
| FinancialData.PolarityMatchesIndicatorLogic | app.py:104-120 | For each key metric, the direction declared in `indicator_logic` is the direction the hard-coded rule favours, and the rule agrees with it: a fall for the debt ratio, a rise for the others. |
| FinancialData.SentenceTableKeys | app.py:123-144 | The sentence table has an entry for exactly the five key metrics. |
| FinancialData.ChangeDescription | app.py:204-208 | A description exists exactly for the key metrics. For any other metric the lookup of the chosen sentence ("good" or "bad") in the empty default raises. |
| FinancialData.ChangeDescriptionChoice | app.py:204-208 | A key metric's description is non-empty. It is its "good" sentence exactly when the change is favourable, and its "bad" sentence exactly when it is not. |
| FinancialData.SentencesDistinct | app.py:123-144 | The ten sentences are pairwise different: no "good" sentence is a "bad" one, and different metrics have different sentences. |
| FinancialData.Change | app.py:245-249 | A change exists exactly when the metric is a column and both cells are numbers. The prior value plus the change is the current value. |
| FinancialData.Contribution | app.py:250-256 | One metric adds its "good" sentence to the highlights exactly when its change is favourable and the sentence is non-empty. It adds its "bad" sentence to the risks likewise. |
| FinancialData.Narrate | app.py:244-258 | The loop yields at most one sentence per metric. |
| FinancialData.NarrateHighlights | app.py:244-258 | The highlights are exactly the non-empty "good" sentences of the metrics with a favourable change. |
| FinancialData.NarrateRisks | app.py:244-258 | The risks are exactly the non-empty "bad" sentences of the metrics with an unfavourable change. |
| FinancialData.NarrateOrder | app.py:244-258 | Highlights are a sub-sequence of the metrics' "good" sentences in metric order. Risks are the same for the "bad" sentences. |
| FinancialData.FirstRowOf | app.py:229-230 | The picked row is the first row for the year. None is picked exactly when no row has that year. |
| FinancialData.FirstRowPresence | app.py:220-230 | The company has a first row for a year exactly when the table has a row of the company for that year, and that row is one. |
| FinancialData.FirstRowUnique | app.py:229-230 | With one row per company and year, the picked row is the company's only row for the year. |
| FinancialData.RowPair | app.py:220-230 | The two compared rows exist exactly when the company has rows for the year and the year before. They are those rows. |
| FinancialData.YearComparison | app.py:213-230 | No rows are compared for an unknown company or a year text that is not an integer. Otherwise the pair is the company's rows for the year and the year before. |
| FinancialData.KeyEntries | app.py:236-242 | The loop visits the five key metrics in list order, each with its own sentences. |
| FinancialData.KeyEntryDescription | app.py:251 | The sentence the loop uses for a key metric is the one `_get_change_description` gives. |
| FinancialData.RiskHighlight | app.py:210-264 | Both lists are empty for an unknown company, for a year that is not an integer, and when the year or the year before has no row. Together they hold at most five sentences. |
| FinancialData.RiskHighlightPartition | app.py:244-258 | A key metric's "good" sentence is a highlight exactly when its change exists and is favourable. Its "bad" sentence is a risk exactly when its change exists and is unfavourable. Neither sentence appears in the other list. |
| FinancialData.RiskHighlightOrder | app.py:244-260 | Highlights and risks follow the order of the key-metric list. |
| ChartGenerator.PercentChange | app.py:356 | The percentage is exactly 0 when the prior value is 0. Otherwise it times the prior value equals 100 times the change. |
| ChartGenerator.MakeRow | app.py:353-364 | A line carries the display label, both values, `change = current - prior`, and the percentage guarded against a zero prior value. |
| ChartGenerator.Rows | app.py:350-366 | The loop makes at most one line per catalog metric. |
| ChartGenerator.RowsFollowCatalog | app.py:350-366 | The lines are exactly one per catalog entry numeric in both rows, in catalog order. The k-th line is made from the k-th such entry. |
| ChartGenerator.ComparisonTable | app.py:326-368 | The table is empty for an unknown company and when the year or the year before has no row. It has at most 19 lines. |
| ChartGenerator.ComparisonTableContents | app.py:338-366 | When both years have rows, the table compares the company's rows for the two years. It has one line per metric numeric in both, in catalog order, with the values, their difference and the guarded percentage. |
| ChartGenerator.Drawn | app.py:276-297 | The drawn lines are exactly the series with points, in order, each as often as it occurs among the series. There is no chart exactly when no series has points. |
| ChartGenerator.LineChartTraces | app.py:271-302 | For a catalog metric, the chart draws one line per selected company with data, in selection order and as often as the company is selected, and is not drawn when no company has data. For a metric outside the catalog the title lookup raises and no chart is returned. |

## Left out

- The Streamlit page is presentation only and is not modelled: layout, CSS, widgets, the styled table, the company cards and `FinancialAnalysisApp.run`.
- The Plotly figure (titles, axes, tick labels, layout) is not modelled. The chart is reduced to which companies get a line, with which series.
- Reading the CSV and the pandas type coercion in `__init__` are I/O. The loaded table is a parameter.
- `st.error` messages are side effects and are left out. Every path that reaches a catch-all handler returns the empty result, as the source does.
- Real numbers stand for floats: rounding, NaN and infinities are not modelled.
- An empty key-metric cell is NaN in the source and is not skipped: its change is NaN, which is not favourable, so its "bad" sentence joins the risks; the comparison table gets a line of NaN; the series gets a NaN value. The model has no NaN and treats such a cell as not a number.
- The two-decimal string formatting of the comparison lines is not modelled. A line carries the numbers themselves.
- The `change_percent` argument of `_get_change_description` is not modelled: the function never uses it.
- `get_metric_names` and `get_company_names` return tables unchanged. Only the tables are modelled, with `CompanyNames` for the latter.
- `get_years` on a table with no year column raises a `KeyError`. This is not modelled, since the model's table always has years.
- ParseYear: the year text is parsed as an optional minus sign followed by ASCII decimal digits, which is how `YearComparison` reads it. Python's `int` also accepts surrounding blanks, a plus sign, underscores and non-ASCII decimal digits (`int("２０２２") == 2022`), and the model rejects those forms.
- The `KeyError` that `get_risk_highlight` would catch for a key metric without sentences is not modelled. It cannot arise, because every key metric has sentences (`SentenceTableKeys`). The loop is modelled over the key metrics already paired with their sentences (`KeyEntries`).
- ComparisonTableContents: it states each line through `MakeRow`, whose own contract carries the percentage rule. The lemma itself restates only the linear facts.
