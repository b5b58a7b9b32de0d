# World Wide Arms and Ammunition dashboard: the data pipeline, in Dafny

The dashboard in `app/app.py` shows arms imports and exports by country and
year, next to each country's GDP. Before any chart is drawn, the module
builds one table, `arms_gdp`, from three inputs:

- the map topology's name table, with columns `name` and `id`;
- a World Bank GDP table, with columns `Country`, `Year` and `GDP`;
- a UN arms-trade table, with columns `Country`, `Year`, `Direction` and `USD_Value`.

The callbacks then answer queries over that table: the world-map lookup data,
a top-15 ranking by percent of GDP and the per-country series. The dropdown's
country list is built once from the same table, together with the layout. This project models that pipeline as pure functions over sequences
of rows and proves what each step promises.

Modules:

- `Tables` (tables.dfy) holds the row types. A pandas cell that can be NaN is an `Option`.
- `Seqs` (seqs.dfy) has `Filter`, the order-preserving boolean mask, and `SubsequenceOf`.
- `Merge` (merge.dfy) has `RightJoin`, which models `merge(..., how='right')`. Both joins use it.
- `Wrangling` (wrangling.dfy) covers the topology join, the seven-name remap, the arms join, `percent_GDP`, and `ArmsGdp`, the whole step.
- `Ranking` (ranking.dfy) sorts descending by `percent_GDP` with absent values last, then takes the top n.
- `Text` (text.dfy) has Python's string order and `%d` formatting.
- `Queries` (queries.dfy) holds the callbacks' queries and the dropdown's country list.
- `Scenario` (scenario.dfy) is a worked two-country example run through the whole pipeline.

Modelling choices:

- The right join keeps the right table's rows in order. Each right row is replaced by its block: one row per matching left row, in left order, or, when no left row matches, a single row whose left-side columns are absent.
- `percent_GDP` is an exact `real`. It is absent when USD_Value or GDP is absent. It is also absent when GDP is zero, where pandas would give inf or NaN.
- The ranking's sort is an insertion sort. No contract says anything about the order of rows with equal `percent_GDP`. pandas' default sort is not stable, so that order is unspecified.
- `DataFrame.replace` scans every column. Only `Country` holds strings, so the model renames `Country` only.

Behaviour of app/app.py that a reader might not expect; the model follows it:

- The remap runs after the topology join. It rewrites the matched topology names (for example "United States") into the arms table's spelling ("USA"). It does not normalise names before the join.
- The per-country series is not sorted by year. It keeps table order, and only the chart axis orders it.
- No ranking tie-break is imposed.
- The world-map lookup data is the filtered rows keyed by `id`, not one row per topology unit.

## Model

| member | source | states |
|---|---|---|
| `Seqs.Filter` | app/app.py:237 | A boolean mask keeps exactly the rows that satisfy it, each as often as in the input, in input order. The same masking backs the queries at app/app.py:246, 297-298 and 326. |
| `Merge.RightJoin` | app/app.py:84-85 | A row is in the join iff it pairs a right row with a left row whose key matches, or it is the lone row of a right row that no left row matches. How often each row appears is stated by `Merge.RightJoinPairCount` and `Merge.RightJoinAloneCount`. |
| `Merge.PartnersCount` | app/app.py:84-85 | Within one right row's block, a paired row appears once per copy of its left row, when no other left row pairs into the same row. |
| `Merge.RightJoinPairCount` | app/app.py:84-85 | A matching (left row, right row) pair appears in the join once per copy of the left row, when no other pairing and no other right row yields the same output row. |
| `Merge.RightJoinAloneCount` | app/app.py:84-85 | A right row that no left row matches yields exactly one lone row, when no pairing and no other right row yields the same output row. |
| `Wrangling.TopologyJoin` | app/app.py:84-85 | `gdp_ids` holds exactly the (GDP row, topology row) pairs with `Country == name`, plus one all-absent row, carrying only the id, for each topology row with no GDP match. |
| `Wrangling.TopologyRowOrigin` | app/app.py:84-85 | Every `gdp_ids` row carries a topology id. A present Country is that topology row's name, so a GDP row whose Country is no topology name is dropped. |
| `Wrangling.TopologyCovered` | app/app.py:84-85 | Every topology row appears in `gdp_ids` at least once with its id. |
| `Wrangling.UnmatchedTopologyOnly` | app/app.py:84-85 | For a topology row with no GDP match, whose id no other topology row shares, every `gdp_ids` row with that id has Country, Year and GDP absent. |
| `Wrangling.UnmatchedTopologyOnce` | app/app.py:84-85 | For such a row (no GDP match, id shared by no other topology row), the all-absent row appears exactly once; other topology rows may share ids among themselves. |
| `Wrangling.MatchedTopologyOnce` | app/app.py:84-85 | For a topology row whose id no other row shares, a GDP row matching it yields as many `gdp_ids` rows with it as the GDP table holds copies of the GDP row. |
| `Wrangling.RenamesTargetsAreNotKeys` | app/app.py:86-92 | No replacement in the seven-entry table is itself a key. |
| `Wrangling.Rename` | app/app.py:86-93 | A name equal to a key becomes the table's value, and every other name is unchanged. The result is never a key. |
| `Wrangling.RenameIdempotent` | app/app.py:86-93 | Renaming twice equals renaming once. |
| `Wrangling.RenameRows` | app/app.py:93 | The remap keeps the row count, id, Year, GDP and Country presence. It rewrites exactly the Country values that are keys, and no Country afterwards is a key. |
| `Wrangling.RenameRowsIdempotent` | app/app.py:93 | Applying the remap to the table twice equals applying it once. |
| `Wrangling.ArmsJoin` | app/app.py:94-95 | A row is in `arms_gdp` iff it pairs a `gdp_ids` row with an arms row of equal (Country, Year), carrying the arms row's Direction and USD_Value, or it is a `gdp_ids` row with no arms match, with Direction and USD_Value absent. The counts are stated by `Wrangling.ArmsRowJoinedOnce` and `Wrangling.AloneOnce`. |
| `Wrangling.IdRowSurvives` | app/app.py:95 | Every `gdp_ids` row reaches `arms_gdp` with its Country, Year, id and GDP. |
| `Wrangling.JoinedRowExtends` | app/app.py:95 | Every `arms_gdp` row extends some `gdp_ids` row. |
| `Wrangling.UnmatchedArmsDropped` | app/app.py:95 | An arms row whose (Country, Year) no `gdp_ids` row has never appears in `arms_gdp`. |
| `Wrangling.ArmsRowJoinedOnce` | app/app.py:95 | For a `gdp_ids` row that occurs once in `gdp_ids`, each matching arms row yields as many joined rows with it as the arms row has copies in the arms table: exactly one when the arms rows are distinct. Other rows sharing its (Country, Year) are allowed. |
| `Wrangling.AloneOnce` | app/app.py:95 | A `gdp_ids` row with no arms match that occurs once in `gdp_ids` yields exactly one `arms_gdp` row, with Direction and USD_Value absent. |
| `Wrangling.Percent` | app/app.py:97 | `percent_GDP` is present iff USD_Value and GDP are present and GDP is nonzero. When present, it times GDP equals 100 times USD_Value. |
| `Wrangling.AddPercent` | app/app.py:97 | Adding the column keeps every other column of every row, and each row's `percent_GDP` obeys the rule above. |
| `Wrangling.ArmsGdp` | app/app.py:84-97 | Every row of `arms_gdp` has a consistent `percent_GDP`, and no Country in it is spelled like a remap key. |
| `Wrangling.EveryTopologyIdSurvives` | app/app.py:84-97 | Every topology id has at least one row in `arms_gdp`, whatever the GDP and arms tables hold. |
| `Wrangling.SourceSpellingNeverJoins` | app/app.py:86-95 | An arms row spelled like a remap key (e.g. "United States") never reaches `arms_gdp`. |
| `Ranking.InsertByPercent` | app/app.py:299 | Inserting into a descending sequence keeps it descending, with absent values last, and adds exactly the one row. |
| `Ranking.SortByPercent` | app/app.py:299 | The sort gives a permutation of its input, non-increasing in `percent_GDP` with absent values last. |
| `Ranking.PrefixRanksAbove` | app/app.py:299 | In a sorted sequence, no row after a prefix ranks above a row in it. |
| `Ranking.TopByPercent` | app/app.py:299 | `head(n)` of the sort has min(n, count) rows, is a sub-multiset of its input and is sorted. No row left out ranks above a kept row. |
| `Text.Less` | app/app.py:128 | Python's `<` on strings holds iff the two agree up to some position where the first ends while the second goes on, or the first has the smaller code point. |
| `Text.LessIrreflexive` | app/app.py:128 | No string sorts before itself. |
| `Text.LessTransitive` | app/app.py:128 | String order is transitive. |
| `Text.LessTotal` | app/app.py:128 | Of two distinct strings, one sorts first. |
| `Text.InsertName` | app/app.py:128 | Inserting a name into a strictly increasing list keeps it strictly increasing. Its members are the old ones plus the name. |
| `Text.Decimal` | app/app.py:320-321 | `%d` of a natural gives digits only, with no leading zero; 0 gives "0". |
| `Text.DecimalRoundTrip` | app/app.py:320-321 | Reading the digits back gives the number. |
| `Text.IntDecimal` | app/app.py:320-321 | `%d` of an integer starts with a minus sign exactly when the integer is negative, then has digits with no leading zero ("0" for zero), and reading it back gives the integer. |
| `Queries.ExcludeUsa` | app/app.py:237 | When the toggle is on, the table passes through unchanged. When it is off, no row has Country USA, and every other row, including those with Country absent, is kept as often as before and in order. |
| `Queries.MapStat` | app/app.py:239 | The map colours by `percent_GDP` iff the "% of GDP" toggle is on. |
| `Queries.YearSlice` | app/app.py:246 | The result is exactly the rows with the chosen Year and Direction, each as often as in the table, in order. |
| `Queries.LookupData` | app/app.py:246-247 | The lookup data has one row per record, keyed by its id. It carries `percent_GDP` when the toggle is on and `USD_Value` otherwise. |
| `Queries.WorldChartLookup` | app/app.py:237-247 | The map gets exactly one lookup row per record of the chosen Year and Direction after the USA toggle, in the same order. The k-th lookup row carries the k-th such record's id and its `percent_GDP` or `USD_Value`, as the toggle says. Each row therefore comes from a record of `arms_gdp` that is not USA's when USA is excluded. |
| `Queries.GdpPercentRanking` | app/app.py:297-299 | The ranking has at most 15 rows: min(15, count) of the rows with the chosen Year and Direction. It is non-increasing in `percent_GDP` with absent values last, and no left-out row ranks above a kept one. |
| `Queries.RankingTitle` | app/app.py:320-321 | The ranking title starts with the text naming the direction ("...Major Exporters in "). The rest is in `%d` form, with no leading zero, and reads back as the year. |
| `Queries.CountrySeries` | app/app.py:326 | The series is exactly the rows with the chosen Direction and Country, in order. It may be empty. |
| `Queries.CountryCharts` | app/app.py:326-334 | The percent-of-GDP chart and the USD chart draw the same rows, point for point. |
| `Queries.CountryOptions` | app/app.py:128 | The dropdown lists every present Country exactly once, in strictly increasing string order, and nothing else. |
| `Scenario.ExampleTopologyJoin` | app/app.py:84-85 | In the example, both topology rows match their GDP rows. |
| `Scenario.ExampleRename` | app/app.py:86-93 | In the example, "United States" becomes "USA" and "Germany" is unchanged. |
| `Scenario.ExampleArmsJoin` | app/app.py:94-95 | In the example, each arms row joins its country's 2018 row. |
| `Scenario.ExampleArmsGdp` | app/app.py:84-97 | In the example, `percent_GDP` is 50 for USA and 2.5 for Germany. |
| `Scenario.ExampleRankingOfTable` | app/app.py:297-299 | In the example, the 2018 export ranking is USA, then Germany. |
| `Scenario.ExampleRanking` | app/app.py:297-299 | From the raw tables of the example, the 2018 export ranking puts USA first. |

## Left out

- Loading the three tables over HTTPS and `alt.topo_feature` (app/app.py:74-81): network I/O. The tables are inputs to `ArmsGdp`.
- The Altair theme, chart encodings, projections, `to_html` and the Iframes (app/app.py:15-70, 242-263, 304-322, 326-336): rendering through libraries outside this code. That includes the map legend text (app/app.py:240) and the country charts' titles (app/app.py:329, 334).
- How the map's lookup transform resolves two rows with the same id: that is decided inside the rendering library.
- The Dash layout, widgets, callback wiring, `print` and `app.run_server` (app/app.py:100-235, 241, 339-342): UI and server plumbing. The dropdown's `{"label": x, "value": x}` wrapping is left out too; only the list of names is modelled.
- IEEE floating point. Values are exact reals, and a zero GDP gives an absent `percent_GDP` where pandas gives inf or NaN.
- pandas dtype changes, for example Year turning into a float column once NaN appears. Years are compared as numbers either way.
- Ranking.SortByPercent: the order among rows with equal `percent_GDP` is that of one particular sort. Nothing is claimed about it, because pandas' default sort is not stable.
- The string-built `query` expressions (app/app.py:246, 326): modelled as plain predicates. A country name containing a quote character, which would break the query string, is not modelled.
- pandas' matching of NaN join keys: arms rows always carry a Country and a Year.
- Direction values other than Import and Export: `Direction` has only those two.
- The unused `countries` list in `make_gdp_perc_chart` (app/app.py:293-294): the code never reads it.
