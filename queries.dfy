/** The parameterised queries the dashboard runs over `arms_gdp`: those of
    its callbacks, each a pure function of the table and the widget values,
    and the dropdown's country list, built once with the layout. */
module Queries {
  import opened Tables
  import opened Seqs
  import opened Ranking
  import opened Text

  const Usa := "USA"

  /** The number of bars in the percent-of-GDP ranking. */
  const RankingSize := 15

  // ---------------------------------------------------------------------
  // Row predicates of the masks and `query` strings.

  function NotCountry(c: string): Record -> bool
  {
    (x: Record) => x.country != Some(c)
  }

  function InYearAndDirection(year: int, dir: Direction): Record -> bool
  {
    (x: Record) => x.year == Some(year) && x.direction == Some(dir)
  }

  function OfCountryAndDirection(country: string, dir: Direction): Record -> bool
  {
    (x: Record) => x.direction == Some(dir) && x.country == Some(country)
  }

  // ---------------------------------------------------------------------
  // World chart.

  /** The "Include USA" toggle. pandas evaluates `NaN != 'USA'` as true, so
      rows without a Country stay. */
  function ExcludeUsa(t: seq<Record>, includeUsa: bool): (r: seq<Record>)
    ensures includeUsa ==> r == t
    ensures !includeUsa ==> forall x :: x in r ==> x.country != Some(Usa)
    ensures !includeUsa ==> forall x: Record :: x.country != Some(Usa) ==> multiset(r)[x] == multiset(t)[x]
    ensures !includeUsa ==> SubsequenceOf(r, t)
  {
    if includeUsa then t else Filter(t, NotCountry(Usa))
  }

  /** The column the world map colours by. */
  datatype Metric = PercentGdp | UsdValue

  /** The "% of GDP" toggle's choice of column. */
  function MapStat(gdpPct: bool): (m: Metric)
    ensures m == PercentGdp <==> gdpPct
  {
    if gdpPct then PercentGdp else UsdValue
  }

  function MetricValue(x: Record, m: Metric): Option<real>
  {
    match m
    case PercentGdp => x.percent
    case UsdValue => x.usd
  }

  /** The rows of one year and one direction, in table order.
      `update_world_chart` chains `query("Year == ...")` and `query("Direction == ...")`, which
      selects the same rows as one mask with both conditions. */
  function YearSlice(t: seq<Record>, year: int, dir: Direction): (r: seq<Record>)
    ensures forall x :: x in r ==> x.year == Some(year) && x.direction == Some(dir)
    ensures forall x: Record :: x.year == Some(year) && x.direction == Some(dir) ==> multiset(r)[x] == multiset(t)[x]
    ensures SubsequenceOf(r, t)
  {
    Filter(t, InYearAndDirection(year, dir))
  }

  /** One row of the world map's lookup data: the topology id and the value
      of the chosen column. */
  datatype LookupRow = LookupRow(id: int, value: Option<real>)

  /** `alt.LookupData(rows, 'id', [map_stat])`: one row per record, keyed by
      its topology id, carrying `percent_GDP` when the "% of GDP" toggle is on
      and `USD_Value` otherwise. */
  function LookupData(f: seq<Record>, gdpPct: bool): (r: seq<LookupRow>)
    ensures |r| == |f|
    ensures forall k :: 0 <= k < |r| ==>
      r[k].id == f[k].id && r[k].value == (if gdpPct then f[k].percent else f[k].usd)
  {
    var m := MapStat(gdpPct);
    seq(|f|, k requires 0 <= k < |f| => LookupRow(f[k].id, MetricValue(f[k], m)))
  }

  /** The lookup data `update_world_chart` hands to the map. */
  function WorldChartLookup(t: seq<Record>, year: int, dir: Direction, includeUsa: bool, gdpPct: bool): (r: seq<LookupRow>)
    ensures var f := YearSlice(ExcludeUsa(t, includeUsa), year, dir);
      && |r| == |f|
      && forall k :: 0 <= k < |r| ==> r[k].id == f[k].id && r[k].value == (if gdpPct then f[k].percent else f[k].usd)
    ensures forall k :: 0 <= k < |r| ==> LookupFrom(r[k], t, year, dir, includeUsa, gdpPct)
  {
    var e := ExcludeUsa(t, includeUsa);
    var f := YearSlice(e, year, dir);
    var r := LookupData(f, gdpPct);
    assert forall k :: 0 <= k < |r| ==> LookupFrom(r[k], t, year, dir, includeUsa, gdpPct) by {
      forall k | 0 <= k < |r| ensures LookupFrom(r[k], t, year, dir, includeUsa, gdpPct) {
        assert f[k] in f;
        assert f[k] in multiset(e);
        if !includeUsa {
          assert f[k] in multiset(t);
        }
      }
    }
    r
  }

  /** Lookup row `l` comes from a record of `t` of the chosen year and
      direction (not USA's, when USA is excluded) and carries its id and the
      chosen column. */
  ghost predicate LookupFrom(l: LookupRow, t: seq<Record>, year: int, dir: Direction, includeUsa: bool, gdpPct: bool)
  {
    exists x :: x in t && x.id == l.id && x.year == Some(year) && x.direction == Some(dir)
      && (!includeUsa ==> x.country != Some(Usa))
      && l.value == (if gdpPct then x.percent else x.usd)
  }

  // ---------------------------------------------------------------------
  // Percent-of-GDP ranking.

  /** The table behind the ranking bar chart: the rows of the chosen year and
      direction, sorted by `percent_GDP` descending with absent values last,
      cut to the first fifteen. */
  function GdpPercentRanking(t: seq<Record>, year: int, dir: Direction): (r: seq<Record>)
    ensures |r| <= RankingSize
    ensures var f := YearSlice(t, year, dir);
      && |r| == Min(RankingSize, |f|)
      && multiset(r) <= multiset(f)
      && NonIncreasing(r)
      && forall k, y :: 0 <= k < |r| && y in multiset(f) - multiset(r) ==> RanksAbove(r[k].percent, y.percent)
    ensures forall x :: x in r ==> x.year == Some(year) && x.direction == Some(dir)
  {
    var f := YearSlice(t, year, dir);
    var r := TopByPercent(f, RankingSize);
    assert forall x :: x in r ==> x in multiset(f);
    r
  }

  function DirectionName(dir: Direction): string
  {
    match dir
    case Import => "Import"
    case Export => "Export"
  }

  /** The ranking chart's title up to the year. */
  function TitleHead(dir: Direction): string
  {
    "Arms Trade as a Percentage of GDP for Major " + DirectionName(dir) + "ers in "
  }

  /** The ranking chart's title: it names the direction and reads back as
      the chosen year. */
  function RankingTitle(dir: Direction, year: int): (title: string)
    ensures |title| > |TitleHead(dir)| && title[..|TitleHead(dir)|] == TitleHead(dir)
    ensures IntValue(title[|TitleHead(dir)|..]) == Some(year)
    ensures Canonical(title[|TitleHead(dir)|..])
  {
    var title := TitleHead(dir) + IntDecimal(year);
    assert title[|TitleHead(dir)|..] == IntDecimal(year);
    title
  }

  // ---------------------------------------------------------------------
  // Per-country charts.

  /** `arms_gdp.query('Direction == stat_type & Country == country')`; empty
      when the country has no such rows. */
  function CountrySeries(t: seq<Record>, dir: Direction, country: string): (r: seq<Record>)
    ensures forall x :: x in r ==> x.direction == Some(dir) && x.country == Some(country)
    ensures forall x: Record :: x.direction == Some(dir) && x.country == Some(country) ==> multiset(r)[x] == multiset(t)[x]
    ensures SubsequenceOf(r, t)
  {
    Filter(t, OfCountryAndDirection(country, dir))
  }

  /** One bar or area point: `Year` against a value column. */
  datatype Point = Point(year: Option<int>, value: Option<real>)

  /** The two charts side by side: the percent-of-GDP bars and the USD area. */
  datatype CountryView = CountryView(share: seq<Point>, usd: seq<Point>)

  /** Both country charts draw the same rows: point `k` of each comes from
      row `k` of the country series. */
  function CountryCharts(t: seq<Record>, dir: Direction, country: string): (v: CountryView)
    ensures var s := CountrySeries(t, dir, country);
      && |v.share| == |s| && |v.usd| == |s|
      && forall k :: 0 <= k < |s| ==>
        && v.share[k].year == s[k].year && v.usd[k].year == s[k].year
        && v.share[k].value == s[k].percent && v.usd[k].value == s[k].usd
  {
    var s := CountrySeries(t, dir, country);
    CountryView(
      seq(|s|, k requires 0 <= k < |s| => Point(s[k].year, s[k].percent)),
      seq(|s|, k requires 0 <= k < |s| => Point(s[k].year, s[k].usd)))
  }

  // ---------------------------------------------------------------------
  // Country dropdown.

  /** `arms_gdp['Country'].dropna().sort_values().unique()`: every present
      Country once, in increasing order. */
  function CountryOptions(t: seq<Record>): (r: seq<string>)
    ensures StrictlyIncreasing(r)
    ensures forall c :: c in r <==> exists x :: x in t && x.country == Some(c)
  {
    if t == [] then []
    else
      var init := t[..|t| - 1];
      var rest := CountryOptions(init);
      assert forall x :: x in t <==> x in init || x == t[|t| - 1] by {
        assert t == init + [t[|t| - 1]];
      }
      match t[|t| - 1].country
      case None => rest
      case Some(c) => InsertName(c, rest)
  }
}
