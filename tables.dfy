/** The rows of the three input tables and of the two tables the wrangling
    step builds from them. A pandas cell that can hold NaN is an `Option`. */
module Tables {

  datatype Option<+T> = None | Some(value: T)

  /** The arms table's `Direction` column. */
  datatype Direction = Import | Export

  /** A row of the map topology's name table: columns `name` and `id`. */
  datatype Topology = Topology(name: string, id: int)

  /** A row of the World Bank GDP table: `Country`, `Year`, `GDP`. */
  datatype GdpRow = GdpRow(country: string, year: int, gdp: Option<real>)

  /** A row of the arms table, cut down to `Country`, `Year`, `Direction`,
      `USD_Value`. */
  datatype ArmsRow = ArmsRow(country: string, year: int, direction: Direction, usd: Option<real>)

  /** A row of `gdp_ids`: columns `Country`, `id`, `Year`, `GDP`. The `id`
      comes from the topology table, which the join keeps whole, so it is
      never absent. */
  datatype IdRow = IdRow(country: Option<string>, id: int, year: Option<int>, gdp: Option<real>)

  /** A row of `arms_gdp` before `percent_GDP` is added. */
  datatype JoinedRow = JoinedRow(
    country: Option<string>, year: Option<int>, direction: Option<Direction>,
    usd: Option<real>, id: int, gdp: Option<real>)

  /** A row of `arms_gdp`, the table every query reads. */
  datatype Record = Record(
    country: Option<string>, year: Option<int>, direction: Option<Direction>,
    usd: Option<real>, id: int, gdp: Option<real>, percent: Option<real>)
}
