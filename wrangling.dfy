/** The module-level wrangling that builds `arms_gdp`: the topology join, the
    country-name remap, the arms join and the `percent_GDP` column. */
module Wrangling {
  import opened Tables
  import opened Merge

  // ---------------------------------------------------------------------
  // Topology join: GDP rows right-joined onto the topology names.

  predicate SameName(g: GdpRow, t: Topology)
  {
    g.country == t.name
  }

  /** The `gdp_ids` row for a GDP row that matched topology row `t`. */
  function Matched(g: GdpRow, t: Topology): IdRow
  {
    IdRow(Some(g.country), t.id, Some(g.year), g.gdp)
  }

  /** The `gdp_ids` row for a topology row no GDP row matched. */
  function Unmatched(t: Topology): IdRow
  {
    IdRow(None, t.id, None, None)
  }

  ghost predicate HasGdp(gdps: seq<GdpRow>, name: string)
  {
    exists g :: g in gdps && g.country == name
  }

  /** `gdp_ids` as the right join builds it, before the remap. */
  function TopologyJoin(gdps: seq<GdpRow>, topo: seq<Topology>): (ids: seq<IdRow>)
    ensures forall x :: x in ids <==>
      (exists t, g :: t in topo && g in gdps && g.country == t.name && x == Matched(g, t))
      || (exists t :: t in topo && !HasGdp(gdps, t.name) && x == Unmatched(t))
  {
    assert forall t :: Unpartnered(gdps, t, SameName) <==> !HasGdp(gdps, t.name);
    RightJoin(gdps, topo, SameName, Matched, Unmatched)
  }

  /** Every row of `gdp_ids` carries the id of a topology row; when it also
      carries a Country, that is the topology row's name, so a GDP row whose
      Country is no topology name is dropped. */
  lemma TopologyRowOrigin(gdps: seq<GdpRow>, topo: seq<Topology>, x: IdRow)
    requires x in TopologyJoin(gdps, topo)
    ensures exists t :: (t in topo && t.id == x.id
                         && (x.country.Some? ==> x.country.value == t.name)
                         && (x.country.None? ==> x == Unmatched(t) && !HasGdp(gdps, t.name)))
  {
  }

  /** Every topology row has a row with its id in `gdp_ids`. */
  lemma TopologyCovered(gdps: seq<GdpRow>, topo: seq<Topology>, t: Topology)
    requires t in topo
    ensures exists x :: x in TopologyJoin(gdps, topo) && x.id == t.id
  {
    if HasGdp(gdps, t.name) {
      var g :| g in gdps && g.country == t.name;
      assert Matched(g, t) in TopologyJoin(gdps, topo);
    } else {
      assert Unmatched(t) in TopologyJoin(gdps, topo);
    }
  }

  /** A topology row that no GDP row matches, and whose id no other topology
      row shares, is the only source of rows with its id in `gdp_ids`: they
      all have Country, Year and GDP absent. */
  lemma UnmatchedTopologyOnly(gdps: seq<GdpRow>, topo: seq<Topology>, i: nat)
    requires i < |topo| && !HasGdp(gdps, topo[i].name)
    requires forall j :: 0 <= j < |topo| && j != i ==> topo[j].id != topo[i].id
    ensures forall x :: x in TopologyJoin(gdps, topo) && x.id == topo[i].id ==> x == Unmatched(topo[i])
  {
  }

  /** ... and it stands there exactly once. */
  lemma UnmatchedTopologyOnce(gdps: seq<GdpRow>, topo: seq<Topology>, i: nat)
    requires i < |topo| && !HasGdp(gdps, topo[i].name)
    requires forall j :: 0 <= j < |topo| && j != i ==> topo[j].id != topo[i].id
    ensures multiset(TopologyJoin(gdps, topo))[Unmatched(topo[i])] == 1
  {
    RightJoinAloneCount(gdps, topo, SameName, Matched, Unmatched, i);
  }

  /** A GDP row matching topology row `topo[i]`, whose id no other topology
      row shares, yields exactly as many `gdp_ids` rows with it as the GDP
      table holds copies of the GDP row: one, when the GDP rows are distinct. */
  lemma MatchedTopologyOnce(gdps: seq<GdpRow>, topo: seq<Topology>, g: GdpRow, i: nat)
    requires i < |topo| && g in gdps && SameName(g, topo[i])
    requires forall j :: 0 <= j < |topo| && j != i ==> topo[j].id != topo[i].id
    ensures multiset(TopologyJoin(gdps, topo))[Matched(g, topo[i])] == multiset(gdps)[g]
  {
    RightJoinPairCount(gdps, topo, SameName, Matched, Unmatched, g, i);
  }

  // ---------------------------------------------------------------------
  // Country-name remap, applied to `gdp_ids` after the topology join.

  /** The seven spellings rewritten into the arms table's spelling. */
  const CountryRenames: map<string, string> := map[
    "Bosnia and Herzegovina" := "Bosnia Herzegovina",
    "Central African Republic" := "Central African Rep.",
    "Cote d'Ivoire" := "Côte d'Ivoire",
    "Czech Republic" := "Czech Rep.",
    "Dominican Republic" := "Dominican Rep.",
    "Solomon Islands" := "Solomon Isds",
    "United States" := "USA"
  ]

  /** No replacement is itself a key of the table. */
  lemma RenamesTargetsAreNotKeys()
    ensures CountryRenames.Values !! CountryRenames.Keys
  {
  }

  /** `DataFrame.replace` on one value: an exact match of a key is replaced,
      every other value is kept. The result is never a key. */
  function Rename(name: string): (r: string)
    ensures name in CountryRenames ==> r == CountryRenames[name]
    ensures name !in CountryRenames ==> r == name
    ensures r !in CountryRenames
  {
    RenamesTargetsAreNotKeys();
    if name in CountryRenames then CountryRenames[name] else name
  }

  /** Renaming twice is renaming once. */
  lemma RenameIdempotent(name: string)
    ensures Rename(Rename(name)) == Rename(name)
  {
  }

  function RenameCountry(c: Option<string>): Option<string>
  {
    match c
    case None => None
    case Some(n) => Some(Rename(n))
  }

  /** `gdp_ids.replace(replacements_country_names)`: only `Country` holds
      strings, so only `Country` can change. */
  function RenameRows(ids: seq<IdRow>): (r: seq<IdRow>)
    ensures |r| == |ids|
    ensures forall k :: 0 <= k < |r| ==>
      && r[k].id == ids[k].id && r[k].year == ids[k].year && r[k].gdp == ids[k].gdp
      && r[k].country.Some? == ids[k].country.Some?
    ensures forall k :: 0 <= k < |r| && ids[k].country.Some? ==>
      && r[k].country.value !in CountryRenames
      && (ids[k].country.value in CountryRenames ==> r[k].country.value == CountryRenames[ids[k].country.value])
      && (ids[k].country.value !in CountryRenames ==> r[k].country == ids[k].country)
  {
    seq(|ids|, k requires 0 <= k < |ids| => ids[k].(country := RenameCountry(ids[k].country)))
  }

  /** Applying the remap to the table twice equals applying it once. */
  lemma RenameRowsIdempotent(ids: seq<IdRow>)
    ensures RenameRows(RenameRows(ids)) == RenameRows(ids)
  {
  }

  // ---------------------------------------------------------------------
  // Arms join: arms rows right-joined onto `gdp_ids` on (Country, Year).

  predicate SameKey(a: ArmsRow, g: IdRow)
  {
    g.country == Some(a.country) && g.year == Some(a.year)
  }

  /** The `arms_gdp` row for arms row `a` matched with `gdp_ids` row `g`. */
  function Paired(a: ArmsRow, g: IdRow): JoinedRow
  {
    JoinedRow(g.country, g.year, Some(a.direction), a.usd, g.id, g.gdp)
  }

  /** The `arms_gdp` row for a `gdp_ids` row no arms row matched. */
  function Alone(g: IdRow): JoinedRow
  {
    JoinedRow(g.country, g.year, None, None, g.id, g.gdp)
  }

  ghost predicate HasArms(arms: seq<ArmsRow>, g: IdRow)
  {
    exists a :: a in arms && SameKey(a, g)
  }

  /** `x` carries all of `gdp_ids` row `g`'s columns. */
  ghost predicate Extends(x: JoinedRow, g: IdRow)
  {
    x.country == g.country && x.year == g.year && x.id == g.id && x.gdp == g.gdp
  }

  /** `x` carries all of arms row `a`'s columns. */
  ghost predicate Carries(x: JoinedRow, a: ArmsRow)
  {
    x.country == Some(a.country) && x.year == Some(a.year) && x.direction == Some(a.direction) && x.usd == a.usd
  }

  /** `arms_cleaned.merge(gdp_ids, on=['Country', 'Year'], how='right')`. */
  function ArmsJoin(arms: seq<ArmsRow>, ids: seq<IdRow>): (rows: seq<JoinedRow>)
    ensures forall x :: x in rows <==>
      (exists g, a :: g in ids && a in arms && SameKey(a, g) && x == Paired(a, g))
      || (exists g :: g in ids && !HasArms(arms, g) && x == Alone(g))
  {
    assert forall g :: Unpartnered(arms, g, SameKey) <==> !HasArms(arms, g);
    RightJoin(arms, ids, SameKey, Paired, Alone)
  }

  /** Every `gdp_ids` row survives the arms join with all its columns. */
  lemma IdRowSurvives(arms: seq<ArmsRow>, ids: seq<IdRow>, g: IdRow)
    requires g in ids
    ensures exists x :: x in ArmsJoin(arms, ids) && Extends(x, g)
  {
    if HasArms(arms, g) {
      var a :| a in arms && SameKey(a, g);
      assert Paired(a, g) in ArmsJoin(arms, ids);
    } else {
      assert Alone(g) in ArmsJoin(arms, ids);
    }
  }

  /** Every `arms_gdp` row extends some `gdp_ids` row. */
  lemma JoinedRowExtends(arms: seq<ArmsRow>, ids: seq<IdRow>, x: JoinedRow)
    requires x in ArmsJoin(arms, ids)
    ensures exists g :: g in ids && Extends(x, g)
  {
  }

  /** An arms row whose (Country, Year) no `gdp_ids` row has never reaches
      `arms_gdp`. */
  lemma UnmatchedArmsDropped(arms: seq<ArmsRow>, ids: seq<IdRow>, a: ArmsRow)
    requires forall g :: g in ids ==> !SameKey(a, g)
    ensures forall x :: x in ArmsJoin(arms, ids) ==> !Carries(x, a)
  {
  }

  /** An arms row matching a `gdp_ids` row that occurs once in `gdp_ids`
      yields exactly as many `arms_gdp` rows with it as the arms table holds
      copies of the arms row: one, when the arms rows are distinct. Other
      `gdp_ids` rows may share the (Country, Year); each gets its own rows. */
  lemma ArmsRowJoinedOnce(arms: seq<ArmsRow>, ids: seq<IdRow>, a: ArmsRow, i: nat)
    requires i < |ids| && SameKey(a, ids[i]) && a in arms
    requires forall j :: 0 <= j < |ids| && j != i ==> ids[j] != ids[i]
    ensures multiset(ArmsJoin(arms, ids))[Paired(a, ids[i])] == multiset(arms)[a]
  {
    RightJoinPairCount(arms, ids, SameKey, Paired, Alone, a, i);
  }

  /** A `gdp_ids` row that no arms row matches, and that occurs once in
      `gdp_ids`, yields exactly one `arms_gdp` row, with Direction and
      USD_Value absent. */
  lemma AloneOnce(arms: seq<ArmsRow>, ids: seq<IdRow>, i: nat)
    requires i < |ids| && !HasArms(arms, ids[i])
    requires forall j :: 0 <= j < |ids| && j != i ==> ids[j] != ids[i]
    ensures multiset(ArmsJoin(arms, ids))[Alone(ids[i])] == 1
  {
    RightJoinAloneCount(arms, ids, SameKey, Paired, Alone, i);
  }

  // ---------------------------------------------------------------------
  // The derived column `percent_GDP`.

  /** What `percent_GDP` means: present exactly when USD_Value and a nonzero
      GDP are, and then USD_Value as a percentage of GDP. */
  ghost predicate PercentOf(p: Option<real>, usd: Option<real>, gdp: Option<real>)
  {
    && (p.Some? <==> usd.Some? && gdp.Some? && gdp.value != 0.0)
    && (p.Some? ==> p.value * gdp.value == 100.0 * usd.value)
  }

  /** `100 * USD_Value / GDP`, absent when either operand is absent and, in
      place of the infinity or NaN pandas would give, when GDP is zero. */
  function Percent(usd: Option<real>, gdp: Option<real>): (p: Option<real>)
    ensures PercentOf(p, usd, gdp)
  {
    if usd.Some? && gdp.Some? && gdp.value != 0.0 then Some(100.0 * usd.value / gdp.value) else None
  }

  /** A record whose `percent_GDP` agrees with its USD_Value and GDP. */
  ghost predicate PercentConsistent(r: Record)
  {
    PercentOf(r.percent, r.usd, r.gdp)
  }

  /** The columns of a record other than `percent_GDP`. */
  function Strip(r: Record): JoinedRow
  {
    JoinedRow(r.country, r.year, r.direction, r.usd, r.id, r.gdp)
  }

  /** `arms_gdp['percent_GDP'] = 100 * arms_gdp['USD_Value'] / arms_gdp['GDP']`. */
  function AddPercent(rows: seq<JoinedRow>): (recs: seq<Record>)
    ensures |recs| == |rows|
    ensures forall k :: 0 <= k < |recs| ==> Strip(recs[k]) == rows[k] && PercentConsistent(recs[k])
  {
    seq(|rows|, k requires 0 <= k < |rows| =>
      var x := rows[k];
      Record(x.country, x.year, x.direction, x.usd, x.id, x.gdp, Percent(x.usd, x.gdp)))
  }

  // ---------------------------------------------------------------------
  // The whole wrangling step.

  /** `arms_gdp` built from the three input tables. */
  function ArmsGdp(gdps: seq<GdpRow>, arms: seq<ArmsRow>, topo: seq<Topology>): (recs: seq<Record>)
    ensures forall r :: r in recs ==> PercentConsistent(r)
    ensures forall r :: r in recs && r.country.Some? ==> r.country.value !in CountryRenames
  {
    var ids := RenameRows(TopologyJoin(gdps, topo));
    var rows := ArmsJoin(arms, ids);
    var recs := AddPercent(rows);
    assert forall r :: r in recs && r.country.Some? ==> r.country.value !in CountryRenames by {
      forall r | r in recs && r.country.Some? ensures r.country.value !in CountryRenames {
        var k :| 0 <= k < |recs| && recs[k] == r;
        JoinedRowExtends(arms, ids, rows[k]);
        var g :| g in ids && Extends(rows[k], g);
        var j :| 0 <= j < |ids| && ids[j] == g;
      }
    }
    recs
  }

  /** Every topology unit keeps at least one row of `arms_gdp`, with its id,
      whatever the GDP and arms tables hold. */
  lemma EveryTopologyIdSurvives(gdps: seq<GdpRow>, arms: seq<ArmsRow>, topo: seq<Topology>, t: Topology)
    requires t in topo
    ensures exists r :: r in ArmsGdp(gdps, arms, topo) && r.id == t.id
  {
    var ids0 := TopologyJoin(gdps, topo);
    var ids := RenameRows(ids0);
    var rows := ArmsJoin(arms, ids);
    var recs := AddPercent(rows);
    TopologyCovered(gdps, topo, t);
    var y :| y in ids0 && y.id == t.id;
    var j :| 0 <= j < |ids0| && ids0[j] == y;
    IdRowSurvives(arms, ids, ids[j]);
    var x :| x in rows && Extends(x, ids[j]);
    var k :| 0 <= k < |rows| && rows[k] == x;
    assert recs[k] in recs;
  }

  /** An arms row spelled like a key of the remap table (say "United States")
      never joins: after the remap no `gdp_ids` row carries that spelling. */
  lemma SourceSpellingNeverJoins(gdps: seq<GdpRow>, arms: seq<ArmsRow>, topo: seq<Topology>, a: ArmsRow)
    requires a.country in CountryRenames
    ensures forall r :: r in ArmsGdp(gdps, arms, topo) ==> !Carries(Strip(r), a)
  {
  }
}
