/** A worked example of the whole pipeline: two countries, one year, exports
    only. The topology and GDP tables spell the United States in full, the
    arms table as "USA"; the remap makes them meet. */
module Scenario {
  import opened Tables
  import opened Merge
  import opened Wrangling
  import opened Ranking
  import opened Queries

  const Us := Topology("United States", 840)
  const De := Topology("Germany", 276)
  const UsGdp := GdpRow("United States", 2018, Some(20000000.0))
  const DeGdp := GdpRow("Germany", 2018, Some(4000000.0))
  const UsArms := ArmsRow("USA", 2018, Export, Some(10000000.0))
  const DeArms := ArmsRow("Germany", 2018, Export, Some(100000.0))

  const UsId := IdRow(Some("USA"), 840, Some(2018), Some(20000000.0))
  const DeId := IdRow(Some("Germany"), 276, Some(2018), Some(4000000.0))

  const UsRecord := Record(Some("USA"), Some(2018), Some(Export), Some(10000000.0), 840, Some(20000000.0), Some(50.0))
  const DeRecord := Record(Some("Germany"), Some(2018), Some(Export), Some(100000.0), 276, Some(4000000.0), Some(2.5))

  lemma ExampleTopologyJoin()
    ensures TopologyJoin([UsGdp, DeGdp], [Us, De]) == [Matched(UsGdp, Us), Matched(DeGdp, De)]
  {
    var g := [UsGdp, DeGdp];
    assert !SameName(DeGdp, Us) && !SameName(UsGdp, De);
    assert Partners(g[1..][1..], Us, SameName, Matched) == [];
    assert Partners(g[1..], Us, SameName, Matched) == [];
    assert Partners(g, Us, SameName, Matched) == [Matched(UsGdp, Us)];
    assert Partners(g[1..][1..], De, SameName, Matched) == [];
    assert Partners(g[1..], De, SameName, Matched) == [Matched(DeGdp, De)];
    assert Partners(g, De, SameName, Matched) == [Matched(DeGdp, De)];
    assert !Unpartnered(g, Us, SameName);
    assert !Unpartnered(g, De, SameName);
    assert RightJoin(g, [Us, De][1..][1..], SameName, Matched, Unmatched) == [];
    assert RightJoin(g, [Us, De][1..], SameName, Matched, Unmatched) == [Matched(DeGdp, De)];
  }

  lemma ExampleRename()
    ensures RenameRows([Matched(UsGdp, Us), Matched(DeGdp, De)]) == [UsId, DeId]
  {
  }

  lemma ExampleArmsJoin()
    ensures ArmsJoin([UsArms, DeArms], [UsId, DeId]) == [Paired(UsArms, UsId), Paired(DeArms, DeId)]
  {
    var a := [UsArms, DeArms];
    assert !SameKey(DeArms, UsId) && !SameKey(UsArms, DeId);
    assert Partners(a[1..][1..], UsId, SameKey, Paired) == [];
    assert Partners(a[1..], UsId, SameKey, Paired) == [];
    assert Partners(a, UsId, SameKey, Paired) == [Paired(UsArms, UsId)];
    assert Partners(a[1..][1..], DeId, SameKey, Paired) == [];
    assert Partners(a[1..], DeId, SameKey, Paired) == [Paired(DeArms, DeId)];
    assert Partners(a, DeId, SameKey, Paired) == [Paired(DeArms, DeId)];
    assert !Unpartnered(a, UsId, SameKey);
    assert !Unpartnered(a, DeId, SameKey);
    assert RightJoin(a, [UsId, DeId][1..][1..], SameKey, Paired, Alone) == [];
    assert RightJoin(a, [UsId, DeId][1..], SameKey, Paired, Alone) == [Paired(DeArms, DeId)];
  }

  /** `arms_gdp` for the example: exports are 50% of the United States' GDP
      and 2.5% of Germany's. */
  lemma ExampleArmsGdp()
    ensures ArmsGdp([UsGdp, DeGdp], [UsArms, DeArms], [Us, De]) == [UsRecord, DeRecord]
  {
    ExampleTopologyJoin();
    ExampleRename();
    ExampleArmsJoin();
  }

  lemma ExampleRankingOfTable()
    ensures GdpPercentRanking([UsRecord, DeRecord], 2018, Export) == [UsRecord, DeRecord]
  {
  }

  /** The 2018 export ranking of the example puts USA first. */
  lemma ExampleRanking()
    ensures GdpPercentRanking(ArmsGdp([UsGdp, DeGdp], [UsArms, DeArms], [Us, De]), 2018, Export) == [UsRecord, DeRecord]
  {
    ExampleArmsGdp();
    ExampleRankingOfTable();
  }
}
