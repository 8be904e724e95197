/**
 The two aggregates the charts tab draws from the full country list: the five
 most populous countries, and the number of countries per region cut to the
 five largest regions and shown in region-name order.
 */
module ChartsView {
  import opened Text
  import opened Collections
  import opened CountryModel

  /** `countries.sorted(by: { $0.population > $1.population }).prefix(5)`. */
  function TopFive(countries: seq<Country>): (r: seq<Country>)
    ensures |r| == Min(5, |countries|)
    ensures multiset(r) <= multiset(countries)
    ensures forall i :: 0 < i < |r| ==> r[i - 1].population >= r[i].population
    // every chosen country is at least as populous as every country left out
    ensures forall x, y :: x in multiset(r) && y in multiset(countries) - multiset(r) ==> x.population >= y.population
    // the sort is stable: among countries of equal population, the chosen ones
    // are the first of them in the list's order
    ensures forall v :: |Filter(r, PopulationIs(v))| <= |Filter(countries, PopulationIs(v))|
                     && Filter(countries, PopulationIs(v))[..|Filter(r, PopulationIs(v))|] == Filter(r, PopulationIs(v))
  {
    ByPopulationDescAsymmetric();
    var sorted := Sort(countries, ByPopulationDesc);
    var r := Prefix(sorted, 5);
    assert sorted == r + sorted[|r|..];
    NonIncreasingPrefixDominates(sorted, (c: Country) => c.population, |r|);
    TopFiveTies(countries, r, sorted[|r|..]);
    r
  }

  lemma TopFiveTies(countries: seq<Country>, r: seq<Country>, rest: seq<Country>)
    requires Asymmetric(ByPopulationDesc) && r + rest == Sort(countries, ByPopulationDesc)
    ensures forall v :: |Filter(r, PopulationIs(v))| <= |Filter(countries, PopulationIs(v))|
                     && Filter(countries, PopulationIs(v))[..|Filter(r, PopulationIs(v))|] == Filter(r, PopulationIs(v))
  {
    forall v
      ensures |Filter(r, PopulationIs(v))| <= |Filter(countries, PopulationIs(v))|
           && Filter(countries, PopulationIs(v))[..|Filter(r, PopulationIs(v))|] == Filter(r, PopulationIs(v))
    {
      PopulationTies(v);
      SortStable(countries, ByPopulationDesc, PopulationIs(v));
      FilterPrefix(r, rest, PopulationIs(v));
    }
  }

  /** One entry of `Dictionary(grouping: countries, by: { $0.region }).mapValues { $0.count }`. */
  datatype RegionCount = RegionCount(region: string, count: int)

  function RegionOf(e: RegionCount): string
  {
    e.region
  }

  /** The regions that are keys of the grouping. */
  function Keys(groups: seq<RegionCount>): set<string>
  {
    set e | e in groups :: e.region
  }

  /** The sum of the counts. */
  function Total(groups: seq<RegionCount>): int
    decreases |groups|
  {
    if |groups| == 0 then 0 else groups[0].count + Total(groups[1..])
  }

  /** Dictionary lookup: the count stored for region `g`, or 0 when `g` is not a key. */
  function CountOf(groups: seq<RegionCount>, g: string): int
    decreases |groups|
  {
    if |groups| == 0 then 0
    else if groups[0].region == g then groups[0].count
    else CountOf(groups[1..], g)
  }

  /** The number of countries whose region is `g`. */
  function CountInRegion(countries: seq<Country>, g: string): nat
    decreases |countries|
  {
    if |countries| == 0 then 0
    else CountInRegion(countries[..|countries| - 1], g) + (if countries[|countries| - 1].region == g then 1 else 0)
  }

  lemma KeysCons(x: RegionCount, t: seq<RegionCount>)
    ensures Keys([x] + t) == {x.region} + Keys(t)
  {
    assert forall e :: e in [x] + t <==> e == x || e in t;
  }

  /** An entry is a key of any grouping holding it. */
  lemma InKeys(e: RegionCount, groups: seq<RegionCount>)
    requires e in groups
    ensures e.region in Keys(groups)
  {
  }

  lemma DistinctCons(x: RegionCount, t: seq<RegionCount>)
    requires DistinctBy(t, RegionOf) && x.region !in Keys(t)
    ensures DistinctBy([x] + t, RegionOf)
  {
    var r := [x] + t;
    forall i, j | 0 <= i < j < |r| ensures RegionOf(r[i]) != RegionOf(r[j]) {
      if i == 0 {
        assert r[j] == t[j - 1];
        InKeys(t[j - 1], t);
      } else {
        assert r[i] == t[i - 1] && r[j] == t[j - 1];
      }
    }
  }

  /** In a key-distinct grouping the head's region is not a key of the rest. */
  lemma KeysNotRepeated(groups: seq<RegionCount>)
    requires |groups| > 0 && DistinctBy(groups, RegionOf)
    ensures groups[0].region !in Keys(groups[1..])
    ensures DistinctBy(groups[1..], RegionOf)
  {
    forall e | e in groups[1..] ensures e.region != groups[0].region {
      var j :| 0 <= j < |groups[1..]| && groups[1..][j] == e;
      assert groups[j + 1] == e;
    }
  }

  /** Files one more country of region `g` into the grouping: its count goes up
      by one, or it becomes a new key with count 1. */
  function AddOne(groups: seq<RegionCount>, g: string): (r: seq<RegionCount>)
    requires DistinctBy(groups, RegionOf)
    ensures DistinctBy(r, RegionOf)
    ensures Keys(r) == Keys(groups) + {g}
    ensures forall k :: CountOf(r, k) == CountOf(groups, k) + (if k == g then 1 else 0)
    decreases |groups|
  {
    if |groups| == 0 then [RegionCount(g, 1)]
    else
      assert groups == [groups[0]] + groups[1..];
      KeysNotRepeated(groups);
      KeysCons(groups[0], groups[1..]);
      if groups[0].region == g then
        var x := groups[0].(count := groups[0].count + 1);
        KeysCons(x, groups[1..]);
        DistinctCons(x, groups[1..]);
        assert ([x] + groups[1..])[1..] == groups[1..];
        [x] + groups[1..]
      else
        var t := AddOne(groups[1..], g);
        KeysCons(groups[0], t);
        DistinctCons(groups[0], t);
        assert ([groups[0]] + t)[1..] == t;
        [groups[0]] + t
  }

  /** Filing one country raises the total by exactly one. */
  lemma {:induction false} AddOneTotal(groups: seq<RegionCount>, g: string)
    requires DistinctBy(groups, RegionOf)
    ensures Total(AddOne(groups, g)) == Total(groups) + 1
    decreases |groups|
  {
    if |groups| > 0 {
      KeysNotRepeated(groups);
      var r := AddOne(groups, g);
      if groups[0].region != g {
        AddOneTotal(groups[1..], g);
      }
      assert r[1..] == if groups[0].region == g then groups[1..] else AddOne(groups[1..], g);
    }
  }

  /** Filing one country keeps every count positive. */
  lemma {:induction false} AddOnePositive(groups: seq<RegionCount>, g: string)
    requires DistinctBy(groups, RegionOf)
    requires forall i :: 0 <= i < |groups| ==> groups[i].count >= 1
    ensures forall i :: 0 <= i < |AddOne(groups, g)| ==> AddOne(groups, g)[i].count >= 1
    decreases |groups|
  {
    if |groups| > 0 {
      KeysNotRepeated(groups);
      var r := AddOne(groups, g);
      if groups[0].region != g {
        AddOnePositive(groups[1..], g);
        assert r[1..] == AddOne(groups[1..], g);
      } else {
        assert r[1..] == groups[1..];
      }
      forall i | 0 < i < |r| ensures r[i].count >= 1 {
        assert r[i] == r[1..][i - 1];
      }
    }
  }

  /** The grouped counts: the keys are exactly the regions present, every
      count is the number of countries in that region and at least 1, and the
      counts add up to the number of countries. The keys come in first-seen
      order, standing in for the dictionary's unspecified order. */
  function GroupCounts(countries: seq<Country>): (r: seq<RegionCount>)
    ensures DistinctBy(r, RegionOf)
    ensures Keys(r) == Regions(countries)
    ensures forall g :: CountOf(r, g) == CountInRegion(countries, g)
    ensures forall i :: 0 <= i < |r| ==> r[i].count >= 1
    ensures Total(r) == |countries|
    decreases |countries|
  {
    if |countries| == 0 then []
    else
      var init := countries[..|countries| - 1];
      assert countries == init + [countries[|countries| - 1]];
      var groups := GroupCounts(init);
      AddOneTotal(groups, countries[|countries| - 1].region);
      AddOnePositive(groups, countries[|countries| - 1].region);
      AddOne(groups, countries[|countries| - 1].region)
  }

  /** In a key-distinct grouping, looking up an entry's region finds that entry's count. */
  lemma {:induction false} CountOfEntry(groups: seq<RegionCount>, i: nat)
    requires i < |groups| && DistinctBy(groups, RegionOf)
    ensures CountOf(groups, groups[i].region) == groups[i].count
    decreases i
  {
    if i > 0 {
      KeysNotRepeated(groups);
      assert groups[1..][i - 1] == groups[i];
      CountOfEntry(groups[1..], i - 1);
    }
  }

  /** A key-distinct grouping has one entry per key. */
  lemma {:induction false} KeysCardinality(groups: seq<RegionCount>)
    requires DistinctBy(groups, RegionOf)
    ensures |Keys(groups)| == |groups|
    decreases |groups|
  {
    if |groups| > 0 {
      KeysNotRepeated(groups);
      KeysCardinality(groups[1..]);
      assert groups == [groups[0]] + groups[1..];
      assert Keys(groups) == {groups[0].region} + Keys(groups[1..]);
    }
  }

  /** The closure `{ $0.value > $1.value }`: descending by count. */
  predicate ByCountDesc(a: RegionCount, b: RegionCount)
  {
    a.count > b.count
  }

  /** The closure `{ $0.key < $1.key }`: ascending by region name. */
  predicate ByRegionName(a: RegionCount, b: RegionCount)
  {
    Less(a.region, b.region)
  }

  /** `…sorted(by: { $0.value > $1.value }).prefix(5)`: at most five regions,
      each with its true count, none outnumbered by a region left out. */
  function TopRegions(countries: seq<Country>): (r: seq<RegionCount>)
    ensures |r| == Min(5, |Regions(countries)|)
    ensures DistinctBy(r, RegionOf)
    ensures forall i :: 0 <= i < |r| ==> r[i].region in Regions(countries) && r[i].count == CountInRegion(countries, r[i].region)
    ensures forall i, g :: 0 <= i < |r| && g in Regions(countries) && g !in Keys(r) ==> r[i].count >= CountInRegion(countries, g)
  {
    var groups := GroupCounts(countries);
    assert Asymmetric(ByCountDesc);
    var r := Prefix(Sort(groups, ByCountDesc), 5);
    TopRegionsFacts(countries, groups, Sort(groups, ByCountDesc), r);
    r
  }

  lemma TopRegionsFacts(countries: seq<Country>, groups: seq<RegionCount>, sorted: seq<RegionCount>, r: seq<RegionCount>)
    requires groups == GroupCounts(countries)
    requires multiset(sorted) == multiset(groups) && |sorted| == |groups| && SortedBy(sorted, ByCountDesc)
    requires r == Prefix(sorted, 5)
    ensures |r| == Min(5, |Regions(countries)|)
    ensures DistinctBy(r, RegionOf)
    ensures forall i :: 0 <= i < |r| ==> r[i].region in Regions(countries) && r[i].count == CountInRegion(countries, r[i].region)
    ensures forall i, g :: 0 <= i < |r| && g in Regions(countries) && g !in Keys(r) ==> r[i].count >= CountInRegion(countries, g)
  {
    PrefixLength(countries, groups, sorted, r);
    PrefixDistinct(groups, sorted, r);
    PrefixDominates(groups, sorted, r);
    forall i | 0 <= i < |r|
      ensures r[i].region in Regions(countries) && r[i].count == CountInRegion(countries, r[i].region)
    {
      SelectedEntry(countries, groups, r, i);
    }
    forall i, g | 0 <= i < |r| && g in Regions(countries) && g !in Keys(r)
      ensures r[i].count >= CountInRegion(countries, g)
    {
      UnselectedRegion(countries, groups, r, i, g);
    }
  }

  lemma PrefixLength(countries: seq<Country>, groups: seq<RegionCount>, sorted: seq<RegionCount>, r: seq<RegionCount>)
    requires groups == GroupCounts(countries)
    requires |sorted| == |groups| && r == Prefix(sorted, 5)
    ensures |r| == Min(5, |Regions(countries)|)
  {
    KeysCardinality(groups);
  }

  lemma PrefixDistinct(groups: seq<RegionCount>, sorted: seq<RegionCount>, r: seq<RegionCount>)
    requires DistinctBy(groups, RegionOf)
    requires multiset(sorted) == multiset(groups) && r == Prefix(sorted, 5)
    ensures DistinctBy(r, RegionOf)
  {
    PermutationKeepsDistinct(groups, sorted, RegionOf);
    assert forall i :: 0 <= i < |r| ==> r[i] == sorted[i];
  }

  /** The first five of the count-sorted grouping are drawn from it and outnumber the rest. */
  lemma PrefixDominates(groups: seq<RegionCount>, sorted: seq<RegionCount>, r: seq<RegionCount>)
    requires multiset(sorted) == multiset(groups) && SortedBy(sorted, ByCountDesc)
    requires r == Prefix(sorted, 5)
    ensures multiset(r) <= multiset(groups)
    ensures forall x, y :: x in multiset(r) && y in multiset(groups) - multiset(r) ==> x.count >= y.count
  {
    assert sorted == r + sorted[|r|..];
    assert multiset(sorted) == multiset(r) + multiset(sorted[|r|..]);
    NonIncreasingPrefixDominates(sorted, (e: RegionCount) => e.count, |r|);
  }

  /** An entry taken from the grouping carries its region's true count. */
  lemma SelectedEntry(countries: seq<Country>, groups: seq<RegionCount>, r: seq<RegionCount>, i: nat)
    requires groups == GroupCounts(countries)
    requires multiset(r) <= multiset(groups)
    requires i < |r|
    ensures r[i].region in Regions(countries) && r[i].count == CountInRegion(countries, r[i].region)
  {
    assert r[i] in multiset(r);
    assert r[i] in multiset(groups);
    var j :| 0 <= j < |groups| && groups[j] == r[i];
    CountOfEntry(groups, j);
    InKeys(r[i], groups);
  }

  /** A region not selected has no more countries than any selected one. */
  lemma UnselectedRegion(countries: seq<Country>, groups: seq<RegionCount>, r: seq<RegionCount>, i: nat, g: string)
    requires groups == GroupCounts(countries)
    requires multiset(r) <= multiset(groups)
    requires forall x, y :: x in multiset(r) && y in multiset(groups) - multiset(r) ==> x.count >= y.count
    requires i < |r| && g in Regions(countries) && g !in Keys(r)
    ensures r[i].count >= CountInRegion(countries, g)
  {
    assert g in Keys(groups);
    var e :| e in groups && e.region == g;
    var j :| 0 <= j < |groups| && groups[j] == e;
    CountOfEntry(groups, j);
    if e in r {
      InKeys(e, r);
    }
    assert multiset(r)[e] == 0;
    assert e in multiset(groups) - multiset(r);
    assert r[i] in multiset(r);
  }

  /** The pie chart's slices: the top regions re-sorted by region name, which
      comes out strictly ascending because the regions are distinct. */
  function RegionSlices(countries: seq<Country>): (r: seq<RegionCount>)
    ensures multiset(r) == multiset(TopRegions(countries))
    ensures forall i :: 0 < i < |r| ==> Less(r[i - 1].region, r[i].region)
  {
    var top := TopRegions(countries);
    assert Asymmetric(ByRegionName) by {
      LessIsStrictOrder();
    }
    var r := Sort(top, ByRegionName);
    PermutationKeepsDistinct(top, r, RegionOf);
    StrictFromDistinct(r);
    r
  }

  lemma StrictFromDistinct(r: seq<RegionCount>)
    requires SortedBy(r, ByRegionName) && DistinctBy(r, RegionOf)
    ensures forall i :: 0 < i < |r| ==> Less(r[i - 1].region, r[i].region)
  {
    forall i | 0 < i < |r| ensures Less(r[i - 1].region, r[i].region) {
      LessTrichotomy(r[i - 1].region, r[i].region);
    }
  }

  /** What the charts tab shows. */
  datatype ChartsScreen =
    | LoadingText
    | Charts(topFive: seq<Country>, regionSlices: seq<RegionCount>)

  /** `ChartsView.body`: nothing is computed for an empty list, only the loading
      text is shown; otherwise both charts, neither of them empty. */
  function Body(countries: seq<Country>): (r: ChartsScreen)
    ensures r.LoadingText? <==> |countries| == 0
    ensures r.Charts? ==> 1 <= |r.topFive| <= 5 && 1 <= |r.regionSlices| <= 5
  {
    if |countries| == 0 then LoadingText
    else
      Charts(TopFive(countries), RegionSlices(countries))
  }
}
