/**
 Worked examples of the list pipeline and the chart aggregates on a few
 countries, and how the bar chart relates to the population-sorted list.
 */
module Scenarios {
  import opened Wrappers
  import opened Text
  import opened Collections
  import opened CountryModel
  import opened ContentView
  import opened ChartsView

  /** A country with only the fields the examples look at filled in. */
  function Sample(name: string, population: int, region: string): Country
  {
    Country(name, None, [], population, "", region, None)
  }

  const Aland := Sample("Aland", 30000, "Europe")
  const Benin := Sample("Benin", 12000000, "Africa")
  const Chad := Sample("Chad", 17000000, "Africa")
  const Malawi := Sample("Malawi", 19000000, "Africa")

  /** With no search text and no region, the list is the whole list, arranged. */
  lemma UnfilteredPopulationList(countries: seq<Country>)
    ensures FilteredCountries(countries, "", Worldwide, Population) == Arrange(countries, Population)
  {
    ByPopulationDescAsymmetric();
    assert RegionStep(countries, Worldwide) == countries;
    assert SearchStep(countries, "") == countries;
  }

  lemma PopulationOrderExample(countries: seq<Country>)
    requires countries == [Aland, Benin, Chad]
    ensures FilteredCountries(countries, "", Worldwide, Population) == [Chad, Benin, Aland]
  {
    UnfilteredPopulationList(countries);
    SortThree(countries);
  }

  lemma SortThree(countries: seq<Country>)
    requires countries == [Aland, Benin, Chad]
    ensures Arrange(countries, Population) == [Chad, Benin, Aland]
  {
    ByPopulationDescAsymmetric();
    assert countries[1..] == [Benin, Chad];
    SortTwo();
    InsertLast();
  }

  lemma SortTwo()
    requires Asymmetric(ByPopulationDesc)
    ensures Sort([Benin, Chad], ByPopulationDesc) == [Chad, Benin]
  {
    assert [Benin, Chad][1..] == [Chad];
    assert Sort([Chad], ByPopulationDesc) == [Chad];
    assert Insert(Benin, [Chad], ByPopulationDesc) == [Chad] + Insert(Benin, [], ByPopulationDesc);
  }

  lemma InsertLast()
    requires Asymmetric(ByPopulationDesc)
    ensures Insert(Aland, [Chad, Benin], ByPopulationDesc) == [Chad, Benin, Aland]
  {
    assert [Chad, Benin][1..] == [Benin];
    assert Insert(Aland, [Benin], ByPopulationDesc) == [Benin] + Insert(Aland, [], ByPopulationDesc);
  }

  lemma SearchExample()
    ensures MatchesSearch("ala", Aland) && MatchesSearch("ala", Malawi) && !MatchesSearch("ala", Benin)
  {
    assert Lowercased("ala") == "ala";
    assert Lowercased("Aland") == "aland";
    assert Lowercased("Malawi") == "malawi";
    assert Lowercased("Benin") == "benin";
    assert OccursAt("malawi", "ala", 1);
    ContainsIffOccurs("malawi", "ala");
    ContainsIffOccurs("benin", "ala");
    forall i ensures !OccursAt("benin", "ala", i) {
      if 0 <= i <= 2 {
        assert "benin"[i] != 'a';
      }
    }
  }

  /** Africa has two of the three sample countries and Europe one. */
  lemma SampleRegionCounts()
    ensures Regions([Aland, Benin, Chad]) == {"Africa", "Europe"}
    ensures CountInRegion([Aland, Benin, Chad], "Africa") == 2
    ensures CountInRegion([Aland, Benin, Chad], "Europe") == 1
  {
    var countries := [Aland, Benin, Chad];
    assert Aland in countries && Benin in countries;
    assert countries[..2] == [Aland, Benin] && [Aland, Benin][..1] == [Aland] && [Aland][..0] == [];
    assert CountInRegion([Aland], "Africa") == 0 && CountInRegion([Aland], "Europe") == 1;
    assert CountInRegion([Aland, Benin], "Africa") == 1 && CountInRegion([Aland, Benin], "Europe") == 1;
  }

  /** With exactly two regions present, the pie chart shows both, in name order,
      each with its number of countries. */
  lemma TwoRegionSlices(countries: seq<Country>, a: string, b: string)
    requires Regions(countries) == {a, b} && Less(a, b)
    ensures RegionSlices(countries) == [RegionCount(a, CountInRegion(countries, a)), RegionCount(b, CountInRegion(countries, b))]
  {
    var r := RegionSlices(countries);
    var ca, cb := CountInRegion(countries, a), CountInRegion(countries, b);
    TwoSlices(countries, a, b);
    SliceEntry(countries, 0);
    SliceEntry(countries, 1);
    OrderedPair(r, a, b, ca, cb);
  }

  lemma TwoSlices(countries: seq<Country>, a: string, b: string)
    requires Regions(countries) == {a, b} && Less(a, b)
    ensures |RegionSlices(countries)| == 2
  {
    LessIrreflexive(a);
    assert |Regions(countries)| == 2;
    assert |multiset(RegionSlices(countries))| == |multiset(TopRegions(countries))|;
  }

  /** Every slice is a region present in the list, with its true count. */
  lemma SliceEntry(countries: seq<Country>, i: nat)
    requires i < |RegionSlices(countries)|
    ensures var e := RegionSlices(countries)[i];
            e.region in Regions(countries) && e.count == CountInRegion(countries, e.region)
  {
    var top := TopRegions(countries);
    var r := RegionSlices(countries);
    assert r[i] in multiset(top);
    var j :| 0 <= j < |top| && top[j] == r[i];
  }

  /** Two entries, drawn from two known ones and strictly ascending by region, are those two in order. */
  lemma OrderedPair(r: seq<RegionCount>, a: string, b: string, ca: int, cb: int)
    requires |r| == 2 && Less(a, b) && Less(r[0].region, r[1].region)
    requires r[0] == RegionCount(a, ca) || r[0] == RegionCount(b, cb)
    requires r[1] == RegionCount(a, ca) || r[1] == RegionCount(b, cb)
    ensures r == [RegionCount(a, ca), RegionCount(b, cb)]
  {
    LessIrreflexive(a);
    LessIrreflexive(b);
    LessAsymmetric(a, b);
    assert r[0] == RegionCount(a, ca);
    assert r[1] == RegionCount(b, cb);
  }

  lemma RegionCountExample(countries: seq<Country>)
    requires countries == [Aland, Benin, Chad]
    ensures RegionSlices(countries) == [RegionCount("Africa", 2), RegionCount("Europe", 1)]
  {
    SampleRegionCounts();
    assert Less("Africa", "Europe");
    TwoRegionSlices(countries, "Africa", "Europe");
  }

  /** The bar chart's countries are the first five rows of the list tab when it
      is sorted by population with no search text and no region selected: both
      screens sort the same list with the same closure. */
  lemma TopFiveHeadsPopulationList(countries: seq<Country>)
    ensures TopFive(countries) == Prefix(FilteredCountries(countries, "", Worldwide, Population), 5)
  {
    ByPopulationDescAsymmetric();
    assert RegionStep(countries, Worldwide) == countries;
    assert SearchStep(countries, "") == countries;
  }

  lemma EmptyListExample()
    ensures FilteredCountries([], "", "", Alphabetical) == []
    ensures Body([]) == LoadingText
  {
  }
}
