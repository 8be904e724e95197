/**
 The logic behind the country list screen: the filter-and-sort pipeline that
 decides which countries are listed and in what order, the region picker's
 option list, and the favourites list with its toggle.
 */
module ContentView {
  import opened Text
  import opened Collections
  import opened CountryModel

  /** The segmented "Sort by" picker. */
  datatype SortOption = Alphabetical | Population | Region

  /** The synthetic first entry of the region picker, meaning "no region restriction". */
  const Worldwide: string := "Worldwide"

  /** The region filter is on when a region is selected and it is not "Worldwide".
      This does not depend on the sort option. */
  predicate RegionFilterOn(selectedRegion: string)
  {
    selectedRegion != Worldwide && |selectedRegion| > 0
  }

  predicate InSelectedRegion(selectedRegion: string, c: Country)
  {
    !RegionFilterOn(selectedRegion) || c.region == selectedRegion
  }

  /** An empty search matches everything; otherwise the lowercased name must
      contain the lowercased search text. */
  predicate MatchesSearch(searchText: string, c: Country)
  {
    |searchText| == 0 || Contains(Lowercased(c.name), Lowercased(searchText))
  }

  /** The country survives both filters of the list screen. */
  predicate Listed(searchText: string, selectedRegion: string, c: Country)
  {
    InSelectedRegion(selectedRegion, c) && MatchesSearch(searchText, c)
  }

  /** The closure `{ $0.region == selectedRegion }`. */
  function InRegion(selectedRegion: string): Country -> bool
  {
    (c: Country) => c.region == selectedRegion
  }

  /** The closure `{ $0.name.lowercased().contains(searchText.lowercased()) }`. */
  function NameContains(searchText: string): Country -> bool
  {
    (c: Country) => Contains(Lowercased(c.name), Lowercased(searchText))
  }

  /** First step of `filteredCountries`: the region filter, applied only when it is on. */
  function RegionStep(countries: seq<Country>, selectedRegion: string): (r: seq<Country>)
    ensures forall c :: multiset(r)[c] == if InSelectedRegion(selectedRegion, c) then multiset(countries)[c] else 0
    ensures IsSubsequence(r, countries)
  {
    if RegionFilterOn(selectedRegion) then Filter(countries, InRegion(selectedRegion))
    else
      SubsequenceReflexive(countries);
      countries
  }

  /** Second step of `filteredCountries`: the search filter, applied only to a non-empty search. */
  function SearchStep(countries: seq<Country>, searchText: string): (r: seq<Country>)
    ensures forall c :: multiset(r)[c] == if MatchesSearch(searchText, c) then multiset(countries)[c] else 0
    ensures IsSubsequence(r, countries)
  {
    if |searchText| > 0 then Filter(countries, NameContains(searchText))
    else
      SubsequenceReflexive(countries);
      countries
  }

  /** Elements of a sequence whose multiset holds only listed countries are listed. */
  lemma AllListed(r: seq<Country>, countries: seq<Country>, searchText: string, selectedRegion: string)
    requires forall c :: multiset(r)[c] == if Listed(searchText, selectedRegion, c) then multiset(countries)[c] else 0
    ensures forall i :: 0 <= i < |r| ==> Listed(searchText, selectedRegion, r[i])
    ensures RegionFilterOn(selectedRegion) ==> forall i :: 0 <= i < |r| ==> r[i].region == selectedRegion
    ensures |searchText| > 0 ==> forall i :: 0 <= i < |r| ==> Contains(Lowercased(r[i].name), Lowercased(searchText))
  {
    forall i | 0 <= i < |r| ensures Listed(searchText, selectedRegion, r[i]) {
      assert r[i] in multiset(r);
    }
  }

  /** Sorted by the name closure means names never decrease. */
  lemma NamesNonDecreasing(r: seq<Country>)
    requires SortedBy(r, ByName)
    ensures forall i :: 0 < i < |r| ==> LessEq(r[i - 1].name, r[i].name)
  {
    forall i | 0 < i < |r| ensures LessEq(r[i - 1].name, r[i].name) {
      LessTrichotomy(r[i - 1].name, r[i].name);
    }
  }

  /** Both filters of `filteredCountries`, region first, then search. */
  function Survivors(countries: seq<Country>, searchText: string, selectedRegion: string): (r: seq<Country>)
    ensures forall c :: multiset(r)[c] == if Listed(searchText, selectedRegion, c) then multiset(countries)[c] else 0
    ensures IsSubsequence(r, countries)
  {
    var inRegion := RegionStep(countries, selectedRegion);
    var found := SearchStep(inRegion, searchText);
    SubsequenceTransitive(found, inRegion, countries);
    found
  }

  /** The `switch` over the sort option that ends `filteredCountries`. */
  function Arrange(found: seq<Country>, sortOption: SortOption): (r: seq<Country>)
    ensures multiset(r) == multiset(found)
    ensures sortOption == Alphabetical ==> forall i :: 0 < i < |r| ==> LessEq(r[i - 1].name, r[i].name)
    ensures sortOption == Population ==> forall i :: 0 < i < |r| ==> r[i - 1].population >= r[i].population
    ensures sortOption == Region ==> r == found
    // the sort is stable: countries that tie keep their order in `found`
    ensures sortOption == Alphabetical ==> forall n :: Filter(r, NameIs(n)) == Filter(found, NameIs(n))
    ensures sortOption == Population ==> forall v :: Filter(r, PopulationIs(v)) == Filter(found, PopulationIs(v))
  {
    match sortOption
    case Alphabetical =>
      ByNameAsymmetric();
      var r := Sort(found, ByName);
      NamesNonDecreasing(r);
      NameSortStable(found);
      r
    case Population =>
      ByPopulationDescAsymmetric();
      PopulationSortStable(found);
      Sort(found, ByPopulationDesc)
    case Region =>
      found
  }

  lemma NameSortStable(found: seq<Country>)
    requires Asymmetric(ByName)
    ensures forall n :: Filter(Sort(found, ByName), NameIs(n)) == Filter(found, NameIs(n))
  {
    forall n ensures Filter(Sort(found, ByName), NameIs(n)) == Filter(found, NameIs(n)) {
      NameTies(n);
      SortStable(found, ByName, NameIs(n));
    }
  }

  lemma PopulationSortStable(found: seq<Country>)
    requires Asymmetric(ByPopulationDesc)
    ensures forall v :: Filter(Sort(found, ByPopulationDesc), PopulationIs(v)) == Filter(found, PopulationIs(v))
  {
    forall v ensures Filter(Sort(found, ByPopulationDesc), PopulationIs(v)) == Filter(found, PopulationIs(v)) {
      PopulationTies(v);
      SortStable(found, ByPopulationDesc, PopulationIs(v));
    }
  }

  /** The computed property `filteredCountries`: the region filter, then the
      search filter, then the sort the picker selects. */
  function FilteredCountries(countries: seq<Country>, searchText: string, selectedRegion: string, sortOption: SortOption): (r: seq<Country>)
    // a permutation of exactly the countries that pass both filters
    ensures forall c :: multiset(r)[c] == if Listed(searchText, selectedRegion, c) then multiset(countries)[c] else 0
    ensures RegionFilterOn(selectedRegion) ==> forall i :: 0 <= i < |r| ==> r[i].region == selectedRegion
    ensures |searchText| > 0 ==> forall i :: 0 <= i < |r| ==> Contains(Lowercased(r[i].name), Lowercased(searchText))
    ensures sortOption == Alphabetical ==> forall i :: 0 < i < |r| ==> LessEq(r[i - 1].name, r[i].name)
    ensures sortOption == Population ==> forall i :: 0 < i < |r| ==> r[i - 1].population >= r[i].population
    // Region mode does not reorder: the survivors stay in their original order
    ensures sortOption == Region ==> IsSubsequence(r, countries)
    // ties keep the order they had in the loaded list
    ensures sortOption == Alphabetical ==> forall n :: Filter(r, NameIs(n)) == Filter(Survivors(countries, searchText, selectedRegion), NameIs(n))
    ensures sortOption == Population ==> forall v :: Filter(r, PopulationIs(v)) == Filter(Survivors(countries, searchText, selectedRegion), PopulationIs(v))
  {
    var found := Survivors(countries, searchText, selectedRegion);
    var r := Arrange(found, sortOption);
    AllListed(r, countries, searchText, selectedRegion);
    r
  }

  /** Running the pipeline again on its own output, with the same settings,
      returns that output unchanged. */
  lemma FilteredCountriesIdempotent(countries: seq<Country>, searchText: string, selectedRegion: string, sortOption: SortOption)
    ensures var once := FilteredCountries(countries, searchText, selectedRegion, sortOption);
            FilteredCountries(once, searchText, selectedRegion, sortOption) == once
  {
    var once := FilteredCountries(countries, searchText, selectedRegion, sortOption);
    AllListed(once, countries, searchText, selectedRegion);
    if RegionFilterOn(selectedRegion) {
      FilterAllPass(once, InRegion(selectedRegion));
    }
    if |searchText| > 0 {
      FilterAllPass(once, NameContains(searchText));
    }
    match sortOption
    case Alphabetical =>
      ByNameAsymmetric();
      SortSorted(once, ByName);
    case Population =>
      ByPopulationDescAsymmetric();
      SortSorted(once, ByPopulationDesc);
    case Region =>
  }

  /** The distinct regions of `countries`, ascending: `Set(countries.map { $0.region }).sorted()`. */
  function SortedRegions(countries: seq<Country>): (r: seq<string>)
    ensures StrictlyAscending(r)
    ensures forall g :: g in r <==> g in Regions(countries)
    decreases |countries|
  {
    if |countries| == 0 then []
    else
      var init := countries[..|countries| - 1];
      assert countries == init + [countries[|countries| - 1]];
      InsertDistinct(countries[|countries| - 1].region, SortedRegions(init))
  }

  /** The region picker's options: "Worldwide", then every region present exactly
      once, in ascending order. */
  function RegionOptions(countries: seq<Country>): (r: seq<string>)
    ensures |r| >= 1 && r[0] == Worldwide
    ensures StrictlyAscending(r[1..])
    ensures forall g :: g in r[1..] <==> g in Regions(countries)
  {
    [Worldwide] + SortedRegions(countries)
  }

  /** Whatever sort Swift runs, the options after "Worldwide" are determined:
      any ascending duplicate-free listing of the regions is this one. */
  lemma RegionOptionsCanonical(countries: seq<Country>, listing: seq<string>)
    requires StrictlyAscending(listing)
    requires forall g :: g in listing <==> g in Regions(countries)
    ensures RegionOptions(countries) == [Worldwide] + listing
  {
    StrictlyAscendingUnique(SortedRegions(countries), listing);
  }

  /** `isFavorite`: some favourite has the country's id. */
  predicate IsFavorite(favorites: seq<Country>, country: Country)
    ensures IsFavorite(favorites, country) <==> exists i :: 0 <= i < |favorites| && Id(favorites[i]) == Id(country)
    decreases |favorites|
  {
    |favorites| > 0 && (Id(favorites[0]) == Id(country) || IsFavorite(favorites[1..], country))
  }

  /** The negation of the closure `{ $0.id == country.id }`. */
  function OtherId(id: string): Country -> bool
  {
    (f: Country) => Id(f) != id
  }

  /** `removeAll { $0.id == id }`: the favourites with any other id, in their order. */
  function WithoutId(favorites: seq<Country>, id: string): (r: seq<Country>)
    ensures forall i :: 0 <= i < |r| ==> Id(r[i]) != id
    ensures forall x :: multiset(r)[x] == if Id(x) != id then multiset(favorites)[x] else 0
    ensures IsSubsequence(r, favorites)
  {
    Filter(favorites, OtherId(id))
  }

  /** `toggleFavorite2`: removes every favourite with the country's id when there
      is one, otherwise appends the country. */
  function ToggleFavorite(favorites: seq<Country>, country: Country): (r: seq<Country>)
    ensures IsFavorite(r, country) <==> !IsFavorite(favorites, country)
    // entries with other ids stay, in their original relative order
    ensures WithoutId(r, Id(country)) == WithoutId(favorites, Id(country))
    ensures !IsFavorite(favorites, country) ==> r == favorites + [country]
    // "no two favourites share an id" is kept
    ensures DistinctBy(favorites, Id) ==> DistinctBy(r, Id)
  {
    if IsFavorite(favorites, country) then
      RemovingFavorite(favorites, country);
      WithoutId(favorites, Id(country))
    else
      AddingFavorite(favorites, country);
      favorites + [country]
  }

  lemma RemovingFavorite(favorites: seq<Country>, country: Country)
    ensures var r := WithoutId(favorites, Id(country));
            && !IsFavorite(r, country)
            && WithoutId(r, Id(country)) == r
            && (DistinctBy(favorites, Id) ==> DistinctBy(r, Id))
  {
    var r := WithoutId(favorites, Id(country));
    FilterAllPass(r, OtherId(Id(country)));
    if DistinctBy(favorites, Id) {
      FilterKeepsDistinct(favorites, OtherId(Id(country)), Id);
    }
  }

  lemma AddingFavorite(favorites: seq<Country>, country: Country)
    requires !IsFavorite(favorites, country)
    ensures var r := favorites + [country];
            && IsFavorite(r, country)
            && WithoutId(r, Id(country)) == favorites
            && WithoutId(favorites, Id(country)) == favorites
            && (DistinctBy(favorites, Id) ==> DistinctBy(r, Id))
  {
    var r := favorites + [country];
    assert Id(r[|favorites|]) == Id(country);
    FilterAppend(favorites, [country], OtherId(Id(country)));
    FilterAllPass(favorites, OtherId(Id(country)));
    assert Filter([country], OtherId(Id(country))) == [];
  }

  /** Toggling a country that is not a favourite twice gives back the list exactly. */
  lemma ToggleTwiceAbsent(favorites: seq<Country>, country: Country)
    requires !IsFavorite(favorites, country)
    ensures ToggleFavorite(ToggleFavorite(favorites, country), country) == favorites
  {
    AddingFavorite(favorites, country);
  }

  /** Identity is by id, not by record: starring a country and then toggling
      another record with the same name (say, one reloaded with a new population)
      unstars the first, giving back the list exactly. */
  lemma ToggleSameNameRecord(favorites: seq<Country>, country: Country, sameName: Country)
    requires !IsFavorite(favorites, country) && sameName.name == country.name
    ensures ToggleFavorite(ToggleFavorite(favorites, country), sameName) == favorites
  {
    AddingFavorite(favorites, country);
  }

  /** Toggling a favourite twice keeps it a favourite, but it comes back at the
      end of the list (as the country passed in), after all the others. */
  lemma ToggleTwicePresent(favorites: seq<Country>, country: Country)
    requires IsFavorite(favorites, country)
    ensures ToggleFavorite(ToggleFavorite(favorites, country), country) == WithoutId(favorites, Id(country)) + [country]
  {
  }

  /** So toggling twice is not the identity: with two favourites, toggling the
      first one twice swaps them. */
  lemma ToggleTwiceReorders(a: Country, b: Country)
    requires Id(a) != Id(b)
    ensures ToggleFavorite(ToggleFavorite([a, b], a), a) == [b, a]
  {
    ToggleTwicePresent([a, b], a);
    assert [a, b] == [a] + [b];
    FilterAppend([a], [b], OtherId(Id(a)));
  }
}
