# Country directory: list, favourites and charts

A Dafny model of the logic behind a small SwiftUI app that lists the world's
countries. The app has three tabs:

- **All Countries**: a list that can be searched by name, restricted to one
  region, and sorted alphabetically, by population, or left in its loaded order.
  A region picker offers "Worldwide" followed by every region present.
- **Favorites**: countries starred from the list. A country is starred or
  unstarred by toggling; favourites are identified by the country's `id`.
- **Charts**: a bar chart of the five most populous countries, and a pie chart
  of the five regions with the most countries, drawn in region-name order. The
  tab shows "Loading Data..." while the list is empty.

Modules:

- `Wrappers`: the `Option` type.
- `Text`: strings.
  - `Less` is Swift's `String <`, taken as lexicographic order on characters.
  - `Lowercased` is `lowercased()` restricted to ASCII.
  - `Contains` is substring search.
- `Collections`: `filter`, `sort(by:)` and `prefix(_:)` over sequences, each
  with what it guarantees, plus distinctness and subsequence facts.
- `CountryModel`: the `Country` record, its identity, and the two sort closures.
- `ContentView`: the list pipeline `filteredCountries`, the region picker's
  options, and the favourites operations.
- `ChartsView`: the two chart aggregates and the tab's body.
- `Scenarios`: worked examples on concrete countries, and one lemma relating
  the chart to the list.

The view state (`searchText`, `selectedRegion`, `selectedSortOption`,
`favoriteCountries`) becomes function parameters. A state mutation becomes a
function from the old value to the new one.

## Model

| member | source | states |
|---|---|---|
| CountryModel.Regions | country-assignment-2-3/ContentView.swift:73 | The set of regions: every country's region is in it, and every member is some country's region. |
| ContentView.RegionStep | country-assignment-2-3/ContentView.swift:38-40 | The region filter keeps exactly the countries of the selected region, and only when a region other than "Worldwide" is selected; the survivors stay in order. |
| ContentView.SearchStep | country-assignment-2-3/ContentView.swift:42-44 | A non-empty search keeps exactly the countries whose lowercased name contains the lowercased search text; an empty search keeps all. |
| ContentView.Survivors | country-assignment-2-3/ContentView.swift:36-44 | Both filters, region first and then search, keep exactly the countries that pass both, with their multiplicities and in their original order. |
| ContentView.Arrange | country-assignment-2-3/ContentView.swift:46-53 | The sort switch returns a permutation of its input. Alphabetical gives non-decreasing names, Population gives non-increasing populations, and Region returns the input as it is. The sorts are stable: countries with the same name, or the same population, keep their input order. |
| ContentView.FilteredCountries | country-assignment-2-3/ContentView.swift:35-57 | The result is a permutation of exactly the countries passing both filters, with each multiplicity kept. The region restriction holds in every sort mode. Alphabetical mode gives non-decreasing names. Population mode gives non-increasing populations. Region mode keeps the original relative order. In the two sorted modes, ties (equal names, equal populations) keep their order in the loaded list. |
| ContentView.FilteredCountriesIdempotent | country-assignment-2-3/ContentView.swift:35-57 | Applying the pipeline again to its own output, with the same settings, changes nothing. |
| ContentView.SortedRegions | country-assignment-2-3/ContentView.swift:73 | `Set(regions).sorted()` is strictly ascending and holds exactly the regions present. |
| ContentView.RegionOptions | country-assignment-2-3/ContentView.swift:73-74 | The picker starts with "Worldwide", and then lists every present region once, in ascending order. |
| ContentView.RegionOptionsCanonical | country-assignment-2-3/ContentView.swift:73-74 | Any strictly ascending listing of exactly the present regions equals the options after "Worldwide", so the picker's order does not depend on which sort Swift runs. |
| ContentView.IsFavorite | country-assignment-2-3/ContentView.swift:226-228 | True exactly when some favourite has the country's id. |
| ContentView.WithoutId | country-assignment-2-3/ContentView.swift:220 | `removeAll` with an id leaves no entry with that id, and keeps every other entry in order with its multiplicity. |
| ContentView.ToggleFavorite | country-assignment-2-3/ContentView.swift:218-224 | The toggle flips `isFavorite` for the country. Entries with other ids are unchanged and keep their order. A country that was not a favourite is appended at the end. No two favourites sharing an id stays true. |
| ContentView.ToggleTwiceAbsent | country-assignment-2-3/ContentView.swift:218-224 | Toggling a non-favourite twice restores the list exactly. |
| ContentView.ToggleSameNameRecord | country-assignment-2-3/CountryModel.swift:12-14 | Favourites are matched by `id`, and equal names give equal ids. So after starring a country, toggling a different record with the same name unstars it, and the list is back as it was. |
| ContentView.ToggleTwicePresent | country-assignment-2-3/ContentView.swift:218-224 | Toggling a favourite twice puts it back at the end, after the others. |
| ContentView.ToggleTwiceReorders | country-assignment-2-3/ContentView.swift:218-224 | With favourites `[a, b]`, toggling `a` twice gives `[b, a]`, so a double toggle is not the identity. |
| ChartsView.TopFive | country-assignment-2-3/ChartsView.swift:19-20 | The top five: `min(5, n)` countries from the list, by non-increasing population. None is less populous than any country left out. Among countries of equal population, the chosen ones are the first of them in list order, and they keep that order. |
| ChartsView.AddOne | country-assignment-2-3/ChartsView.swift:43-44 | Counting one more country of region `g` adds `g` as a key if needed, raises `g`'s count by one, and leaves the other counts alone. |
| ChartsView.GroupCounts | country-assignment-2-3/ChartsView.swift:43-44 | The grouping `Dictionary(grouping:by:).mapValues { $0.count }` has one entry per present region. Each entry holds the number of countries in that region, at least one. The counts sum to the length of the list. |
| ChartsView.TopRegions | country-assignment-2-3/ChartsView.swift:43-46 | `min(5, #regions)` distinct regions, each with its true count. No region left out has more countries than a chosen one. |
| ChartsView.RegionSlices | country-assignment-2-3/ChartsView.swift:54 | The pie's slices are the top regions re-sorted by key. The keys come out strictly ascending. |
| ChartsView.Body | country-assignment-2-3/ChartsView.swift:18-81 | An empty list shows the "Loading Data..." text and nothing else. A non-empty list shows both charts, each with one to five entries. |
| Text.LessIsFirstDifference | country-assignment-2-3/ContentView.swift:48 | The string order used by the name sort is lexicographic: a proper prefix comes first, otherwise the first differing character decides. |
| Text.StrictlyAscendingUnique | country-assignment-2-3/ContentView.swift:73 | A set has only one strictly ascending listing. |
| Text.InsertDistinct | country-assignment-2-3/ContentView.swift:73 | Inserting into a strictly ascending list keeps it strictly ascending, and adds exactly the new string. |
| Text.Lowercased | country-assignment-2-3/ContentView.swift:43 | Lowercasing keeps the length, maps `A`-`Z` to `a`-`z`, and leaves every other character alone. |
| Text.ContainsIffOccurs | country-assignment-2-3/ContentView.swift:43 | `contains` holds exactly when the needle occurs at some position. |
| Collections.Filter | country-assignment-2-3/ContentView.swift:39 | `filter` keeps, in order, exactly the elements satisfying the predicate, each with its multiplicity. |
| Collections.Sort | country-assignment-2-3/ContentView.swift:48-50 | `sort(by:)` returns a permutation that is in order for the given closure. |
| Collections.SortStable | country-assignment-2-3/ContentView.swift:48-50 | `sort(by:)` is stable: the elements of any tie class (none strictly before another) come out in their input order. |
| Collections.SortSorted | country-assignment-2-3/ContentView.swift:48-50 | Sorting an already ordered list returns it unchanged. |
| Collections.Prefix | country-assignment-2-3/ChartsView.swift:20 | `prefix(k)` is the first `min(k, n)` elements. |
| Collections.PermutationKeepsDistinct | country-assignment-2-3/ChartsView.swift:54 | Re-sorting the region entries keeps their keys distinct. |
| Scenarios.TopFiveHeadsPopulationList | country-assignment-2-3/ChartsView.swift:19-20 | The bar chart shows the first five rows of the list tab when that tab is sorted by population with no search and no region. |
| Scenarios.PopulationOrderExample | country-assignment-2-3/ContentView.swift:49-50 | Sorting Aland, Benin and Chad by population gives Chad, Benin, Aland. |
| Scenarios.SearchExample | country-assignment-2-3/ContentView.swift:43 | Searching "ala" matches "Aland" and "Malawi", but not "Benin". |
| Scenarios.TwoRegionSlices | country-assignment-2-3/ChartsView.swift:43-54 | With exactly two regions present, the pie shows both, in name order, each with its count. |
| Scenarios.RegionCountExample | country-assignment-2-3/ChartsView.swift:43-54 | For Aland, Benin and Chad, the pie has Africa with 2 countries, then Europe with 1. |
| Scenarios.EmptyListExample | country-assignment-2-3/ChartsView.swift:18-81 | An empty list gives an empty country list and the loading text. |

## Behaviour the model follows

Where the app's intended behaviour could be read another way, the model follows the code:

- **Region filter.** The region filter is applied whenever a region other than
  "Worldwide" is selected (`ContentView.swift:38`), whatever the sort option.
  The picker is only visible in Region mode (`:72`), but a selection made there
  stays in force after switching to another mode.
- **Toggling twice.** Toggling a favourite twice is not the identity. The
  second toggle appends the country at the end (`ToggleTwiceReorders`).
- **Population sign.** `population` is a plain `Int`; nothing demands that it
  is non-negative.

## Left out

- Loading the list: `fetchData`, the URL session, JSON decoding, the error sheet and
  the "Fetching Data..." overlay (`ContentView.swift:96-119`, `169-216`). These are
  network and I/O. The model takes the loaded list as a parameter.
- Rendering: the SwiftUI layout, `CountryRow`, `PostDetailView`, `SearchBar`,
  `FlagImage` and the chart marks. These are drawing only.
- `Country.area` is a `Double`. It is held as its 64-bit pattern and never
  computed with.
- CountryModel.Id: `name.hashValue` is taken to be the name itself. Hash
  collisions between different names are not modelled, and Swift's per-process
  hash seeding is irrelevant once identity is the name.
- Text.Lowercased: only ASCII letters are folded. Swift's full Unicode case
  mapping is not modelled.
- Text.Less: compares characters by code point. Swift compares strings by
  Unicode canonical equivalence, which is not modelled.
- Text.Contains: plain character-sequence search, without Unicode normalisation.
  The empty needle counts as contained, unlike Foundation's `contains("")`;
  the list only searches when the search text is non-empty (`ContentView.swift:42`).
- ChartsView.GroupCounts: `Dictionary`'s key order is unspecified in Swift.
  The model keeps keys in first-seen order, so `TopRegions` promises only which
  counts win, not which of several regions with equal counts is chosen.
- ChartsView.TopRegions: ties at the fifth place are broken by dictionary order
  in the app, so the contract does not say which tied region is kept.
