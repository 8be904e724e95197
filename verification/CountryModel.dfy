/**
 The country record the whole app works on, as decoded from the JSON list.
 */
module CountryModel {
  import opened Wrappers
  import opened Text
  import opened Collections

  /** A `Double` held only for display: its IEEE-754 bit pattern, never computed with. */
  datatype Area = Area(bits: bv64)

  /** One country. `capital` and `area` are optionals, so "absent" is a value of its
      own and never the same as an empty string or a zero area. `population` is a
      plain integer: the record does not insist that it is non-negative. */
  datatype Country = Country(
    name: string,
    capital: Option<string>,
    languages: seq<string>,
    population: int,
    flag: string,
    region: string,
    area: Option<Area>
  )

  /** The country's identity, `name.hashValue` in the app. Hash values are equal for
      equal names; this model takes the identity to be the name itself, so two
      countries are the same entity exactly when their names are equal. */
  function Id(c: Country): string
  {
    c.name
  }

  /** The distinct regions of a list of countries. */
  function Regions(countries: seq<Country>): (r: set<string>)
    ensures forall c :: c in countries ==> c.region in r
    ensures forall g :: g in r ==> exists c :: c in countries && c.region == g
  {
    set c | c in countries :: c.region
  }

  /** The closure `{ $0.name < $1.name }`: ascending by name. */
  predicate ByName(a: Country, b: Country)
  {
    Less(a.name, b.name)
  }

  /** The closure `{ $0.population > $1.population }`: descending by population. */
  predicate ByPopulationDesc(a: Country, b: Country)
  {
    a.population > b.population
  }

  lemma ByNameAsymmetric()
    ensures Asymmetric(ByName)
  {
    LessIsStrictOrder();
  }

  lemma ByPopulationDescAsymmetric()
    ensures Asymmetric(ByPopulationDesc)
  {
  }

  /** The countries named `n`: the ties of the name sort. */
  function NameIs(n: string): Country -> bool
  {
    (c: Country) => c.name == n
  }

  /** The countries with population `v`: the ties of the population sort. */
  function PopulationIs(v: int): Country -> bool
  {
    (c: Country) => c.population == v
  }

  lemma NameTies(n: string)
    ensures Ties(ByName, NameIs(n))
  {
    LessIrreflexive(n);
  }

  lemma PopulationTies(v: int)
    ensures Ties(ByPopulationDesc, PopulationIs(v))
  {
  }
}
