/** The in-memory repository: read-only queries over a map from identifier to
    vehicle. Each query answers with the sub-map of entries whose vehicle
    matches, under their original keys, and never reports an error. */
module RepositoryMap {
  import opened Internal

  /** The entries of `db` whose vehicle satisfies `p`, each under its own key. */
  function Filter(db: Catalog, p: Vehicle -> bool): (r: Catalog)
    ensures r.Keys <= db.Keys
    ensures forall k :: k in r ==> r[k] == db[k] && p(db[k])
    ensures forall k :: k in db && p(db[k]) ==> k in r
  {
    map k | k in db && p(db[k]) :: db[k]
  }

  function FindAll(db: Catalog): (r: Reply<Catalog>)
    ensures r.err == None
    ensures r.value == db
  {
    Reply(Filter(db, (_: Vehicle) => true), None)
  }

  function FindByColorAndYear(db: Catalog, color: string, fabricationYear: int): (r: Reply<Catalog>)
    ensures r.err == None
    ensures forall k :: k in r.value <==> k in db && db[k].color == color && db[k].fabricationYear == fabricationYear
    ensures forall k :: k in r.value ==> r.value[k] == db[k]
  {
    Reply(Filter(db, (v: Vehicle) => v.color == color && v.fabricationYear == fabricationYear), None)
  }

  /** Both ends of the year range are inclusive. */
  function FindByBrandAndYearRange(db: Catalog, brand: string, startYear: int, endYear: int): (r: Reply<Catalog>)
    ensures r.err == None
    ensures forall k :: k in r.value <==> k in db && db[k].brand == brand && startYear <= db[k].fabricationYear <= endYear
    ensures forall k :: k in r.value ==> r.value[k] == db[k]
  {
    Reply(Filter(db, (v: Vehicle) => v.brand == brand && startYear <= v.fabricationYear <= endYear), None)
  }

  function FindByBrand(db: Catalog, brand: string): (r: Reply<Catalog>)
    ensures r.err == None
    ensures forall k :: k in r.value <==> k in db && db[k].brand == brand
    ensures forall k :: k in r.value ==> r.value[k] == db[k]
  {
    Reply(Filter(db, (v: Vehicle) => v.brand == brand), None)
  }

  /** Both ends of the weight range are inclusive. */
  function FindByWeightRange(db: Catalog, fromWeight: real, toWeight: real): (r: Reply<Catalog>)
    ensures r.err == None
    ensures forall k :: k in r.value <==> k in db && fromWeight <= db[k].weight <= toWeight
    ensures forall k :: k in r.value ==> r.value[k] == db[k]
  {
    Reply(Filter(db, (v: Vehicle) => fromWeight <= v.weight <= toWeight), None)
  }

  /** The repository over `db`, packaged as the capability the service uses. */
  function NewRepositoryReadVehicleMap(db: Catalog): RepositoryVehicle {
    RepositoryVehicle(
      () => FindAll(db),
      (color, year) => FindByColorAndYear(db, color, year),
      (brand, startYear, endYear) => FindByBrandAndYearRange(db, brand, startYear, endYear),
      brand => FindByBrand(db, brand),
      (fromWeight, toWeight) => FindByWeightRange(db, fromWeight, toWeight))
  }

  // Properties of the queries

  /** A query answers with an empty map exactly when no vehicle of the
      collection has that color and year. */
  lemma FindByColorAndYearEmptyIff(db: Catalog, color: string, fabricationYear: int)
    ensures FindByColorAndYear(db, color, fabricationYear).value == map[]
        <==> forall k :: k in db ==> db[k].color != color || db[k].fabricationYear != fabricationYear
  {
    var r := FindByColorAndYear(db, color, fabricationYear).value;
    if forall k :: k in db ==> db[k].color != color || db[k].fabricationYear != fabricationYear {
      assert r.Keys == {};
    }
  }

  /** The brand-and-years query is the brand query narrowed to the years. */
  lemma BrandAndYearRangeNarrowsBrand(db: Catalog, brand: string, startYear: int, endYear: int)
    ensures FindByBrandAndYearRange(db, brand, startYear, endYear).value
         == Filter(FindByBrand(db, brand).value, (v: Vehicle) => startYear <= v.fabricationYear <= endYear)
  {
  }

  /** A vehicle of the brand built in the first or the last year of the range
      is part of the answer. */
  lemma YearRangeIsInclusive(db: Catalog, k: int, brand: string, startYear: int, endYear: int)
    requires k in db && db[k].brand == brand && startYear <= endYear
    requires db[k].fabricationYear == startYear || db[k].fabricationYear == endYear
    ensures k in FindByBrandAndYearRange(db, brand, startYear, endYear).value
  {
  }

  /** Widening the weight range can only add entries. */
  lemma WeightRangeMonotone(db: Catalog, from1: real, to1: real, from2: real, to2: real)
    requires from2 <= from1 && to1 <= to2
    ensures FindByWeightRange(db, from1, to1).value.Keys <= FindByWeightRange(db, from2, to2).value.Keys
  {
  }

  /** Two different brands never share an entry. */
  lemma BrandsAreDisjoint(db: Catalog, brand1: string, brand2: string)
    requires brand1 != brand2
    ensures FindByBrand(db, brand1).value.Keys !! FindByBrand(db, brand2).value.Keys
  {
  }

  /** Asking the brand query again of its own answer changes nothing. */
  lemma FindByBrandIdempotent(db: Catalog, brand: string)
    ensures FindByBrand(FindByBrand(db, brand).value, brand) == FindByBrand(db, brand)
  {
    var once := FindByBrand(db, brand).value;
    assert FindByBrand(once, brand).value == once;
  }

  /** Every query keeps each vehicle under its own identifier. */
  lemma QueriesKeepWellKeyed(db: Catalog, color: string, brand: string, year: int, startYear: int, endYear: int,
                             fromWeight: real, toWeight: real)
    requires WellKeyed(db)
    ensures WellKeyed(FindAll(db).value)
    ensures WellKeyed(FindByColorAndYear(db, color, year).value)
    ensures WellKeyed(FindByBrandAndYearRange(db, brand, startYear, endYear).value)
    ensures WellKeyed(FindByBrand(db, brand).value)
    ensures WellKeyed(FindByWeightRange(db, fromWeight, toWeight).value)
  {
  }
}
