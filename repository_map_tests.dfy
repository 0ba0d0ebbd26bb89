/** The in-memory repository's test cases: a two-vehicle collection and the
    exact answer each query gives over it. */
module RepositoryMapTests {
  import opened Internal
  import opened RepositoryMap

  const C3 := Vehicle(1, "sitroein", "c3", "gfsdas", "black", 2031, 7, 120.0, "gas", "manual", 600.0,
                      Dimensions(170.0, 200.0, 160.0))
  const Cactus := Vehicle(2, "sitroein", "cactus", "gfsdas", "green", 2032, 4, 190.0, "etanol", "auto", 800.0,
                          Dimensions(270.0, 400.0, 660.0))
  const Db: Catalog := map[1 := C3, 2 := Cactus]

  lemma FindAllCases()
    ensures FindAll(Db) == Reply(Db, None)
    ensures FindAll(map[]) == Reply(map[], None)
  {
  }

  lemma FindByColorAndYearCases()
    ensures FindByColorAndYear(Db, "green", 2032) == Reply(map[2 := Db[2]], None)
    ensures FindByColorAndYear(Db, "azu", 1990) == Reply(map[], None)
  {
    assert FindByColorAndYear(Db, "green", 2032).value.Keys == {2};
    assert FindByColorAndYear(Db, "green", 2032).value == map[2 := Db[2]];
    assert FindByColorAndYear(Db, "azu", 1990).value.Keys == {};
  }

  /** The vehicle built in the first year of the range is kept, the one built
      the year before is not. */
  lemma FindByBrandAndYearRangeCases()
    ensures FindByBrandAndYearRange(Db, "sitroein", 2032, 2035) == Reply(map[2 := Db[2]], None)
    ensures FindByBrandAndYearRange(Db, "pejou", 1990, 2000) == Reply(map[], None)
  {
    assert FindByBrandAndYearRange(Db, "sitroein", 2032, 2035).value.Keys == {2};
    assert FindByBrandAndYearRange(Db, "sitroein", 2032, 2035).value == map[2 := Db[2]];
    assert FindByBrandAndYearRange(Db, "pejou", 1990, 2000).value.Keys == {};
  }

  lemma FindByBrandCases()
    ensures FindByBrand(Db, "sitroein") == Reply(Db, None)
    ensures FindByBrand(Db, "pejou") == Reply(map[], None)
  {
    assert FindByBrand(Db, "sitroein").value.Keys == {1, 2};
    assert FindByBrand(Db, "sitroein").value == Db;
    assert FindByBrand(Db, "pejou").value.Keys == {};
  }

  lemma FindByWeightRangeCases()
    ensures FindByWeightRange(Db, 700.0, 900.0) == Reply(map[2 := Db[2]], None)
    ensures FindByWeightRange(Db, 100.0, 150.0) == Reply(map[], None)
  {
    assert FindByWeightRange(Db, 700.0, 900.0).value.Keys == {2};
    assert FindByWeightRange(Db, 700.0, 900.0).value == map[2 := Db[2]];
    assert FindByWeightRange(Db, 100.0, 150.0).value.Keys == {};
  }
}
