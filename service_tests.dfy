/** The service's test cases, stated over repository stand-ins that answer
    only the call they were set up for. */
module ServiceTests {
  import opened Internal
  import opened Service

  /** A repository in which every query fails. */
  function Unexpected(): RepositoryVehicle {
    var fail := Reply(map[], Some(ErrRepository("unexpected call")));
    RepositoryVehicle(() => fail, (_, _) => fail, (_, _, _) => fail, _ => fail, (_, _) => fail)
  }

  const Pejou204 := Vehicle(1, "Pejou", "204", "Sachi", "BLue", 2023, 3, 200.0, "gas", "auto", 2000.0,
                            Dimensions(140.0, 154.0, 172.0))
  const Pejou3008 := Vehicle(2, "Pejou", "3008", "chassi", "Green", 2024, 6, 250.0, "gas", "manual", 2000.0,
                             Dimensions(140.0, 154.0, 172.0))
  const FiatUno := Vehicle(2, "Fiat", "Uno", "Sachi", "BLue", 2023, 3, 200.0, "gas", "auto", 250.0,
                           Dimensions(140.0, 154.0, 172.0))
  const Golf := Vehicle(3, "Volkswagem", "Golf", "Toma", "Gurin", 2024, 3, 200.0, "gas", "auto", 200.0,
                        Dimensions(140.0, 154.0, 172.0))
  const Light: Catalog := map[1 := Pejou204.(weight := 275.0), 2 := FiatUno, 3 := Golf]

  lemma FindByColorAndYearCases()
    ensures var expected := map[1 := Pejou204];
      var rp := Unexpected().(findByColorAndYear := (c, y) =>
        if c == "BLue" && y == 2023 then Reply(expected, None) else Unexpected().findByColorAndYear(c, y));
      FindByColorAndYear(rp, "BLue", 2023) == Reply(expected, None)
    ensures var rp := Unexpected().(findByColorAndYear := (c, y) =>
        if c == "Green" && y == 2000 then Reply(map[], None) else Unexpected().findByColorAndYear(c, y));
      FindByColorAndYear(rp, "Green", 2000) == Reply(map[], None)
  {
  }

  lemma FindByBrandAndYearRangeCases()
    ensures var expected := map[1 := Pejou204];
      var rp := Unexpected().(findByBrandAndYearRange := (b, s, e) =>
        if b == "BLue" && s == 2000 && e == 2025 then Reply(expected, None)
        else Unexpected().findByBrandAndYearRange(b, s, e));
      FindByBrandAndYearRange(rp, "BLue", 2000, 2025) == Reply(expected, None)
    ensures var rp := Unexpected().(findByBrandAndYearRange := (b, s, e) =>
        if b == "BLue" && s == 2000 && e == 2025 then Reply(map[], None)
        else Unexpected().findByBrandAndYearRange(b, s, e));
      FindByBrandAndYearRange(rp, "BLue", 2000, 2025) == Reply(map[], None)
  {
  }

  lemma SearchByWeightRangeCases()
    ensures var rp := Unexpected().(findByWeightRange := (f, t) =>
        if f == 200.0 && t == 300.0 then Reply(Light, None) else Unexpected().findByWeightRange(f, t));
      SearchByWeightRange(rp, SearchQuery(200.0, 300.0), true) == Reply(Light, None)
    ensures var rp := Unexpected().(findAll := () => Reply(Light, None));
      SearchByWeightRange(rp, SearchQuery(0.0, 0.0), false) == Reply(Light, None)
    ensures var rp := Unexpected().(findByWeightRange := (f, t) =>
        if f == 50.0 && t == 100.0 then Reply(map[], None) else Unexpected().findByWeightRange(f, t));
      SearchByWeightRange(rp, SearchQuery(50.0, 100.0), true) == Reply(map[], None)
  {
  }

  /** A repository whose brand query answers `found` for "Pejou" only. */
  function PejouRepository(found: Catalog): RepositoryVehicle {
    Unexpected().(findByBrand := b => if b == "Pejou" then Reply(found, None) else Unexpected().findByBrand(b))
  }

  /** Max speeds 200 and 250 average to 225; no vehicles give 0 and the error. */
  lemma AverageMaxSpeedByBrandCases()
    ensures AverageMaxSpeedByBrand(PejouRepository(map[1 := Pejou204, 2 := Pejou3008]), "Pejou") == Reply(225.0, None)
    ensures AverageMaxSpeedByBrand(PejouRepository(map[]), "Pejou") == Reply(0.0, Some(ErrServiceNoVehicles))
  {
    var found := map[1 := Pejou204, 2 := Pejou3008];
    TotalMaxSpeedRemove(found, 1);
    assert found - {1} == map[2 := Pejou3008];
    TotalMaxSpeedRemove(map[2 := Pejou3008], 2);
    assert map[2 := Pejou3008] - {2} == map[];
    assert |found| == 2;
  }

  /** Capacities 4 and 6 average to 5; no vehicles give 0 and the error. */
  lemma AverageCapacityByBrandCases()
    ensures var found := map[1 := Pejou204.(capacity := 4), 2 := Pejou3008];
      AverageCapacityByBrand(PejouRepository(found), "Pejou") == Reply(5, None)
    ensures AverageCapacityByBrand(PejouRepository(map[]), "Pejou") == Reply(0, Some(ErrServiceNoVehicles))
  {
    var found := map[1 := Pejou204.(capacity := 4), 2 := Pejou3008];
    TotalCapacityRemove(found, 1);
    assert found - {1} == map[2 := Pejou3008];
    TotalCapacityRemove(map[2 := Pejou3008], 2);
    assert map[2 := Pejou3008] - {2} == map[];
    assert |found| == 2;
  }
}
