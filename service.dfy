/** The vehicle service: forwards the color/year and brand/year-range queries,
    routes a weight search to the ranged or the unfiltered query, and averages
    the max speed and the capacity of a brand's vehicles. It is written against
    any RepositoryVehicle; the lemmas at the end tie it to the in-memory one. */
module Service {
  import opened Internal
  import RepositoryMap

  // Delegation and routing

  /** Forwards its arguments and hands back the repository's map and error as they are. */
  function FindByColorAndYear(rp: RepositoryVehicle, color: string, fabricationYear: int): (r: Reply<Catalog>)
    ensures r == rp.findByColorAndYear(color, fabricationYear)
  {
    rp.findByColorAndYear(color, fabricationYear)
  }

  /** Forwards its arguments and hands back the repository's map and error as they are. */
  function FindByBrandAndYearRange(rp: RepositoryVehicle, brand: string, startYear: int, endYear: int): (r: Reply<Catalog>)
    ensures r == rp.findByBrandAndYearRange(brand, startYear, endYear)
  {
    rp.findByBrandAndYearRange(brand, startYear, endYear)
  }

  /** With the filter on, the query's bounds go to the weight-range query;
      with it off, the bounds are ignored and every vehicle is asked for. */
  function SearchByWeightRange(rp: RepositoryVehicle, query: SearchQuery, hasFilter: bool): (r: Reply<Catalog>)
    ensures hasFilter ==> r == rp.findByWeightRange(query.fromWeight, query.toWeight)
    ensures !hasFilter ==> r == rp.findAll()
  {
    if hasFilter then rp.findByWeightRange(query.fromWeight, query.toWeight)
    else rp.findAll()
  }

  // Totals over a catalog, taken one entry at a time in no particular order

  ghost function TotalMaxSpeed(c: Catalog): real
    decreases |c|
  {
    if |c| == 0 then 0.0
    else
      HasKey(c);
      var k :| k in c;
      c[k].maxSpeed + TotalMaxSpeed(c - {k})
  }

  ghost function TotalCapacity(c: Catalog): int
    decreases |c|
  {
    if |c| == 0 then 0
    else
      HasKey(c);
      var k :| k in c;
      c[k].capacity + TotalCapacity(c - {k})
  }

  /** Integer division truncating toward zero, as Go's `/` on int does. */
  function TruncDiv(a: int, n: int): (q: int)
    requires n > 0
    ensures 0 <= a ==> n * q <= a < n * (q + 1)
    ensures a < 0 ==> n * (q - 1) < a <= n * q
  {
    if a >= 0 then a / n else -((-a) / n)
  }

  /** A non-empty catalog has an entry. */
  lemma HasKey(c: Catalog)
    requires |c| != 0
    ensures exists k :: k in c
  {
    if forall k :: k !in c { assert false; }
  }

  // Aggregates

  /** The mean max speed of the brand's vehicles. A repository error is passed
      on with 0; an empty brand gives 0 and ErrServiceNoVehicles. */
  ghost function AverageMaxSpeedByBrand(rp: RepositoryVehicle, brand: string): (r: Reply<real>)
    ensures var found := rp.findByBrand(brand);
      found.err != None ==> r == Reply(0.0, found.err)
    ensures var found := rp.findByBrand(brand);
      found.err == None && |found.value| == 0 ==> r == Reply(0.0, Some(ErrServiceNoVehicles))
    ensures var found := rp.findByBrand(brand);
      found.err == None && |found.value| != 0 ==>
        r.err == None && r.value * (|found.value| as real) == TotalMaxSpeed(found.value)
  {
    var found := rp.findByBrand(brand);
    if found.err != None then Reply(0.0, found.err)
    else if |found.value| == 0 then Reply(0.0, Some(ErrServiceNoVehicles))
    else Reply(TotalMaxSpeed(found.value) / (|found.value| as real), None)
  }

  /** The mean capacity of the brand's vehicles, as an int: the total divided
      by the count, truncated toward zero. Errors as for the max speed. */
  ghost function AverageCapacityByBrand(rp: RepositoryVehicle, brand: string): (r: Reply<int>)
    ensures var found := rp.findByBrand(brand);
      found.err != None ==> r == Reply(0, found.err)
    ensures var found := rp.findByBrand(brand);
      found.err == None && |found.value| == 0 ==> r == Reply(0, Some(ErrServiceNoVehicles))
    ensures var found := rp.findByBrand(brand); var n, t := |found.value|, TotalCapacity(found.value);
      found.err == None && n != 0 ==>
        && r.err == None
        && (0 <= t ==> n * r.value <= t < n * (r.value + 1))
        && (t < 0 ==> n * (r.value - 1) < t <= n * r.value)
  {
    var found := rp.findByBrand(brand);
    if found.err != None then Reply(0, found.err)
    else if |found.value| == 0 then Reply(0, Some(ErrServiceNoVehicles))
    else Reply(TruncDiv(TotalCapacity(found.value), |found.value|), None)
  }

  // Properties of the totals

  /** The total does not depend on which entry is taken first, so the order in
      which a map is walked cannot change it. */
  lemma {:induction false} TotalMaxSpeedRemove(c: Catalog, k: int)
    requires k in c
    ensures TotalMaxSpeed(c) == c[k].maxSpeed + TotalMaxSpeed(c - {k})
    decreases |c|
  {
    assert |c| != 0 by { assert k in c.Keys; }
    var j :| j in c && TotalMaxSpeed(c) == c[j].maxSpeed + TotalMaxSpeed(c - {j});
    if j != k {
      TotalMaxSpeedRemove(c - {j}, k);
      TotalMaxSpeedRemove(c - {k}, j);
      RemoveCommutes(c, j, k);
    }
  }

  lemma {:induction false} TotalCapacityRemove(c: Catalog, k: int)
    requires k in c
    ensures TotalCapacity(c) == c[k].capacity + TotalCapacity(c - {k})
    decreases |c|
  {
    assert |c| != 0 by { assert k in c.Keys; }
    var j :| j in c && TotalCapacity(c) == c[j].capacity + TotalCapacity(c - {j});
    if j != k {
      TotalCapacityRemove(c - {j}, k);
      TotalCapacityRemove(c - {k}, j);
      RemoveCommutes(c, j, k);
    }
  }

  /** Removing two keys gives the same map in either order. */
  lemma RemoveCommutes(c: Catalog, j: int, k: int)
    ensures c - {j} - {k} == c - {k} - {j}
  {
  }

  /** n copies of x added up. */
  ghost function Times(n: nat, x: real): real {
    if n == 0 then 0.0 else x + Times(n - 1, x)
  }

  lemma {:induction false} TimesIsProduct(n: nat, x: real)
    ensures Times(n, x) == (n as real) * x
  {
    if n != 0 {
      TimesIsProduct(n - 1, x);
      assert (n as real) * x == ((n - 1) as real) * x + x;
    }
  }

  /** When every max speed lies in [lo, hi], the total lies between |c| * lo and |c| * hi. */
  lemma {:induction false} TotalMaxSpeedBounds(c: Catalog, lo: real, hi: real)
    requires forall k :: k in c ==> lo <= c[k].maxSpeed <= hi
    ensures Times(|c|, lo) <= TotalMaxSpeed(c) <= Times(|c|, hi)
    decreases |c|
  {
    if |c| != 0 {
      HasKey(c);
      var k :| k in c;
      var rest := c - {k};
      assert |rest| == |c| - 1 by { assert rest.Keys == c.Keys - {k}; }
      TotalMaxSpeedRemove(c, k);
      TotalMaxSpeedBounds(rest, lo, hi);
    }
  }

  /** n copies of x added up. */
  ghost function TimesInt(n: nat, x: int): int {
    if n == 0 then 0 else x + TimesInt(n - 1, x)
  }

  lemma {:induction false} TimesIntIsProduct(n: nat, x: int)
    ensures TimesInt(n, x) == n * x
  {
    if n != 0 {
      TimesIntIsProduct(n - 1, x);
      assert n * x == (n - 1) * x + x;
    }
  }

  /** When every capacity lies in [lo, hi], the total lies between |c| * lo and |c| * hi. */
  lemma {:induction false} TotalCapacityBounds(c: Catalog, lo: int, hi: int)
    requires forall k :: k in c ==> lo <= c[k].capacity <= hi
    ensures TimesInt(|c|, lo) <= TotalCapacity(c) <= TimesInt(|c|, hi)
    decreases |c|
  {
    if |c| != 0 {
      HasKey(c);
      var k :| k in c;
      var rest := c - {k};
      assert |rest| == |c| - 1 by { assert rest.Keys == c.Keys - {k}; }
      TotalCapacityRemove(c, k);
      TotalCapacityBounds(rest, lo, hi);
    }
  }

  // The service over the in-memory repository

  /** Searching without the filter returns the whole collection; with it, the
      vehicles whose weight lies in the query's bounds. Neither reports an error. */
  lemma SearchByWeightRangeOverMap(db: Catalog, query: SearchQuery, hasFilter: bool)
    ensures var r := SearchByWeightRange(RepositoryMap.NewRepositoryReadVehicleMap(db), query, hasFilter);
      && r.err == None
      && (!hasFilter ==> r.value == db)
      && (hasFilter ==> forall k :: k in r.value <==> k in db && query.fromWeight <= db[k].weight <= query.toWeight)
      && (forall k :: k in r.value ==> r.value[k] == db[k])
  {
  }

  /** An average over the in-memory repository fails exactly when no vehicle
      of the brand is stored, and then with ErrServiceNoVehicles. */
  lemma AverageFailsIffNoVehicleOfBrand(db: Catalog, brand: string)
    ensures var rp := RepositoryMap.NewRepositoryReadVehicleMap(db);
      && (AverageMaxSpeedByBrand(rp, brand).err == Some(ErrServiceNoVehicles)
          <==> forall k :: k in db ==> db[k].brand != brand)
      && (AverageCapacityByBrand(rp, brand).err == Some(ErrServiceNoVehicles)
          <==> forall k :: k in db ==> db[k].brand != brand)
      && (AverageMaxSpeedByBrand(rp, brand).err != Some(ErrServiceNoVehicles) ==> AverageMaxSpeedByBrand(rp, brand).err == None)
      && (AverageCapacityByBrand(rp, brand).err != Some(ErrServiceNoVehicles) ==> AverageCapacityByBrand(rp, brand).err == None)
  {
  }

  /** The mean max speed of a brand lies between the slowest and the fastest
      of its vehicles. */
  lemma AverageMaxSpeedWithinRange(db: Catalog, brand: string, lo: real, hi: real)
    requires forall k :: k in db && db[k].brand == brand ==> lo <= db[k].maxSpeed <= hi
    ensures var r := AverageMaxSpeedByBrand(RepositoryMap.NewRepositoryReadVehicleMap(db), brand);
      r.err == None ==> lo <= r.value <= hi
  {
    var found := RepositoryMap.FindByBrand(db, brand).value;
    var r := AverageMaxSpeedByBrand(RepositoryMap.NewRepositoryReadVehicleMap(db), brand);
    if r.err == None {
      var n, t := |found| as real, TotalMaxSpeed(found);
      var atLeast, atMost := Times(|found|, lo), Times(|found|, hi);
      assert atLeast <= t <= atMost by { TotalMaxSpeedBounds(found, lo, hi); }
      assert atLeast == n * lo by { TimesIsProduct(|found|, lo); }
      assert atMost == n * hi by { TimesIsProduct(|found|, hi); }
      assert n > 0.0 && r.value * n == t;
      MeanWithin(r.value, n, t, lo, hi);
    }
  }

  /** The mean capacity of a brand lies between the smallest and the largest
      capacity of its vehicles, truncation notwithstanding. */
  lemma AverageCapacityWithinRange(db: Catalog, brand: string, lo: int, hi: int)
    requires forall k :: k in db && db[k].brand == brand ==> lo <= db[k].capacity <= hi
    ensures var r := AverageCapacityByBrand(RepositoryMap.NewRepositoryReadVehicleMap(db), brand);
      r.err == None ==> lo <= r.value <= hi
  {
    var found := RepositoryMap.FindByBrand(db, brand).value;
    TotalCapacityBounds(found, lo, hi);
    TimesIntIsProduct(|found|, lo);
    TimesIntIsProduct(|found|, hi);
    var r := AverageCapacityByBrand(RepositoryMap.NewRepositoryReadVehicleMap(db), brand);
    if r.err == None {
      var n, t, q := |found|, TotalCapacity(found), r.value;
      if 0 <= t {
        assert n * q <= t <= n * hi;
        assert n * lo <= t < n * (q + 1);
      } else {
        assert n * (q - 1) < t <= n * hi;
        assert n * lo <= t <= n * q;
      }
      IntMeanWithin(q, n, lo, hi);
    }
  }

  /** From n * m == t and n * lo <= t <= n * hi with n > 0: lo <= m <= hi. */
  lemma MeanWithin(m: real, n: real, t: real, lo: real, hi: real)
    requires n > 0.0 && m * n == t && n * lo <= t <= n * hi
    ensures lo <= m <= hi
  {
  }

  /** A quotient q, with n * q and n * (q +- 1) placed around totals bounded by
      n * lo and n * hi, lies in [lo, hi]. */
  lemma IntMeanWithin(q: int, n: int, lo: int, hi: int)
    requires n > 0
    requires (n * q <= n * hi && n * lo < n * (q + 1)) || (n * (q - 1) < n * hi && n * lo <= n * q)
    ensures lo <= q <= hi
  {
  }
}
