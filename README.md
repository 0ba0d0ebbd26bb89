# Vehicle catalog: repository and service

A model of a small in-memory vehicle catalog written in Go. A **repository** owns
a map from integer identifier to vehicle and answers five read-only queries:
`FindAll`, `FindByColorAndYear`, `FindByBrandAndYearRange`, `FindByBrand` and
`FindByWeightRange`. Each answers with the sub-map of matching entries, keeps
every vehicle under its original key, and never reports an error. An empty
answer is a success. A **service** sits on any repository. It forwards the
color/year and brand/year-range queries. `SearchByWeightRange(query,
hasFilter)` goes to the weight-range query when `hasFilter` holds and to
`FindAll` otherwise. Two aggregates average the max speed (a real) and the
capacity (an int) of a brand's vehicles. Over an empty brand they give 0
together with the `ErrServiceNoVehicles` error.

The repository and service implementation files were not available; the model
follows the behaviour their Go tests pin down, and the choices below where the
tests are silent.

Modules:

- `Internal` (`internal.dfy`): the `Vehicle` record, `Catalog = map<int, Vehicle>`,
  `SearchQuery`, the `Error` values, `Reply<T>` (Go's `(value, error)` pair), and
  `RepositoryVehicle`. That last one is the repository capability the service
  depends on, as a record of five query functions. A stand-in repository of the
  tests is just another value of that type.
- `RepositoryMap` (`repository_map.dfy`): the in-memory repository. Every query
  is `Filter` (a map comprehension) with its own predicate.
  `NewRepositoryReadVehicleMap(db)` packages the queries as a `RepositoryVehicle`.
- `Service` (`service.dfy`): delegation, routing, totals and averages, and the
  lemmas that tie the service to the in-memory repository.
- `RepositoryMapTests`, `ServiceTests`: the Go test cases as lemmas about
  concrete fixtures.

Choices where the tests say nothing:

- Both ends of the year range and of the weight range are inclusive. The tests
  exercise only the lower year bound (2032 kept, 2031 dropped) and an interior weight.
- String matching is exact and case-sensitive (`==` on `seq<char>`).
- The capacity mean is the total divided by the count with Go's integer `/`,
  which truncates toward zero (`TruncDiv`). Only the even case 4 + 6 is tested.
- `AverageCapacityByBrand` over an empty brand gives 0 and `ErrServiceNoVehicles`,
  like the max-speed average. The "not found" case of the capacity test actually
  calls `AverageMaxSpeedByBrand` (internal/service/vehicle_test.go:387), so this
  choice is not tested.
- A repository error reaching an aggregate is passed on unchanged with value 0.
  It is checked before emptiness.
- Totals add the entries one at a time in an unspecified order, as a Go `range`
  over a map does. `TotalMaxSpeedRemove` and `TotalCapacityRemove` show that the
  order cannot change the result, for real-valued max speeds and unbounded capacities.

## Model

| member | source | states |
|---|---|---|
| `RepositoryMap.Filter` | internal/repository/vehicle_map_test.go:120-126 | the answer is a sub-map of the collection: every entry keeps its key and vehicle and satisfies the predicate, and every entry of the collection that satisfies it is present |
| `RepositoryMap.FindAll` | internal/repository/vehicle_map_test.go:57-71 | answers with a map equal to the whole collection (empty for an empty one) and no error |
| `RepositoryMap.FindByColorAndYear` | internal/repository/vehicle_map_test.go:120-133 | a key is in the answer exactly when its vehicle has that color and that year, under its original vehicle; never an error |
| `RepositoryMap.FindByBrandAndYearRange` | internal/repository/vehicle_map_test.go:182-195 | a key is in the answer exactly when its vehicle has that brand and a year in [startYear, endYear], under its original vehicle; never an error |
| `RepositoryMap.FindByBrand` | internal/repository/vehicle_map_test.go:244-257 | a key is in the answer exactly when its vehicle has that brand, under its original vehicle; never an error |
| `RepositoryMap.FindByWeightRange` | internal/repository/vehicle_map_test.go:306-319 | a key is in the answer exactly when its vehicle's weight is in [fromWeight, toWeight], under its original vehicle; never an error |
| `RepositoryMap.FindByColorAndYearEmptyIff` | internal/repository/vehicle_map_test.go:127-133 | the color/year answer is empty if and only if no stored vehicle has that color and year |
| `RepositoryMap.BrandAndYearRangeNarrowsBrand` | internal/repository/vehicle_map_test.go:182-195 | the brand/year-range answer equals the brand answer narrowed to the years |
| `RepositoryMap.YearRangeIsInclusive` | internal/repository/vehicle_map_test.go:182-188 | a vehicle of the brand built in the first or the last year of the range is in the answer |
| `RepositoryMap.WeightRangeMonotone` | internal/repository/vehicle_map_test.go:306-319 | widening the weight range never drops an entry |
| `RepositoryMap.BrandsAreDisjoint` | internal/repository/vehicle_map_test.go:244-257 | the answers for two different brands share no key |
| `RepositoryMap.FindByBrandIdempotent` | internal/repository/vehicle_map_test.go:244-250 | asking the brand query of its own answer gives the same answer |
| `RepositoryMap.QueriesKeepWellKeyed` | internal/repository/vehicle_map_test.go:12-53 | if every vehicle is stored under its own Id, so is every vehicle in every query's answer |
| `RepositoryMapTests.FindAllCases` | internal/repository/vehicle_map_test.go:57-71 | the fixture collection comes back whole, and the empty collection gives an empty map, both without error |
| `RepositoryMapTests.FindByColorAndYearCases` | internal/repository/vehicle_map_test.go:120-133 | ("green", 2032) gives exactly {2: db[2]}; ("azu", 1990) gives an empty map; no error |
| `RepositoryMapTests.FindByBrandAndYearRangeCases` | internal/repository/vehicle_map_test.go:182-195 | ("sitroein", 2032, 2035) gives exactly {2: db[2]}, so 2032 is kept and 2031 is not; ("pejou", 1990, 2000) gives an empty map; no error |
| `RepositoryMapTests.FindByBrandCases` | internal/repository/vehicle_map_test.go:244-257 | "sitroein" gives the whole collection; "pejou" gives an empty map; no error |
| `RepositoryMapTests.FindByWeightRangeCases` | internal/repository/vehicle_map_test.go:306-319 | (700, 900) gives exactly {2: db[2]}, so weight 600 is dropped; (100, 150) gives an empty map; no error |
| `Service.FindByColorAndYear` | internal/service/vehicle_test.go:66-85 | forwards color and year unchanged and returns the repository's map and error as they are, an empty map included |
| `Service.FindByBrandAndYearRange` | internal/service/vehicle_test.go:419-437 | forwards brand and both years unchanged and returns the repository's map and error as they are |
| `Service.SearchByWeightRange` | internal/service/vehicle_test.go:222-321 | with the filter on, returns the weight-range query on the query's two bounds; with it off, ignores the query and returns FindAll's answer |
| `Service.TruncDiv` | internal/service/vehicle_test.go:370-376 | the int quotient of a total by a positive count, truncated toward zero: q * n <= t < (q + 1) * n for t >= 0, and (q - 1) * n < t <= q * n for t < 0 |
| `Service.AverageMaxSpeedByBrand` | internal/service/vehicle_test.go:133-154 | a repository error gives 0 and that error; an empty brand gives 0 and ErrServiceNoVehicles; otherwise no error and mean * count equals the total max speed |
| `Service.AverageCapacityByBrand` | internal/service/vehicle_test.go:370-391 | a repository error gives 0 and that error; an empty brand gives 0 and ErrServiceNoVehicles; otherwise no error and the int mean is the total capacity over the count, truncated toward zero |
| `Service.TotalMaxSpeedRemove` | internal/service/vehicle_test.go:133-140 | the total max speed is any one entry's max speed plus the total of the rest, so the order of the walk over the map does not matter |
| `Service.TotalCapacityRemove` | internal/service/vehicle_test.go:370-377 | the total capacity is any one entry's capacity plus the total of the rest, so the order of the walk over the map does not matter |
| `Service.TotalMaxSpeedBounds` | internal/service/vehicle_test.go:133-140 | when every max speed lies in [lo, hi], the total lies between count copies of lo and count copies of hi |
| `Service.TotalCapacityBounds` | internal/service/vehicle_test.go:370-377 | when every capacity lies in [lo, hi], the total lies between count copies of lo and count copies of hi |
| `Service.SearchByWeightRangeOverMap` | internal/service/vehicle_test.go:222-321 | over the in-memory repository: without the filter the whole collection comes back; with it, exactly the vehicles whose weight is within the bounds; never an error, so never ErrServiceNoVehicles |
| `Service.AverageFailsIffNoVehicleOfBrand` | internal/service/vehicle_test.go:143-154 | over the in-memory repository, each average fails with ErrServiceNoVehicles if and only if no stored vehicle has the brand, and otherwise does not fail |
| `Service.AverageMaxSpeedWithinRange` | internal/service/vehicle_test.go:133-140 | over the in-memory repository, the mean max speed lies between the slowest and the fastest vehicle of the brand |
| `Service.AverageCapacityWithinRange` | internal/service/vehicle_test.go:370-377 | over the in-memory repository, the truncated mean capacity lies between the smallest and the largest capacity of the brand |
| `ServiceTests.FindByColorAndYearCases` | internal/service/vehicle_test.go:41-85 | with a repository set up for ("BLue", 2023) and ("Green", 2000), the service returns the set-up map, full or empty, and no error |
| `ServiceTests.FindByBrandAndYearRangeCases` | internal/service/vehicle_test.go:394-439 | with a repository set up for ("BLue", 2000, 2025), the service returns the set-up map, full or empty, and no error |
| `ServiceTests.SearchByWeightRangeCases` | internal/service/vehicle_test.go:157-323 | bounds (200, 300) with the filter give the weight-range answer; the zero query without the filter gives FindAll's answer; bounds (50, 100) give an empty map and no error |
| `ServiceTests.AverageMaxSpeedByBrandCases` | internal/service/vehicle_test.go:88-155 | max speeds 200 and 250 give 225.0 and no error; an empty brand gives 0 and ErrServiceNoVehicles |
| `ServiceTests.AverageCapacityByBrandCases` | internal/service/vehicle_test.go:325-392 | capacities 4 and 6 give the int 5 and no error; an empty brand gives 0 and ErrServiceNoVehicles |

## Left out

- The testify mock machinery (`mock.Mock`, `On`, `Called`, `Return`, call recording). A test's stand-in repository is a `RepositoryVehicle` value whose set-up query answers the set-up arguments and fails on any others.
- The `require` assertions and the constructors `NewServiceVehicleDefault` and `NewRepositoryReadVehicleMap`, which only wire values together. `NewRepositoryReadVehicleMap` appears only as the packaging of the queries.
- IEEE-754 `float64` behaviour of weight and max speed. They are `real`; the tests use only integral values. A `float64` total can depend on the order of the walk over the map; the `real` total here cannot.
- Go's 64-bit `int`: a capacity total in Go can wrap around, the unbounded `int` total here cannot.
- The nested `VehicleAttributes` struct is flattened into the `Vehicle` record; `Dimensions` stays a separate record that no query reads. Model, registration, fuel type and transmission are carried but read by no query either.
- Aliasing: the catalog and every answer are map values, so the model cannot say whether Go's `FindAll` hands back the backing map itself or a copy. Nothing in this core writes to a map, so no property here depends on it.
- The text of Go error values. The only errors are `ErrServiceNoVehicles` and an opaque `ErrRepository`.
- Execution: the totals take their entries in an arbitrary order chosen with `:|`, so the totals and both averages are ghost functions.
- Untested choices: the empty-brand result and the rounding of the capacity mean, the inclusive upper bounds, and the handling of a repository error in the averages follow the choices listed above.
