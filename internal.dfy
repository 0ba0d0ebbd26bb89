/** The catalog's shared vocabulary: the vehicle record, the keyed collection
    the repository serves, the weight-search descriptor, the error values, the
    (value, error) pair every operation returns, and the repository capability
    the service is written against. */
module Internal {

  datatype Option<+T> = None | Some(value: T)

  /** Height, length and width of a vehicle. No query reads them. */
  datatype Dimensions = Dimensions(height: real, length: real, width: real)

  /** A catalog record: its identifier followed by its attributes. */
  datatype Vehicle = Vehicle(
    id: int,
    brand: string,
    model: string,
    registration: string,
    color: string,
    fabricationYear: int,
    capacity: int,
    maxSpeed: real,
    fuelType: string,
    transmission: string,
    weight: real,
    dimensions: Dimensions)

  /** The collection: vehicles keyed by identifier. */
  type Catalog = map<int, Vehicle>

  /** Weight bounds of a search; the zero value has both bounds 0. */
  datatype SearchQuery = SearchQuery(fromWeight: real, toWeight: real)

  datatype Error =
    | ErrServiceNoVehicles          // an average was asked of no vehicles
    | ErrRepository(reason: string) // a backing store failed

  /** What every operation returns: a value and an error that is None on success. */
  datatype Reply<+T> = Reply(value: T, err: Option<Error>)

  /** The read capability the service depends on: one function per query. */
  datatype RepositoryVehicle = RepositoryVehicle(
    findAll: () -> Reply<Catalog>,
    findByColorAndYear: (string, int) -> Reply<Catalog>,
    findByBrandAndYearRange: (string, int, int) -> Reply<Catalog>,
    findByBrand: string -> Reply<Catalog>,
    findByWeightRange: (real, real) -> Reply<Catalog>)

  /** Every entry is stored under its own identifier. */
  predicate WellKeyed(c: Catalog) {
    forall k :: k in c ==> c[k].id == k
  }
}
