/** The persisted country record. */
module Entity {
  import opened Wrappers

  /** A point in time (LocalDateTime); only its order matters to the service. */
  type Timestamp = int

  /**
   * One row of the countries table. `id` is the identity key the store assigns on insert;
   * `currencyCode` is never null for a record the refresh writes.
   */
  datatype Country = Country(
    id: int,
    name: string,
    capital: Option<string>,
    region: Option<string>,
    population: int,
    currencyCode: string,
    exchangeRate: Option<real>,
    estimatedGdp: Option<real>,
    flagUrl: Option<string>,
    lastRefreshedAt: Option<Timestamp>)
}
