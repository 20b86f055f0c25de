/** Shared vocabulary of the nearest-county population accumulator: county ids,
    the population table, features seen from one query, and ranked entries. */
module Regions {

  /** A county identifier such as "06037". */
  type GeoId = string

  datatype Option<+T> = None | Some(value: T)

  /** A county feature as seen from one query: its id and the great-circle
      distance from the query's centroid to the feature's representative point.
      The distance is computed by the geometry library and is an input here. */
  datatype Feature = Feature(id: GeoId, distance: real)

  /** One element of the ranked list, the record `{geoId, summable, distance}`.
      `summable` is None where the population table has no entry for the id
      (JavaScript `undefined`). */
  datatype Entry = Entry(geoId: GeoId, summable: Option<nat>, distance: real)

  /** The static population asset: county id to population. Ids may be absent. */
  type PopulationTable = map<GeoId, nat>

  /** `pop[id]`: the population, or None for an id the table does not list. */
  function Lookup(pop: PopulationTable, id: GeoId): Option<nat>
  {
    if id in pop then Some(pop[id]) else None
  }
}
