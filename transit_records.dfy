/**
 * The input records the graph builder consumes, with string-to-number
 * parsing already done: one record of the `BusStops` data set and one of
 * the `BusRoutes` data set.
 */
module TransitRecords {
  import opened RouteOrder

  datatype Option<T> = None | Some(value: T)

  /** One `BusStops` record. */
  datatype StopRecord = StopRecord(
    busStopCode: string,
    latitude: real,
    longitude: real,
    description: string,
    roadName: string)

  /**
   * One `BusRoutes` record. `distance` is the cumulative distance along the
   * route in kilometres, `None` when the field is missing or null.
   */
  datatype RouteRecord = RouteRecord(
    serviceNo: string,
    direction: int,
    stopSequence: int,
    busStopCode: string,
    distance: Option<real>)

  /** The sort key `(ServiceNo, Direction, StopSequence)`. */
  function Key(r: RouteRecord): RouteKey
  {
    RouteKey(r.serviceNo, r.direction, r.stopSequence)
  }

  /** `float(record.get('Distance') or 0)`: a missing or falsy distance reads as 0. */
  function DistanceOrZero(r: RouteRecord): real
  {
    match r.distance
    case None => 0.0
    case Some(v) => v
  }
}
