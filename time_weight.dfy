/**
 * `calculate_time_weight` and the `int(...)` the graph builder applies to it:
 * the travel time, in seconds, of a bus segment at the average bus speed.
 */
module TimeWeight {

  const AvgBusSpeedKmh: real := 25.0
  const SecondsPerHour: real := 3600.0
  /** Weight given to a segment of zero (or clamped) length. */
  const ZeroDistanceWeight: real := 10.0

  /** `calculate_time_weight`; `TimeWeightMeaning` says what it computes. */
  function CalculateTimeWeight(distanceKm: real): real
  {
    if distanceKm <= 0.0 then ZeroDistanceWeight
    else (distanceKm / AvgBusSpeedKmh) * SecondsPerHour
  }

  /**
   * A non-positive distance gets the fixed weight 10; a positive one the
   * number of seconds a bus at 25 km/h needs to cover it: that time, read in
   * hours and multiplied by the speed, gives the distance back.
   */
  lemma TimeWeightMeaning(distanceKm: real)
    ensures CalculateTimeWeight(distanceKm) > 0.0
    ensures distanceKm <= 0.0 ==> CalculateTimeWeight(distanceKm) == ZeroDistanceWeight
    ensures distanceKm > 0.0 ==> (CalculateTimeWeight(distanceKm) / SecondsPerHour) * AvgBusSpeedKmh == distanceKm
  {
  }

  /**
   * The weight stored on an edge: `int(calculate_time_weight(d))`. The value
   * is never negative, so Python's truncation toward zero is the floor.
   */
  function EdgeWeight(distanceKm: real): int
  {
    CalculateTimeWeight(distanceKm).Floor
  }

  /**
   * The stored weight is a whole number of seconds, never negative: 10 for a
   * non-positive distance, otherwise the whole seconds a bus at 25 km/h needs.
   */
  lemma EdgeWeightBounds(distanceKm: real)
    ensures EdgeWeight(distanceKm) >= 0
    ensures distanceKm <= 0.0 ==> EdgeWeight(distanceKm) == 10
    ensures distanceKm > 0.0 ==>
              && (EdgeWeight(distanceKm) as real) * AvgBusSpeedKmh <= distanceKm * SecondsPerHour
              && distanceKm * SecondsPerHour < (EdgeWeight(distanceKm) as real + 1.0) * AvgBusSpeedKmh
  {
    TimeWeightMeaning(distanceKm);
  }

  /** Among positive distances, a longer segment never weighs less. */
  lemma EdgeWeightMonotone(d1: real, d2: real)
    requires 0.0 < d1 <= d2
    ensures EdgeWeight(d1) <= EdgeWeight(d2)
  {
    assert CalculateTimeWeight(d1) <= CalculateTimeWeight(d2);
  }

  /**
   * The zero-distance weight is not a lower bound: a positive segment shorter
   * than 25/3600 km (about 6.9 m) gets weight 0, less than a segment of length 0.
   */
  lemma ShortSegmentWeighsZero(d: real)
    requires 0.0 < d < AvgBusSpeedKmh / SecondsPerHour
    ensures EdgeWeight(d) == 0 < EdgeWeight(0.0)
  {
  }
}
