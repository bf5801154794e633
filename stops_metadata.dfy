/**
 * `build_stops_metadata`: folds the bus-stop records into a dictionary keyed
 * by stop code. A later record with a code already seen replaces the earlier
 * entry.
 */
module StopsMetadata {
  import opened TransitRecords

  /** `{'lat', 'lng', 'name', 'road'}` of one stop. */
  datatype StopMeta = StopMeta(lat: real, lng: real, name: string, road: string)

  /** The entry one record writes. */
  function MetaOf(stop: StopRecord): StopMeta
  {
    StopMeta(stop.latitude, stop.longitude, stop.description, stop.roadName)
  }

  /** No record after index `i` (and before `end`) carries the code of record `i`. */
  ghost predicate LastWithCode(stops: seq<StopRecord>, i: int, end: int)
    requires 0 <= i < end <= |stops|
  {
    forall j :: i < j < end ==> stops[j].busStopCode != stops[i].busStopCode
  }

  /**
   * One entry per distinct stop code in the input: every record's code is a
   * key, and every key holds the metadata of the LAST record that carries it.
   */
  method BuildStopsMetadata(stops: seq<StopRecord>) returns (metadata: map<string, StopMeta>)
    ensures forall i :: 0 <= i < |stops| ==> stops[i].busStopCode in metadata
    ensures forall code :: code in metadata ==>
              exists i :: && 0 <= i < |stops|
                          && stops[i].busStopCode == code
                          && LastWithCode(stops, i, |stops|)
                          && metadata[code] == MetaOf(stops[i])
  {
    metadata := map[];
    ghost var origin: map<string, nat> := map[];
    var n := 0;
    while n < |stops|
      invariant 0 <= n <= |stops|
      invariant origin.Keys == metadata.Keys
      invariant forall i :: 0 <= i < n ==> stops[i].busStopCode in metadata
      invariant forall code :: code in origin ==>
                  && origin[code] < n
                  && stops[origin[code]].busStopCode == code
                  && LastWithCode(stops, origin[code], n)
                  && metadata[code] == MetaOf(stops[origin[code]])
    {
      var stop := stops[n];
      var code := stop.busStopCode;
      metadata := metadata[code := StopMeta(stop.latitude, stop.longitude, stop.description, stop.roadName)];
      origin := origin[code := n];
      n := n + 1;
    }
    assert forall code :: code in metadata ==> stops[origin[code]].busStopCode == code;
  }
}
