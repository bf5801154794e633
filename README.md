# Bus-layer graph assembly, modelled in Dafny

This project models the graph-assembly core of the transit data builder in
`scripts/transit_graph_builder.py`. That script turns the bus-stop and
bus-route records of Singapore's LTA DataMall into two things:

- a stop-metadata dictionary, keyed by bus stop code;
- a directed, weighted multigraph `graph[source][target] -> [edge, ...]`.

Each edge stands for one service travelling between two consecutive stops.
Its weight is the travel time, in seconds, at an average bus speed of
25 km/h.

The model has six modules:

| file | module | models |
|---|---|---|
| `route_order.dfy` | `RouteOrder` | Python's ordering of the sort key `(ServiceNo, Direction, StopSequence)`; strings compare lexicographically by code point, and a proper prefix comes first |
| `transit_records.dfy` | `TransitRecords` | stop and route records; a missing or empty `Distance` read as 0 |
| `route_sort.dfy` | `RouteSort` | `sorted(routes_data, key=...)`, as a stable insertion sort on sequences |
| `time_weight.dfy` | `TimeWeight` | `calculate_time_weight` and the `int(...)` applied to it |
| `graph_accumulator.dfy` | `GraphAccumulator` | the nested dictionary and its insertion block, with `Assemble` (insert a list of edges in order) as its specification |
| `stops_metadata.dfy` | `StopsMetadata` | `build_stops_metadata`, as a method with a loop over the records |
| `bus_layer.dfy` | `BusLayer` | `build_graph`, as a method with the source's loop; its result is proved equal to `Assemble(BusEdges(routes))`, and lemmas say what that graph holds |

The sort is modelled as an insertion sort rather than Timsort.
`RouteSort.StableSortUnique` proves that every ordered, stable rearrangement
of the input equals it. So the model produces the same list as Python's
`sorted`.

Distances are exact reals, and weights are their floors. A weight is never
negative, so the floor equals Python's `int()`, which truncates toward zero.

## Model

| member | source | states |
|---|---|---|
| StopsMetadata.BuildStopsMetadata | scripts/transit_graph_builder.py:61-71 | every record's stop code is a key, and every key holds the lat/lng/name/road of the last record with that code, so later duplicates replace earlier ones |
| TimeWeight.TimeWeightMeaning | scripts/transit_graph_builder.py:73-76 | the weight is always positive; a non-positive distance gets 10; for a positive distance, the weight in hours times 25 km/h gives the distance back |
| TimeWeight.EdgeWeightBounds | scripts/transit_graph_builder.py:103-115 | the stored `int(weight)` is never negative; it is 10 for a non-positive distance, and otherwise the whole number of seconds w with w*25 <= d*3600 < (w+1)*25 |
| TimeWeight.EdgeWeightMonotone | scripts/transit_graph_builder.py:73-76 | among positive distances, a longer segment never gets a smaller stored weight |
| TimeWeight.ShortSegmentWeighsZero | scripts/transit_graph_builder.py:73-76 | a positive segment shorter than 25/3600 km gets stored weight 0, less than the 10 of a zero-length segment |
| RouteOrder.KeyLeTotal | scripts/transit_graph_builder.py:82-85 | any two sort keys are comparable |
| RouteOrder.KeyLeAntisymmetric | scripts/transit_graph_builder.py:82-85 | two keys that are each at most the other are equal |
| RouteOrder.KeyLeTransitive | scripts/transit_graph_builder.py:82-85 | the key order is transitive |
| RouteSort.SortRoutes | scripts/transit_graph_builder.py:82-85 | the sorted copy has as many records as the input |
| RouteSort.SortRoutesPermutes | scripts/transit_graph_builder.py:82-85 | the sorted copy holds the same records as the input, each as often (multiset equality) |
| RouteSort.SortRoutesSorted | scripts/transit_graph_builder.py:82-85 | the sorted copy is ascending by `(ServiceNo, Direction, StopSequence)` over every pair of positions |
| RouteSort.SortRoutesStable | scripts/transit_graph_builder.py:82-85 | for every key, the records with that key keep their input order |
| RouteSort.StableSortUnique | scripts/transit_graph_builder.py:82-85 | any ordered sequence that keeps each key's records in input order is exactly the sorted copy, so the model agrees with Python's stable sort |
| GraphAccumulator.AddEdgeAppends | scripts/transit_graph_builder.py:105-116 | inserting only appends: exactly the list at (source, target) grows, by the new edge at its end; every other list and key is unchanged; the source, and the target under it, become keys |
| GraphAccumulator.AssembleLookup | scripts/transit_graph_builder.py:105-116 | after a series of insertions, `graph[s][t]` is exactly the edges inserted under (s, t), in insertion order |
| GraphAccumulator.AssembleNoEmptyBuckets | scripts/transit_graph_builder.py:105-116 | no source maps to an empty dictionary and no stored list is empty |
| GraphAccumulator.AssembleKeys | scripts/transit_graph_builder.py:105-116 | s is an outer key exactly when some inserted edge starts at s; t is a key under s exactly when some inserted edge goes from s to t |
| GraphAccumulator.AddEdgeCount | scripts/transit_graph_builder.py:111-116 | each insertion adds exactly one edge to the graph's total edge count |
| GraphAccumulator.AssembleCount | scripts/transit_graph_builder.py:105-116 | the graph stores exactly as many edges as were inserted, parallel edges included |
| BusLayer.SegmentDistance | scripts/transit_graph_builder.py:99-101 | the segment distance is never negative, at least the difference of the cumulative distances, and equal either to 0 or to that difference |
| BusLayer.Scan | scripts/transit_graph_builder.py:87-94 | scanning n adjacent pairs yields at most n edges |
| BusLayer.ScanMember | scripts/transit_graph_builder.py:87-116 | an edge is produced exactly when some scanned pair has the same service, the same direction and consecutive stop sequences, and the edge is that pair's edge |
| BusLayer.ScanCount | scripts/transit_graph_builder.py:87-116 | the scan produces one edge per qualifying pair and none for any other pair |
| BusLayer.InsertionBlockAppends | scripts/transit_graph_builder.py:105-116 | the three statements of the insertion block (create the outer dictionary, create the list, append) together perform one `AddEdge` |
| BusLayer.ScanAppends | scripts/transit_graph_builder.py:96-116 | the edge that the loop body builds for a qualifying pair is the next edge of the scan |
| BusLayer.BuildGraph | scripts/transit_graph_builder.py:78-118 | the returned graph is the empty graph with the scan's edges inserted in scan order, and it has no empty buckets |
| BusLayer.BuildGraphSound | scripts/transit_graph_builder.py:87-116 | every edge at `graph[s][t]` comes from a qualifying adjacent pair of the sorted records with stop codes s and t; it carries that pair's service and direction, a non-negative distance and the truncated weight of that distance (10 when the distance is 0) |
| BusLayer.BuildGraphComplete | scripts/transit_graph_builder.py:87-116 | every qualifying adjacent pair of the sorted records has its edge stored under its two stop codes |
| BusLayer.BuildGraphParallelEdges | scripts/transit_graph_builder.py:105-116 | `graph[s][t]` lists every scanned edge from s to t in scan order, so parallel services are all kept; the keys are present exactly when that list is non-empty |
| BusLayer.BuildGraphEdgeCount | scripts/transit_graph_builder.py:87-116 | the graph holds one edge per qualifying pair, at most `len(routes) - 1`, and is empty when there are fewer than two records |
| BusLayer.ExampleRoutesSorted | scripts/transit_graph_builder.py:82-85 | on a five-record example, the sort orders service "10" before "12", and orders each service by stop sequence |
| BusLayer.ExampleEdges | scripts/transit_graph_builder.py:87-116 | on that example, the jump from sequence 2 to 4 produces no edge; A→B gets distance 0.5 and weight 72 for service "10", and distance 0 and weight 10 for "12" |
| BusLayer.TwoServicesExample | scripts/transit_graph_builder.py:78-118 | on that example, the graph is `{"A": {"B": [edge of "10", edge of "12"]}}`: two parallel edges, in sort order |

## Left out

- `fetch_lta_data` (`scripts/transit_graph_builder.py:30-59`) is not modelled: it does network I/O with paging. Its result enters the model as the input sequences.
- `main` (`scripts/transit_graph_builder.py:120-153`) is not modelled: it does directory creation, JSON file output and printing. The module-level setup (lines 1-28) is not modelled either: it reads the environment and raises when the API key is missing.
- `scripts/temp_data_insert.py` is not part of this model.
- Rail layers, walking-transfer edges, the spatial grid index and haversine distance are not part of this model: this source file does not contain them.
- Floating point: distances and weights are exact reals, so IEEE rounding of `float(...)` and of the division is not modelled. For a distance where binary rounding moves the product across a whole number, the model's `int(weight)` can differ by one.
- Parsing: `float(stop['Latitude'])` and `float(current.get('Distance') or 0)` are treated as already parsed. A missing, `None`, `0` or empty `Distance` is `None` or `Some(0.0)` in the model, and both read as 0. A value that fails to parse, or a record lacking a key (a `KeyError` in Python), cannot be expressed in the typed records.
- Python's `max(0, delta)` returns the integer `0` when it clamps, so the JSON distance prints as `0` rather than `0.0`. The model does not distinguish the two.
- Dictionary key order is not modelled: Dafny maps are unordered, and Python keeps keys in first-insertion order. The order of edges inside each list is modelled.
- That `sorted` leaves `routes_data` untouched needs no statement here: sequences are values.
- The description of the system says that inserting an edge creates both a source bucket and a target bucket. The code creates `graph[source]`, and `graph[source][target]` under it, but no outer key for the target. The model follows the code, and `GraphAccumulator.AssembleKeys` states the outer keys exactly.
- The description gives the zero-distance weight as "10–15" and says an empty input is a fatal error. The code uses exactly 10, and for empty or one-record input it returns `{}`. The model follows the code (`BusLayer.BuildGraphEdgeCount`).
- The description says the zero-distance floor keeps weights from reaching zero. The code truncates, so positive segments shorter than about 6.9 m get weight 0. The model follows the code, and `TimeWeight.ShortSegmentWeighsZero` exhibits this.
- The stop metadata carries no mode tag: the code writes only lat, lng, name and road.
