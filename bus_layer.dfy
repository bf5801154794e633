/**
 * `build_graph`: sorts the route records, scans adjacent pairs of the sorted
 * list, and for every pair that continues one service in one direction with
 * the next stop sequence number, appends one directed edge from the first
 * stop to the second.
 */
module BusLayer {
  import opened TransitRecords
  import opened RouteSort
  import opened TimeWeight
  import opened GraphAccumulator

  /** Same service, same direction, and the stop sequence steps by exactly one. */
  predicate Continues(current: RouteRecord, nxt: RouteRecord)
  {
    && current.serviceNo == nxt.serviceNo
    && current.direction == nxt.direction
    && nxt.stopSequence == current.stopSequence + 1
  }

  /** `max(0, dist_next - dist_current)` with missing distances read as 0. */
  function SegmentDistance(current: RouteRecord, nxt: RouteRecord): (d: real)
    ensures d >= 0.0
    ensures d >= DistanceOrZero(nxt) - DistanceOrZero(current)
    ensures d == 0.0 || d == DistanceOrZero(nxt) - DistanceOrZero(current)
  {
    var delta := DistanceOrZero(nxt) - DistanceOrZero(current);
    if 0.0 >= delta then 0.0 else delta
  }

  /** The edge appended for the pair `(current, nxt)`, with its stop codes. */
  function SegmentEdge(current: RouteRecord, nxt: RouteRecord): Placed
  {
    var d := SegmentDistance(current, nxt);
    Placed(current.busStopCode, nxt.busStopCode, Edge(current.serviceNo, current.direction, d, EdgeWeight(d)))
  }

  /** `len(range(len(s) - 1))`: the number of adjacent pairs the loop visits. */
  function PairCount(s: seq<RouteRecord>): nat
  {
    if |s| == 0 then 0 else |s| - 1
  }

  /** The edges of the pairs `(s[j], s[j+1])`, `j < n`, that continue a service, in scan order. */
  function Scan(s: seq<RouteRecord>, n: nat): (r: seq<Placed>)
    requires n <= PairCount(s)
    ensures |r| <= n
  {
    if n == 0 then []
    else Scan(s, n - 1) + (if Continues(s[n - 1], s[n]) then [SegmentEdge(s[n - 1], s[n])] else [])
  }

  /** Every edge `build_graph` appends, in the order it appends them. */
  function BusEdges(routes: seq<RouteRecord>): seq<Placed>
  {
    var sorted := SortRoutes(routes);
    Scan(sorted, PairCount(sorted))
  }

  /**
   * Builds the bus layer. The result is the accumulator filled with
   * `BusEdges(routes)` in order; the lemmas below say what that graph holds.
   */
  method BuildGraph(routes: seq<RouteRecord>) returns (graph: Graph)
    ensures graph == Assemble(BusEdges(routes))
    ensures NoEmptyBuckets(graph)
  {
    graph := map[];
    var sortedRoutes := SortRoutes(routes);
    var i := 0;
    ghost var edges: seq<Placed> := [];
    while i < |sortedRoutes| - 1
      invariant 0 <= i <= PairCount(sortedRoutes)
      invariant edges == Scan(sortedRoutes, i)
      invariant graph == Assemble(edges)
    {
      var current := sortedRoutes[i];
      var nxt := sortedRoutes[i + 1];
      if current.serviceNo == nxt.serviceNo
         && current.direction == nxt.direction
         && nxt.stopSequence == current.stopSequence + 1
      {
        var sourceId := current.busStopCode;
        var targetId := nxt.busStopCode;
        var distCurrent := DistanceOrZero(current);
        var distNext := DistanceOrZero(nxt);
        var segmentDistKm := if 0.0 >= distNext - distCurrent then 0.0 else distNext - distCurrent;
        var weight := CalculateTimeWeight(segmentDistKm);
        ghost var before := graph;
        var edge := Edge(current.serviceNo, current.direction, segmentDistKm, weight.Floor);
        if sourceId !in graph {
          graph := graph[sourceId := map[]];
        }
        ghost var created := graph;
        if targetId !in graph[sourceId] {
          graph := graph[sourceId := graph[sourceId][targetId := []]];
        }
        ghost var prepared := graph;
        graph := graph[sourceId := graph[sourceId][targetId := graph[sourceId][targetId] + [edge]]];
        InsertionBlockAppends(before, created, prepared, graph, Placed(sourceId, targetId, edge));
        ScanAppends(sortedRoutes, i, segmentDistKm, Placed(sourceId, targetId, edge));
        AssembleSnoc(edges, Placed(sourceId, targetId, edge));
        edges := edges + [Placed(sourceId, targetId, edge)];
      }
      i := i + 1;
    }
    AssembleNoEmptyBuckets(BusEdges(routes));
  }

  /** A qualifying pair appends the edge the loop body builds to the scan. */
  lemma ScanAppends(s: seq<RouteRecord>, i: nat, segmentDistKm: real, placed: Placed)
    requires i < PairCount(s) && Continues(s[i], s[i + 1])
    requires segmentDistKm == if 0.0 >= DistanceOrZero(s[i + 1]) - DistanceOrZero(s[i]) then 0.0
                              else DistanceOrZero(s[i + 1]) - DistanceOrZero(s[i])
    requires placed == Placed(s[i].busStopCode, s[i + 1].busStopCode,
                              Edge(s[i].serviceNo, s[i].direction, segmentDistKm, CalculateTimeWeight(segmentDistKm).Floor))
    ensures Scan(s, i + 1) == Scan(s, i) + [placed]
  {
  }

  /**
   * The three statements of the insertion block (create the outer bucket if
   * absent, create the inner list if absent, append) perform `AddEdge`.
   */
  lemma InsertionBlockAppends(before: Graph, created: Graph, prepared: Graph, after: Graph, p: Placed)
    requires created == if p.source !in before then before[p.source := map[]] else before
    requires prepared == if p.target !in created[p.source]
                         then created[p.source := created[p.source][p.target := []]] else created
    requires after == prepared[p.source := prepared[p.source][p.target := prepared[p.source][p.target] + [p.edge]]]
    ensures after == AddEdge(before, p)
  {
    var inner := if p.source in before then before[p.source] else map[];
    var bucket := if p.target in inner then inner[p.target] else [];
    assert prepared[p.source][p.target] == bucket;
    assert after[p.source] == inner[p.target := bucket + [p.edge]];
  }

  lemma {:induction false} ScanMember(s: seq<RouteRecord>, n: nat, p: Placed)
    requires n <= PairCount(s)
    ensures p in Scan(s, n) <==>
      exists j :: 0 <= j < n && Continues(s[j], s[j + 1]) && p == SegmentEdge(s[j], s[j + 1])
  {
    if n > 0 {
      ScanMember(s, n - 1, p);
    }
  }

  /** The pair `(s[j], s[j+1])` continues a service. */
  predicate ContinuesAt(s: seq<RouteRecord>, j: nat)
    requires j + 1 < |s|
  {
    Continues(s[j], s[j + 1])
  }

  /** The indices `j < n` whose pair `(s[j], s[j+1])` continues a service. */
  ghost function QualifyingPairs(s: seq<RouteRecord>, n: nat): set<nat>
    requires n <= PairCount(s)
  {
    set j: nat | j < n && ContinuesAt(s, j)
  }

  /** Each qualifying pair contributes exactly one edge, every other pair none. */
  lemma {:induction false} ScanCount(s: seq<RouteRecord>, n: nat)
    requires n <= PairCount(s)
    ensures |Scan(s, n)| == |QualifyingPairs(s, n)|
  {
    if n > 0 {
      ScanCount(s, n - 1);
      assert n - 1 !in QualifyingPairs(s, n - 1);
      if Continues(s[n - 1], s[n]) {
        assert QualifyingPairs(s, n) == QualifyingPairs(s, n - 1) + {n - 1};
      } else {
        assert QualifyingPairs(s, n) == QualifyingPairs(s, n - 1);
      }
    }
  }

  /**
   * The graph stores one edge per qualifying adjacent pair of the sorted
   * records: at most `len(routes) - 1`, and none for fewer than two records.
   */
  lemma BuildGraphEdgeCount(routes: seq<RouteRecord>)
    ensures EdgeCount(Assemble(BusEdges(routes))) ==
              |QualifyingPairs(SortRoutes(routes), PairCount(SortRoutes(routes)))|
    ensures EdgeCount(Assemble(BusEdges(routes))) <= PairCount(routes)
    ensures |routes| <= 1 ==> Assemble(BusEdges(routes)) == map[]
  {
    var sorted := SortRoutes(routes);
    ScanCount(sorted, PairCount(sorted));
    AssembleCount(BusEdges(routes));
  }

  /**
   * Soundness: every edge stored at `graph[s][t]` comes from a qualifying
   * adjacent pair of the sorted records whose stop codes are `s` and `t`; it
   * carries the first record's service and direction, the clamped distance,
   * which is never negative, and the truncated weight of that distance.
   */
  lemma BuildGraphSound(routes: seq<RouteRecord>, s: string, t: string, e: Edge)
    requires e in Lookup(Assemble(BusEdges(routes)), s, t)
    ensures exists j ::
              && 0 <= j < PairCount(SortRoutes(routes))
              && Continues(SortRoutes(routes)[j], SortRoutes(routes)[j + 1])
              && SortRoutes(routes)[j].busStopCode == s
              && SortRoutes(routes)[j + 1].busStopCode == t
              && e == SegmentEdge(SortRoutes(routes)[j], SortRoutes(routes)[j + 1]).edge
    ensures e.distance >= 0.0 && e.weight >= 0
    ensures e.weight == EdgeWeight(e.distance)
    ensures e.distance == 0.0 ==> e.weight == 10
  {
    var sorted := SortRoutes(routes);
    AssembleLookup(BusEdges(routes), s, t);
    BetweenMember(BusEdges(routes), s, t, e);
    ScanMember(sorted, PairCount(sorted), Placed(s, t, e));
    var j :| 0 <= j < PairCount(sorted) && Continues(sorted[j], sorted[j + 1])
      && Placed(s, t, e) == SegmentEdge(sorted[j], sorted[j + 1]);
    EdgeWeightBounds(e.distance);
  }

  /**
   * Completeness: every qualifying adjacent pair of the sorted records has its
   * edge stored under its two stop codes.
   */
  lemma BuildGraphComplete(routes: seq<RouteRecord>, j: nat)
    requires j < PairCount(SortRoutes(routes))
    requires Continues(SortRoutes(routes)[j], SortRoutes(routes)[j + 1])
    ensures SegmentEdge(SortRoutes(routes)[j], SortRoutes(routes)[j + 1]).edge in
      Lookup(Assemble(BusEdges(routes)), SortRoutes(routes)[j].busStopCode, SortRoutes(routes)[j + 1].busStopCode)
  {
    var sorted := SortRoutes(routes);
    var p := SegmentEdge(sorted[j], sorted[j + 1]);
    ScanMember(sorted, PairCount(sorted), p);
    AssembleLookup(BusEdges(routes), p.source, p.target);
    BetweenMember(BusEdges(routes), p.source, p.target, p.edge);
  }

  /**
   * Parallel edges: the list at `graph[s][t]` is every edge the scan produced
   * from stop `s` to stop `t`, in scan order, so one service never displaces
   * another between the same two stops.
   */
  lemma BuildGraphParallelEdges(routes: seq<RouteRecord>, s: string, t: string)
    ensures Lookup(Assemble(BusEdges(routes)), s, t) == Between(BusEdges(routes), s, t)
    ensures (s in Assemble(BusEdges(routes)) && t in Assemble(BusEdges(routes))[s]) <==>
      Between(BusEdges(routes), s, t) != []
  {
    AssembleLookup(BusEdges(routes), s, t);
    AssembleNoEmptyBuckets(BusEdges(routes));
  }

  /**
   * A worked example: services "10" and "12" both run from stop A to stop B;
   * service "10" skips sequence number 3 before stop D.
   */
  function ExampleRoutes(): seq<RouteRecord>
  {
    [ RouteRecord("12", 1, 1, "A", None),
      RouteRecord("12", 1, 2, "B", Some(0.0)),
      RouteRecord("10", 1, 4, "D", Some(1.0)),
      RouteRecord("10", 1, 1, "A", Some(0.25)),
      RouteRecord("10", 1, 2, "B", Some(0.75)) ]
  }

  /** The sort groups each service and orders it by stop sequence. */
  lemma ExampleRoutesSorted()
    ensures var routes := ExampleRoutes();
            SortRoutes(routes) == [routes[3], routes[4], routes[2], routes[0], routes[1]]
  {
    var routes := ExampleRoutes();
    assert routes[3..][1..] == routes[4..];
    assert SortRoutes(routes[4..]) == [routes[4]];
    assert SortRoutes(routes[3..]) == [routes[3], routes[4]];
    assert Insert(routes[2], [routes[4]]) == [routes[4], routes[2]];
    assert SortRoutes(routes[2..]) == [routes[3], routes[4], routes[2]];
    assert Insert(routes[1], [routes[2]]) == [routes[2], routes[1]];
    assert Insert(routes[1], [routes[4], routes[2]]) == [routes[4], routes[2], routes[1]];
    assert SortRoutes(routes[1..]) == [routes[3], routes[4], routes[2], routes[1]];
    assert Insert(routes[0], [routes[1]]) == [routes[0], routes[1]];
    assert Insert(routes[0], [routes[2], routes[1]]) == [routes[2], routes[0], routes[1]];
    assert Insert(routes[0], [routes[4], routes[2], routes[1]]) == [routes[4], routes[2], routes[0], routes[1]];
  }

  /** In the example only the two A-to-B pairs qualify; the gap and the change of service do not. */
  lemma ExampleEdges()
    ensures BusEdges(ExampleRoutes()) ==
              [Placed("A", "B", Edge("10", 1, 0.5, 72)), Placed("A", "B", Edge("12", 1, 0.0, 10))]
  {
    ExampleRoutesSorted();
    var sorted := SortRoutes(ExampleRoutes());
    var e1 := Placed("A", "B", Edge("10", 1, 0.5, 72));
    var e2 := Placed("A", "B", Edge("12", 1, 0.0, 10));
    assert SegmentEdge(sorted[0], sorted[1]) == e1;
    assert SegmentEdge(sorted[3], sorted[4]) == e2;
    assert Scan(sorted, 1) == [e1];
    assert Scan(sorted, 2) == [e1];
    assert Scan(sorted, 3) == [e1];
  }

  /** Two edges between the same stops end up in one list, in insertion order. */
  lemma ExampleAssembled(e1: Edge, e2: Edge)
    ensures Assemble([Placed("A", "B", e1), Placed("A", "B", e2)]) == map["A" := map["B" := [e1, e2]]]
  {
    var p1, p2 := Placed("A", "B", e1), Placed("A", "B", e2);
    var none: seq<Placed> := [];
    AssembleSnoc(none, p1);
    AssembleSnoc([p1], p2);
    assert none + [p1] == [p1];
    assert [p1] + [p2] == [p1, p2];
    var empty: Graph := map[];
    var noEdges: seq<Edge> := [];
    var inner: map<string, seq<Edge>> := map[];
    assert AddEdge(empty, p1) == empty["A" := inner["B" := noEdges + [e1]]];
    assert noEdges + [e1] == [e1];
    var g1 := AddEdge(empty, p1);
    assert g1 == map["A" := map["B" := [e1]]];
    assert Assemble(none) == empty;
    assert Assemble([p1]) == g1;
    assert [e1] + [e2] == [e1, e2];
    assert AddEdge(g1, p2) == g1["A" := g1["A"]["B" := [e1] + [e2]]];
    assert Assemble([p1, p2]) == AddEdge(g1, p2);
    assert g1["A"]["B" := [e1, e2]] == map["B" := [e1, e2]];
    assert g1["A" := map["B" := [e1, e2]]] == map["A" := map["B" := [e1, e2]]];
  }

  /**
   * Both A-to-B edges of the example are kept under `graph["A"]["B"]`, in
   * sort order; the zero-length one weighs 10.
   */
  lemma TwoServicesExample()
    ensures Assemble(BusEdges(ExampleRoutes())) ==
              map["A" := map["B" := [Edge("10", 1, 0.5, 72), Edge("12", 1, 0.0, 10)]]]
  {
    ExampleEdges();
    ExampleAssembled(Edge("10", 1, 0.5, 72), Edge("12", 1, 0.0, 10));
  }
}
