/**
 * The nested dictionary `graph[source][target] -> list of edges` that
 * `build_graph` fills, and its one insertion step: create the outer and
 * inner buckets when absent, then append. Nothing is ever overwritten or
 * removed, so parallel edges between the same two stops all survive.
 */
module GraphAccumulator {

  /** One edge record: `{'service', 'direction', 'distance', 'weight'}`. */
  datatype Edge = Edge(service: string, direction: int, distance: real, weight: int)

  /** An edge together with the stop codes it is filed under. */
  datatype Placed = Placed(source: string, target: string, edge: Edge)

  type Graph = map<string, map<string, seq<Edge>>>

  /** The list stored at `graph[s][t]`, or `[]` when either key is absent. */
  function Lookup(g: Graph, s: string, t: string): seq<Edge>
  {
    if s in g && t in g[s] then g[s][t] else []
  }

  /** Every source has at least one target, every stored list at least one edge. */
  ghost predicate NoEmptyBuckets(g: Graph)
  {
    && (forall s :: s in g ==> g[s] != map[])
    && (forall s, t :: s in g && t in g[s] ==> g[s][t] != [])
  }

  /**
   * The insertion block: append `p.edge` to `graph[p.source][p.target]`,
   * creating the buckets on first use.
   */
  function AddEdge(g: Graph, p: Placed): Graph
  {
    var inner := if p.source in g then g[p.source] else map[];
    var bucket := if p.target in inner then inner[p.target] else [];
    g[p.source := inner[p.target := bucket + [p.edge]]]
  }

  /**
   * Insertion never overwrites: exactly the list under `(p.source, p.target)`
   * grows, by one edge at its end; every other list and every key stays, and
   * the source (with the target under it) becomes a key if it was not one.
   */
  lemma AddEdgeAppends(g: Graph, p: Placed)
    ensures AddEdge(g, p).Keys == g.Keys + {p.source}
    ensures forall s :: s in g && s != p.source ==> AddEdge(g, p)[s] == g[s]
    ensures p.source in g ==> AddEdge(g, p)[p.source].Keys == g[p.source].Keys + {p.target}
    ensures p.source !in g ==> AddEdge(g, p)[p.source].Keys == {p.target}
    ensures forall s, t ::
              Lookup(AddEdge(g, p), s, t) ==
              Lookup(g, s, t) + (if s == p.source && t == p.target then [p.edge] else [])
  {
  }

  /** The graph obtained by inserting the edges of `ps` in order into `{}`. */
  function Assemble(ps: seq<Placed>): Graph
  {
    if ps == [] then map[]
    else AddEdge(Assemble(ps[..|ps| - 1]), ps[|ps| - 1])
  }

  /** The edges of `ps` filed under `(s, t)`, in the order of `ps`. */
  function Between(ps: seq<Placed>, s: string, t: string): seq<Edge>
  {
    if ps == [] then []
    else
      var last := ps[|ps| - 1];
      Between(ps[..|ps| - 1], s, t) + (if last.source == s && last.target == t then [last.edge] else [])
  }

  lemma AssembleSnoc(ps: seq<Placed>, p: Placed)
    ensures Assemble(ps + [p]) == AddEdge(Assemble(ps), p)
    ensures Between(ps + [p], p.source, p.target) == Between(ps, p.source, p.target) + [p.edge]
  {
    assert (ps + [p])[..|ps|] == ps;
  }

  /**
   * What the builder leaves at `graph[s][t]` is exactly the list of edges
   * inserted under `(s, t)`, in insertion order: none lost, none reordered.
   */
  lemma {:induction false} AssembleLookup(ps: seq<Placed>, s: string, t: string)
    ensures Lookup(Assemble(ps), s, t) == Between(ps, s, t)
  {
    if ps != [] {
      AssembleLookup(ps[..|ps| - 1], s, t);
      AddEdgeAppends(Assemble(ps[..|ps| - 1]), ps[|ps| - 1]);
    }
  }

  /** Buckets are only created together with the edge that fills them. */
  lemma {:induction false} AssembleNoEmptyBuckets(ps: seq<Placed>)
    ensures NoEmptyBuckets(Assemble(ps))
  {
    if ps != [] {
      var g := Assemble(ps[..|ps| - 1]);
      var p := ps[|ps| - 1];
      AssembleNoEmptyBuckets(ps[..|ps| - 1]);
      var r := AddEdge(g, p);
      AddEdgeAppends(g, p);
      forall s, t | s in r && t in r[s]
        ensures r[s][t] != []
      {
        assert Lookup(r, s, t) == r[s][t];
        if s == p.source && t == p.target {
        } else {
          assert Lookup(g, s, t) == g[s][t];
        }
      }
      forall s | s in r
        ensures r[s] != map[]
      {
        if s == p.source {
          assert p.target in r[s];
        } else {
          assert r[s] == g[s];
        }
      }
    }
  }

  lemma {:induction false} BetweenMember(ps: seq<Placed>, s: string, t: string, e: Edge)
    ensures e in Between(ps, s, t) <==> Placed(s, t, e) in ps
  {
    if ps != [] {
      BetweenMember(ps[..|ps| - 1], s, t, e);
      assert ps == ps[..|ps| - 1] + [ps[|ps| - 1]];
    }
  }

  /**
   * The keys of the assembled graph: `s` is an outer key exactly when some
   * edge starts at `s`, and `t` an inner key under `s` exactly when some edge
   * goes from `s` to `t`.
   */
  lemma AssembleKeys(ps: seq<Placed>, s: string, t: string)
    ensures s in Assemble(ps) <==> exists p :: p in ps && p.source == s
    ensures s in Assemble(ps) && t in Assemble(ps)[s] <==>
      exists p :: p in ps && p.source == s && p.target == t
  {
    var g := Assemble(ps);
    AssembleNoEmptyBuckets(ps);
    AssembleLookup(ps, s, t);
    if s in g && t in g[s] {
      var e := g[s][t][0];
      BetweenMember(ps, s, t, e);
      assert Placed(s, t, e) in ps;
    }
    if p :| p in ps && p.source == s && p.target == t {
      BetweenMember(ps, s, t, p.edge);
    }
    if s in g {
      var t' :| t' in g[s];
      AssembleLookup(ps, s, t');
      var e := g[s][t'][0];
      BetweenMember(ps, s, t', e);
      assert Placed(s, t', e) in ps;
    }
    if p :| p in ps && p.source == s {
      AssembleLookup(ps, s, p.target);
      BetweenMember(ps, s, p.target, p.edge);
    }
  }

  /** The sum of the values of `m`. */
  ghost function MapSum<K>(m: map<K, nat>): nat
    decreases |m|
  {
    if m == map[] then 0
    else
      var k :| k in m;
      m[k] + MapSum(m - {k})
  }

  /** `MapSum` does not depend on which key it takes first. */
  lemma {:induction false} MapSumRemove<K>(m: map<K, nat>, k: K)
    requires k in m
    ensures MapSum(m) == m[k] + MapSum(m - {k})
    decreases |m|
  {
    var t :| t in m && MapSum(m) == m[t] + MapSum(m - {t});
    if t != k {
      assert |m - {t}| == |m| - 1 && |m - {k}| == |m| - 1;
      MapSumRemove(m - {t}, k);
      MapSumRemove(m - {k}, t);
      assert m - {t} - {k} == m - {k} - {t};
    }
  }

  lemma MapSumUpdate<K>(m: map<K, nat>, k: K, v: nat)
    ensures MapSum(m[k := v]) == v + MapSum(m) - (if k in m then m[k] else 0)
  {
    MapSumRemove(m[k := v], k);
    assert m[k := v] - {k} == m - {k};
    if k in m {
      MapSumRemove(m, k);
    } else {
      assert m - {k} == m;
    }
  }

  /** The number of edges stored under one source. */
  ghost function TargetsCount(inner: map<string, seq<Edge>>): nat
  {
    MapSum(map t | t in inner :: |inner[t]|)
  }

  /** The number of edges stored in the whole graph, parallel edges included. */
  ghost function EdgeCount(g: Graph): nat
  {
    MapSum(map s | s in g :: TargetsCount(g[s]))
  }

  /** Appending to one list of a source's targets adds one to its count. */
  lemma TargetsCountAppend(inner: map<string, seq<Edge>>, t: string, e: Edge)
    ensures var bucket := if t in inner then inner[t] else [];
            TargetsCount(inner[t := bucket + [e]]) == TargetsCount(inner) + 1
  {
    var bucket := if t in inner then inner[t] else [];
    var sizes := map t' | t' in inner :: |inner[t']|;
    var inner' := inner[t := bucket + [e]];
    assert (map t' | t' in inner' :: |inner'[t']|) == sizes[t := |bucket| + 1];
    MapSumUpdate(sizes, t, |bucket| + 1);
  }

  /** Each insertion stores exactly one more edge. */
  lemma AddEdgeCount(g: Graph, p: Placed)
    ensures EdgeCount(AddEdge(g, p)) == EdgeCount(g) + 1
  {
    var r := AddEdge(g, p);
    var inner := if p.source in g then g[p.source] else map[];
    TargetsCountAppend(inner, p.target, p.edge);
    assert TargetsCount(r[p.source]) == TargetsCount(inner) + 1;
    var outer := map s | s in g :: TargetsCount(g[s]);
    assert (map s | s in r :: TargetsCount(r[s])) == outer[p.source := TargetsCount(r[p.source])];
    MapSumUpdate(outer, p.source, TargetsCount(r[p.source]));
    if p.source !in g {
      assert TargetsCount(inner) == 0;
    }
  }

  /** The assembled graph stores exactly as many edges as were inserted. */
  lemma {:induction false} AssembleCount(ps: seq<Placed>)
    ensures EdgeCount(Assemble(ps)) == |ps|
  {
    if ps != [] {
      AssembleCount(ps[..|ps| - 1]);
      AddEdgeCount(Assemble(ps[..|ps| - 1]), ps[|ps| - 1]);
    }
  }
}
