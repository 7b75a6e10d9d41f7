/**
 The abstract labelled directed graph that the graph library and the
 collaboration-graph builder are written against. A graph is a finite map from
 each vertex to the map of its outgoing edges (target vertex to edge label);
 incoming edges are derived from it. At most one edge exists per ordered pair,
 and an undirected edge is the two directed edges carrying one label.
 */
module Graphs {

  type Graph<V, E> = map<V, map<V, E>>

  /** Failures of the graph interface: an endpoint that is not a vertex, or a
      label asked of a pair that has no edge. */
  datatype GraphError = UnknownVertex | NoSuchEdge

  datatype Result<+T> = Success(value: T) | Failure(error: GraphError)

  /** Every edge joins two vertices of the graph. */
  ghost predicate Valid<V(!new), E>(g: Graph<V, E>) {
    forall u, w :: u in g && w in g[u] ==> w in g
  }

  /** Every edge has its reverse edge (an undirected graph). */
  ghost predicate Symmetric<V(!new), E>(g: Graph<V, E>) {
    forall u, w :: u in g && w in g[u] ==> w in g && u in g[w]
  }

  function Empty<V(!new), E>(): (g: Graph<V, E>)
    ensures Valid(g) && |g| == 0
  {
    map[]
  }

  predicate HasVertex<V(!new), E>(g: Graph<V, E>, v: V) {
    v in g
  }

  predicate HasEdge<V(!new), E>(g: Graph<V, E>, u: V, w: V) {
    u in g && w in g[u]
  }

  function NumVertices<V(!new), E>(g: Graph<V, E>): nat {
    |g|
  }

  function Vertices<V(!new), E>(g: Graph<V, E>): set<V> {
    g.Keys
  }

  /** Adds `v` with no edges; a vertex already present is left as it is. */
  function InsertVertex<V(!new), E>(g: Graph<V, E>, v: V): (r: Graph<V, E>)
    ensures r.Keys == g.Keys + {v}
    ensures v in g ==> r == g
    ensures v !in g ==> r[v] == map[] && forall u :: u in g ==> r[u] == g[u]
    ensures Valid(g) ==> Valid(r)
  {
    if v in g then g else g[v := map[]]
  }

  /** Adds (or overwrites) the edge `u -> w` with label `e`; fails when either
      endpoint is not a vertex. */
  function InsertDirected<V(!new), E>(g: Graph<V, E>, u: V, w: V, e: E): (r: Result<Graph<V, E>>)
    ensures r.Failure? <==> u !in g || w !in g
    ensures r.Failure? ==> r.error == UnknownVertex
    ensures r.Success? ==> r.value.Keys == g.Keys && HasEdge(r.value, u, w) && r.value[u][w] == e
    ensures r.Success? ==> forall x, y :: x in g && (x, y) != (u, w) ==>
                             (y in r.value[x] <==> y in g[x]) && (y in g[x] ==> r.value[x][y] == g[x][y])
    ensures r.Success? && Valid(g) ==> Valid(r.value)
  {
    if u !in g || w !in g then Failure(UnknownVertex)
    else Success(g[u := g[u][w := e]])
  }

  /** Adds `a -> b` and `b -> a`, both labelled `e`. */
  function InsertUndirected<V(!new), E>(g: Graph<V, E>, a: V, b: V, e: E): (r: Result<Graph<V, E>>)
    ensures r.Failure? <==> a !in g || b !in g
    ensures r.Failure? ==> r.error == UnknownVertex
    ensures r.Success? ==> r.value.Keys == g.Keys
    ensures r.Success? ==> HasEdge(r.value, a, b) && HasEdge(r.value, b, a)
    ensures r.Success? ==> r.value[a][b] == e && r.value[b][a] == e
    ensures r.Success? ==> forall x, y :: x in g && (x, y) != (a, b) && (x, y) != (b, a) ==>
                             (y in r.value[x] <==> y in g[x]) && (y in g[x] ==> r.value[x][y] == g[x][y])
    ensures r.Success? && Valid(g) ==> Valid(r.value)
  {
    match InsertDirected(g, a, b, e)
    case Failure(err) => Failure(err)
    case Success(g1) => InsertDirected(g1, b, a, e)
  }

  /** The label of `u -> w`, or a failure naming what is missing. */
  function GetLabel<V(!new), E>(g: Graph<V, E>, u: V, w: V): (r: Result<E>)
    ensures r.Success? <==> HasEdge(g, u, w)
    ensures r.Success? ==> r.value == g[u][w]
    ensures r.Failure? ==> r.error == (if u in g then NoSuchEdge else UnknownVertex)
  {
    if u !in g then Failure(UnknownVertex)
    else if w !in g[u] then Failure(NoSuchEdge)
    else Success(g[u][w])
  }

  function OutNeighbors<V(!new), E>(g: Graph<V, E>, v: V): (r: set<V>)
    requires v in g
    ensures forall w :: w in r <==> HasEdge(g, v, w)
  {
    g[v].Keys
  }

  function InNeighbors<V(!new), E>(g: Graph<V, E>, v: V): (r: set<V>)
    ensures forall u :: u in r <==> HasEdge(g, u, v)
  {
    set u | u in g && v in g[u]
  }

  function OutDegree<V(!new), E>(g: Graph<V, E>, v: V): nat
    requires v in g
  {
    |OutNeighbors(g, v)|
  }

  function InDegree<V(!new), E>(g: Graph<V, E>, v: V): nat {
    |InNeighbors(g, v)|
  }
}
