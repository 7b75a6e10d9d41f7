/**
 Queries on the collaboration graph and its shortest-path trees: the actors
 at a given number of steps from the centre of the tree, and the actors
 ordered by how many others they have worked with.
 */
module KevinBacon {
  import opened Graphs
  import opened Reachability
  import opened Forests
  import opened GraphLibrary

  /** The vertices of the tree `subgraph` whose path to the root has exactly
      `steps` edges, vertices taken in any order. The ghost `rank` certifies
      that `subgraph` is a forest. */
  method NumberActors<V(!new), E>(steps: int, subgraph: Graph<V, E>, ghost rank: map<V, nat>) returns (r: set<V>)
    requires Ranked(subgraph, rank)
    ensures forall v :: v in r <==> v in subgraph && |GetPath(subgraph, v, rank).value| - 1 == steps
  {
    r := {};
    var rest := Vertices(subgraph);
    while rest != {}
      invariant rest <= subgraph.Keys
      invariant forall v :: v in r <==>
                  v in subgraph && v !in rest && |GetPath(subgraph, v, rank).value| - 1 == steps
      decreases rest
    {
      var vertex :| vertex in rest;
      if |GetPath(subgraph, vertex, rank).value| - 1 == steps {
        r := r + {vertex};
      }
      rest := rest - {vertex};
    }
  }

  /** On a shortest-path tree from `s`, the path from `v` has `steps` edges
      exactly when `v` is at distance `steps` from `s`: `steps = 0` selects
      `s` alone, and a negative `steps` selects nothing. */
  lemma NumberActorsLevel<V(!new), E>(g: Graph<V, E>, s: V, t: Graph<V, E>, dist: map<V, nat>, steps: int, v: V)
    requires ShortestPathTree(g, s, t, dist)
    ensures Ranked(t, dist)
    ensures (v in t && |GetPath(t, v, dist).value| - 1 == steps) <==> steps >= 0 && IsDistance(g, s, v, steps)
    ensures steps == 0 ==> ((v in t && |GetPath(t, v, dist).value| - 1 == steps) <==> v == s)
    ensures steps < 0 ==> !(v in t && |GetPath(t, v, dist).value| - 1 == steps)
  {
    BfsTreeRanked(g, s, t, dist);
    if v in t {
      BfsPath(g, s, t, dist, v);
      if steps >= 0 && IsDistance(g, s, v, steps) {
        DistanceUnique(g, s, v, steps, dist[v]);
      }
    } else if steps >= 0 && IsDistance(g, s, v, steps) {
      assert Reachable(g, s, v);
    }
  }

  /** `s` is ordered by non-decreasing `key`. */
  ghost predicate SortedBy<V>(key: V -> nat, s: seq<V>) {
    forall i, j :: 0 <= i < j < |s| ==> key(s[i]) <= key(s[j])
  }

  /** Inserts `v` into the ordered `s`, ahead of the elements with an equal
      key. */
  function InsertBy<V>(key: V -> nat, v: V, s: seq<V>): (r: seq<V>)
    requires SortedBy(key, s)
    ensures multiset(r) == multiset(s) + multiset{v}
    ensures SortedBy(key, r)
  {
    if s == [] then [v]
    else if key(v) <= key(s[0]) then [v] + s
    else
      var rest := InsertBy(key, v, s[1..]);
      assert s == [s[0]] + s[1..];
      LowerBound(key, s[0], s[1..], v, rest);
      [s[0]] + rest
  }

  /** An element no greater than any element of `s` or than `v` is no
      greater than any element of a permutation of `s + [v]`. */
  lemma LowerBound<V>(key: V -> nat, x: V, s: seq<V>, v: V, r: seq<V>)
    requires forall k :: 0 <= k < |s| ==> key(x) <= key(s[k])
    requires key(x) <= key(v) && multiset(r) == multiset(s) + multiset{v}
    ensures forall k :: 0 <= k < |r| ==> key(x) <= key(r[k])
  {
    forall k | 0 <= k < |r|
      ensures key(x) <= key(r[k])
    {
      assert r[k] in multiset(r);
      if r[k] != v {
        assert r[k] in multiset(s);
        var m :| 0 <= m < |s| && s[m] == r[k];
      }
    }
  }

  /** Orders `s` by `key`: insertion sort, each element going ahead of the
      already sorted elements with an equal key. */
  function SortBy<V>(key: V -> nat, s: seq<V>): (r: seq<V>)
    ensures multiset(r) == multiset(s)
    ensures SortedBy(key, r)
  {
    if s == [] then []
    else
      assert s == [s[0]] + s[1..];
      InsertBy(key, s[0], SortBy(key, s[1..]))
  }

  /** `s` lists vertices in order of non-decreasing in-degree in `g`. */
  ghost predicate ByInDegree<V(!new), E>(g: Graph<V, E>, s: seq<V>) {
    forall i, j :: 0 <= i < j < |s| ==> InDegree(g, s[i]) <= InDegree(g, s[j])
  }

  /** The vertices of `graph`, each once, ordered by in-degree from the
      fewest in-neighbours to the most; they are listed in any order before
      sorting. */
  method DegreeSort<V(!new), E>(graph: Graph<V, E>) returns (sorted: seq<V>)
    ensures multiset(sorted) == multiset(graph.Keys)
    ensures ByInDegree(graph, sorted)
  {
    var listed := [];
    var rest := Vertices(graph);
    while rest != {}
      invariant rest <= graph.Keys
      invariant multiset(listed) == multiset(graph.Keys - rest)
      decreases rest
    {
      var vertex :| vertex in rest;
      assert graph.Keys - (rest - {vertex}) == (graph.Keys - rest) + {vertex};
      listed := listed + [vertex];
      rest := rest - {vertex};
    }
    assert graph.Keys - rest == graph.Keys;
    var key := v => InDegree(graph, v);
    sorted := SortBy(key, listed);
    assert SortedBy(key, sorted);
  }
}
