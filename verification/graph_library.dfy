/**
 The four generic graph queries: the breadth-first shortest-path tree, the
 path from a tree vertex back to the root, the vertices a tree misses, and the
 average separation (mean depth) of a tree.
 */
module GraphLibrary {
  import opened Graphs
  import opened Reachability
  import opened Forests

  /** `t` is shaped like the tree that `Bfs(g, s)` builds, with `dist` giving
      each tree vertex's depth: `s` is in `t` with no out-edge; every other tree
      vertex has exactly one out-edge, towards a vertex of `t` whose out-edges in
      `g` revealed it, labelled as the reverse edge is in `g`, one level closer
      to `s`. */
  ghost predicate TreeShape<V(!new), E>(g: Graph<V, E>, s: V, t: Graph<V, E>, dist: map<V, nat>) {
    && Valid(t)
    && t.Keys == dist.Keys
    && t.Keys <= g.Keys
    && s in t && t[s] == map[] && dist[s] == 0
    && (forall v :: v in t && v != s ==> |t[v]| == 1)
    && (forall v, p :: v in t && p in t[v] ==>
          v in g[p] && p in g[v] && t[v][p] == g[v][p] && dist[v] == dist[p] + 1)
  }

  /** The tree shape above, with every depth the breadth-first distance from `s`. */
  ghost predicate TreeOf<V(!new), E>(g: Graph<V, E>, s: V, t: Graph<V, E>, dist: map<V, nat>) {
    TreeShape(g, s, t, dist) && ExactLevels(g, s, dist)
  }

  /** Every recorded depth is the breadth-first distance from `s`. */
  ghost predicate ExactLevels<V(!new), E>(g: Graph<V, E>, s: V, dist: map<V, nat>) {
    forall v {:trigger IsDistance(g, s, v, dist[v])} :: v in dist ==> IsDistance(g, s, v, dist[v])
  }

  /** A shortest-path tree: tree-shaped as above, and its vertices are exactly
      the vertices reachable from `s`. */
  ghost predicate ShortestPathTree<V(!new), E>(g: Graph<V, E>, s: V, t: Graph<V, E>, dist: map<V, nat>) {
    && TreeOf(g, s, t, dist)
    && (forall v :: v in t <==> Reachable(g, s, v))
  }

  /** Every vertex within `d` steps of `s` is in `t` once the levels below `d`
      are in `t` and every tree vertex shallower than `d` has had all of its
      out-neighbours discovered. */
  lemma LevelCovered<V(!new), E>(g: Graph<V, E>, s: V, t: Graph<V, E>, dist: map<V, nat>, d: nat)
    requires s in t && t.Keys == dist.Keys
    requires d > 0 ==> Within(g, s, d - 1) <= t.Keys
    requires d > 0 ==> forall u :: u in t && u in Within(g, s, d - 1) ==> dist[u] < d
    requires forall u :: u in t && dist[u] < d ==> u in g && g[u].Keys <= t.Keys
    ensures Within(g, s, d) <= t.Keys
  {
    if d > 0 {
      var prev := Within(g, s, d - 1);
      forall w | w in Step(g, prev)
        ensures w in t
      {
        var u :| u in prev && u in g && w in g[u];
      }
      assert Within(g, s, d) == prev + Step(g, prev);
    }
  }

  /** Discovering `child` from `current` keeps the tree shape: the new vertex
      hangs below `current`, one level deeper. */
  lemma ExtendShape<V(!new), E>(g: Graph<V, E>, s: V, t: Graph<V, E>, dist: map<V, nat>, current: V, child: V)
    requires Valid(g) && TreeShape(g, s, t, dist)
    requires current in t && HasEdge(g, current, child) && HasEdge(g, child, current) && child !in t
    ensures TreeShape(g, s, t[child := map[current := g[child][current]]], dist[child := dist[current] + 1])
  {
    var t' := t[child := map[current := g[child][current]]];
    var dist' := dist[child := dist[current] + 1];
    assert |t'[child]| == 1;
    forall v, p | v in t' && p in t'[v]
      ensures v in g[p] && p in g[v] && t'[v][p] == g[v][p] && dist'[v] == dist'[p] + 1
    {
      if v == child {
        assert p == current;
      } else {
        assert t'[v] == t[v] && p in t && p != child;
      }
    }
  }

  /** A vertex first met from a vertex at depth `d`, while everything within
      `d` steps is already in the tree, is at distance `d + 1`. */
  lemma NewLevel<V(!new), E>(g: Graph<V, E>, s: V, done: set<V>, current: V, child: V, d: nat)
    requires current in Within(g, s, d) && HasEdge(g, current, child)
    requires child !in done && Within(g, s, d) <= done
    ensures IsDistance(g, s, child, d + 1)
  {
    StepInto(g, s, d, current, child);
  }

  lemma ExtendLevels<V(!new), E>(g: Graph<V, E>, s: V, dist: map<V, nat>, v: V, k: nat)
    requires ExactLevels(g, s, dist) && IsDistance(g, s, v, k)
    ensures ExactLevels(g, s, dist[v := k])
  {
  }

  /** A set of tree vertices that holds `s` and all out-neighbours of its
      members holds every vertex reachable from `s`. */
  lemma {:induction false} ClosedHoldsWithin<V(!new), E>(g: Graph<V, E>, s: V, vs: set<V>, k: nat)
    requires s in vs
    requires forall u :: u in vs ==> u in g && g[u].Keys <= vs
    ensures Within(g, s, k) <= vs
  {
    if k > 0 {
      ClosedHoldsWithin(g, s, vs, k - 1);
    }
  }

  /** When the queue is empty every tree vertex is settled, so the tree holds
      every reachable vertex, and it holds nothing else. */
  lemma Completed<V(!new), E>(g: Graph<V, E>, s: V, t: Graph<V, E>, dist: map<V, nat>)
    requires TreeOf(g, s, t, dist) && Settled(g, t, [], {})
    ensures ShortestPathTree(g, s, t, dist)
  {
    forall k: nat
      ensures Within(g, s, k) <= t.Keys
    {
      ClosedHoldsWithin(g, s, t.Keys, k);
    }
    forall v | v in t
      ensures Reachable(g, s, v)
    {
      assert IsDistance(g, s, v, dist[v]);
    }
  }

  lemma FewerUndiscovered<V>(all: set<V>, before: set<V>, after: set<V>)
    requires before <= after <= all && before != after
    ensures all - after < all - before
  {
    assert !(after <= before);
    var added :| added in after && added !in before;
    assert added in all - before && added !in all - after;
  }

  /** The queue holds distinct tree vertices, in non-decreasing depth order,
      all at depth `lo` or `lo + 1`. */
  ghost predicate QueueOk<V(!new), E>(t: Graph<V, E>, dist: map<V, nat>, q: seq<V>, lo: nat) {
    && t.Keys == dist.Keys
    && (forall i :: 0 <= i < |q| ==> q[i] in t && lo <= dist[q[i]] <= lo + 1)
    && (forall i, j :: 0 <= i < j < |q| ==> q[i] != q[j] && dist[q[i]] <= dist[q[j]])
  }

  lemma QueueAppend<V(!new), E>(t: Graph<V, E>, dist: map<V, nat>, q: seq<V>, lo: nat, child: V, edges: map<V, E>)
    requires QueueOk(t, dist, q, lo) && child !in t
    ensures QueueOk(t[child := edges], dist[child := lo + 1], q + [child], lo)
  {
    var q' := q + [child];
    var dist' := dist[child := lo + 1];
    forall i | 0 <= i < |q|
      ensures q'[i] == q[i] && q[i] != child && dist'[q[i]] == dist[q[i]]
    {
    }
  }

  /** A queue within two adjacent levels is also within the two levels
      starting at its head's depth. */
  lemma QueueFromHead<V(!new), E>(t: Graph<V, E>, dist: map<V, nat>, q: seq<V>, lo: nat)
    requires QueueOk(t, dist, q, lo) && q != []
    ensures QueueOk(t, dist, q, dist[q[0]])
  {
    forall i | 0 <= i < |q|
      ensures dist[q[0]] <= dist[q[i]] <= dist[q[0]] + 1
    {
      if i > 0 {
        assert dist[q[0]] <= dist[q[i]];
      }
    }
  }

  /** Every tree vertex out of the queue, other than `current`, has had all of
      its out-neighbours discovered. */
  ghost predicate Settled<V(!new), E>(g: Graph<V, E>, t: Graph<V, E>, q: seq<V>, current: set<V>) {
    forall u :: u in t && u !in q && u !in current ==> u in g && g[u].Keys <= t.Keys
  }

  /** What holds of the queue while the out-neighbours of `current` are
      visited: `t1` and `q1` extend `t` and `q`, the queue is in level order,
      and every out-neighbour of `current` outside `rest` is in the tree. */
  ghost predicate VisitQueue<V(!new), E>(g: Graph<V, E>, current: V, t: Graph<V, E>, q: seq<V>, lo: nat,
                                         t1: Graph<V, E>, q1: seq<V>, dist1: map<V, nat>, rest: set<V>)
  {
    && current in g && current in t1 && current !in q1
    && t.Keys <= t1.Keys && (t1.Keys == t.Keys ==> q1 == q)
    && QueueOk(t1, dist1, q1, lo)
    && rest <= g[current].Keys
    && Settled(g, t1, q1, {current})
    && (forall w :: w in g[current] && w !in rest ==> w in t1)
  }

  /** What the visit has added: the queue only grows at its back, old vertices
      keep their edges, and a vertex new to the tree hangs below `current`, by
      the label of its edge back to `current`, one level below `current`. */
  ghost predicate VisitGrowth<V(!new), E>(g: Graph<V, E>, current: V, t: Graph<V, E>, q: seq<V>, lo: nat,
                                          t1: Graph<V, E>, q1: seq<V>, dist1: map<V, nat>)
  {
    && |q| <= |q1| && q1[..|q|] == q
    && (forall v :: v in t ==> v in t1 && t1[v] == t[v])
    && (forall v :: v in t1 && v !in t ==>
          v in g && current in g[v] && v in dist1
          && t1[v] == map[current := g[v][current]] && dist1[v] == lo + 1)
  }

  /** Hanging a new vertex below `current` and enqueueing it keeps the growth
      as described. */
  lemma GrowthGrows<V(!new), E>(g: Graph<V, E>, current: V, t: Graph<V, E>, q: seq<V>, lo: nat,
                                t1: Graph<V, E>, q1: seq<V>, dist1: map<V, nat>, child: V, edges: map<V, E>)
    requires VisitGrowth(g, current, t, q, lo, t1, q1, dist1) && child !in t1
    requires child in g && current in g[child] && edges == map[current := g[child][current]]
    ensures VisitGrowth(g, current, t, q, lo, t1[child := edges], q1 + [child], dist1[child := lo + 1])
  {
    assert (q1 + [child])[..|q|] == q1[..|q|];
  }

  lemma VisitStart<V(!new), E>(g: Graph<V, E>, source: V, current: V, t: Graph<V, E>, q: seq<V>, dist: map<V, nat>)
    requires Valid(g) && TreeOf(g, source, t, dist)
    requires current in t && current !in q && QueueOk(t, dist, q, dist[current])
    requires Settled(g, t, q, {current}) && Within(g, source, dist[current]) <= t.Keys
    ensures current in g
    ensures VisitQueue(g, current, t, q, dist[current], t, q, dist, g[current].Keys)
  {
  }

  /** An out-neighbour already in the tree is passed over. */
  lemma VisitKnown<V(!new), E>(g: Graph<V, E>, current: V, t: Graph<V, E>, q: seq<V>, lo: nat,
                               t1: Graph<V, E>, q1: seq<V>, dist1: map<V, nat>, rest: set<V>, child: V)
    requires VisitQueue(g, current, t, q, lo, t1, q1, dist1, rest)
    requires child in rest && child in t1
    ensures VisitQueue(g, current, t, q, lo, t1, q1, dist1, rest - {child})
  {
  }

  /** Hanging `child`, met first from `current` at depth `d`, below
      `current` keeps a breadth-first tree that holds everything within `d`
      steps. */
  lemma GrowTree<V(!new), E>(g: Graph<V, E>, source: V, t: Graph<V, E>, dist: map<V, nat>, current: V, child: V,
                             d: nat, e: E)
    requires Valid(g) && TreeOf(g, source, t, dist)
    requires current in t && dist[current] == d && Within(g, source, d) <= t.Keys
    requires HasEdge(g, current, child) && HasEdge(g, child, current) && child !in t && e == g[child][current]
    ensures TreeOf(g, source, t[child := map[current := e]], dist[child := d + 1])
    ensures Within(g, source, d) <= t[child := map[current := e]].Keys
    ensures current in t[child := map[current := e]]
  {
    assert IsDistance(g, source, current, d);
    NewLevel(g, source, t.Keys, current, child, d);
    ExtendLevels(g, source, dist, child, d + 1);
    ExtendShape(g, source, t, dist, current, child);
  }

  /** A newly met out-neighbour joins the back of the queue, one level below
      the queue's lowest level. */
  lemma VisitGrowsQueue<V(!new), E>(g: Graph<V, E>, current: V, t: Graph<V, E>, q: seq<V>, lo: nat,
                                    t1: Graph<V, E>, q1: seq<V>, dist1: map<V, nat>, rest: set<V>,
                                    child: V, edges: map<V, E>)
    requires VisitQueue(g, current, t, q, lo, t1, q1, dist1, rest)
    requires child in rest && child !in t1
    ensures VisitQueue(g, current, t, q, lo, t1[child := edges], q1 + [child], dist1[child := lo + 1], rest - {child})
  {
    QueueAppend(t1, dist1, q1, lo, child, edges);
    SettledGrow(g, t1, q1, current, child, edges);
    assert t1[child := edges].Keys == t1.Keys + {child};
  }

  /** A vertex added to the tree and the queue at once leaves every settled
      vertex settled. */
  lemma SettledGrow<V(!new), E>(g: Graph<V, E>, t: Graph<V, E>, q: seq<V>, current: V, child: V, edges: map<V, E>)
    requires Settled(g, t, q, {current})
    ensures Settled(g, t[child := edges], q + [child], {current})
  {
    forall u | u in t[child := edges] && u !in q + [child] && u !in {current}
      ensures u in g && g[u].Keys <= t[child := edges].Keys
    {
      assert u != child && u in t && u !in q;
    }
  }

  /** An out-neighbour without the reverse edge shows the graph is not
      undirected. */
  lemma VisitOneWay<V(!new), E>(g: Graph<V, E>, current: V, child: V, lbl: Result<E>)
    requires Valid(g) && current in g && child in g[current]
    requires lbl == GetLabel(g, child, current) && lbl.Failure?
    ensures lbl.error == NoSuchEdge && !Symmetric(g)
  {
  }

  lemma VisitEnd<V(!new), E>(g: Graph<V, E>, source: V, current: V, t: Graph<V, E>, q: seq<V>,
                             dist: map<V, nat>, t1: Graph<V, E>, q1: seq<V>, dist1: map<V, nat>)
    requires TreeOf(g, source, t1, dist1) && current in dist
    requires VisitQueue(g, current, t, q, dist[current], t1, q1, dist1, {})
    requires VisitGrowth(g, current, t, q, dist[current], t1, q1, dist1)
    ensures TreeOf(g, source, t1, dist1) && t.Keys <= t1.Keys && (t1.Keys == t.Keys ==> q1 == q)
    ensures QueueOk(t1, dist1, q1, dist[current]) && Settled(g, t1, q1, {})
    ensures current in t1 && current !in q1 && current in g && g[current].Keys <= t1.Keys
    ensures |q| <= |q1| && q1[..|q|] == q
    ensures forall v :: v in t ==> t1[v] == t[v]
    ensures forall v :: v in t1 && v !in t ==>
      v in g && current in g[v] && t1[v] == map[current := g[v][current]] && dist1[v] == dist[current] + 1
  {
  }

  /** The inner loop of breadth-first search: every out-neighbour of `current`
      not yet in the tree is added below `current` and enqueued. */
  method VisitNeighbors<V(!new), E>(g: Graph<V, E>, source: V, current: V, t: Graph<V, E>, q: seq<V>, ghost dist: map<V, nat>)
    returns (r: Result<(Graph<V, E>, seq<V>)>, ghost dist': map<V, nat>)
    requires Valid(g) && TreeOf(g, source, t, dist)
    requires current in t && current !in q && QueueOk(t, dist, q, dist[current])
    requires Settled(g, t, q, {current}) && Within(g, source, dist[current]) <= t.Keys
    ensures r.Failure? ==> r.error == NoSuchEdge && !Symmetric(g)
    ensures r.Success? ==> var (t', q') := r.value;
      && TreeOf(g, source, t', dist') && t.Keys <= t'.Keys && (t'.Keys == t.Keys ==> q' == q)
      && QueueOk(t', dist', q', dist[current]) && Settled(g, t', q', {})
    ensures r.Success? ==> var (t', q') := r.value;
      && current in t' && current !in q' && current in g && g[current].Keys <= t'.Keys
      && |q| <= |q'| && q'[..|q|] == q
      && (forall v :: v in t ==> t'[v] == t[v])
      && (forall v :: v in t' && v !in t ==>
            v in g && current in g[v] && t'[v] == map[current := g[v][current]] && dist'[v] == dist[current] + 1)
  {
    VisitStart(g, source, current, t, q, dist);
    var rest := g[current].Keys;
    var t1, q1 := t, q;
    dist' := dist;
    while rest != {}
      invariant TreeOf(g, source, t1, dist') && current in t1 && dist'[current] == dist[current]
      invariant Within(g, source, dist[current]) <= t1.Keys
      invariant VisitQueue(g, current, t, q, dist[current], t1, q1, dist', rest)
      invariant VisitGrowth(g, current, t, q, dist[current], t1, q1, dist')
      decreases rest
    {
      var child :| child in rest;
      if HasVertex(t1, child) {
        VisitKnown(g, current, t, q, dist[current], t1, q1, dist', rest, child);
      } else {
        var lbl := GetLabel(g, child, current);
        if lbl.Failure? {
          VisitOneWay(g, current, child, lbl);
          return Failure(lbl.error), dist';
        }
        VisitGrowsTree(g, source, current, dist, t1, dist', child, lbl.value);
        VisitGrows(g, current, t, q, dist[current], t1, q1, dist', rest, child, lbl.value);
        t1 := t1[child := map[current := lbl.value]];
        dist' := dist'[child := dist[current] + 1];
        q1 := q1 + [child];
      }
      rest := rest - {child};
    }
    VisitEnd(g, source, current, t, q, dist, t1, q1, dist');
    r := Success((t1, q1));
  }

  /** One newly met out-neighbour, hung below `current`, keeps the tree half
      of the visit's invariant. */
  lemma VisitGrowsTree<V(!new), E>(g: Graph<V, E>, source: V, current: V, dist: map<V, nat>,
                                   t1: Graph<V, E>, dist1: map<V, nat>, child: V, e: E)
    requires Valid(g) && current in dist
    requires TreeOf(g, source, t1, dist1) && current in t1 && dist1[current] == dist[current]
    requires Within(g, source, dist[current]) <= t1.Keys
    requires child !in t1 && HasEdge(g, current, child) && HasEdge(g, child, current) && e == g[child][current]
    ensures TreeOf(g, source, t1[child := map[current := e]], dist1[child := dist[current] + 1])
    ensures current in t1[child := map[current := e]] && dist1[child := dist[current] + 1][current] == dist[current]
    ensures Within(g, source, dist[current]) <= t1[child := map[current := e]].Keys
  {
    GrowTree(g, source, t1, dist1, current, child, dist[current], e);
  }

  /** One newly met out-neighbour, hung below `current` and enqueued, keeps
      the queue and growth halves of the visit's invariant. */
  lemma VisitGrows<V(!new), E>(g: Graph<V, E>, current: V, t: Graph<V, E>, q: seq<V>, lo: nat,
                               t1: Graph<V, E>, q1: seq<V>, dist1: map<V, nat>, rest: set<V>, child: V, e: E)
    requires VisitQueue(g, current, t, q, lo, t1, q1, dist1, rest)
    requires VisitGrowth(g, current, t, q, lo, t1, q1, dist1)
    requires child in rest && child !in t1 && HasEdge(g, child, current) && e == g[child][current]
    ensures VisitQueue(g, current, t, q, lo, t1[child := map[current := e]], q1 + [child], dist1[child := lo + 1], rest - {child})
    ensures VisitGrowth(g, current, t, q, lo, t1[child := map[current := e]], q1 + [child], dist1[child := lo + 1])
  {
    VisitGrowsQueue(g, current, t, q, lo, t1, q1, dist1, rest, child, map[current := e]);
    GrowthGrows(g, current, t, q, lo, t1, q1, dist1, child, map[current := e]);
  }

  /** What holds between rounds of breadth-first search. */
  ghost predicate BfsInvariant<V(!new), E>(g: Graph<V, E>, source: V, t: Graph<V, E>, q: seq<V>, dist: map<V, nat>) {
    && TreeOf(g, source, t, dist)
    && (q != [] ==> q[0] in dist)
    && QueueOk(t, dist, q, if q == [] then 0 else dist[q[0]])
    && Settled(g, t, q, {})
    && (q != [] && dist[q[0]] > 0 ==> Within(g, source, dist[q[0]] - 1) <= t.Keys)
  }

  /** At the start of a round, the dequeued head and the rest of the queue
      meet what visiting the head's out-neighbours needs. */
  lemma RoundStart<V(!new), E>(g: Graph<V, E>, source: V, t: Graph<V, E>, q: seq<V>, dist: map<V, nat>)
    requires q != [] && BfsInvariant(g, source, t, q, dist)
    ensures q[0] in t && q[0] !in q[1..] && QueueOk(t, dist, q[1..], dist[q[0]])
    ensures Settled(g, t, q[1..], {q[0]}) && Within(g, source, dist[q[0]]) <= t.Keys
  {
    var d := dist[q[0]];
    forall u | u in t && d > 0 && u in Within(g, source, d - 1)
      ensures dist[u] < d
    {
      DistanceAtMost(g, source, u, dist[u], d - 1);
    }
    forall u | u in t && dist[u] < d
      ensures u in g && g[u].Keys <= t.Keys
    {
      assert u !in q;
    }
    LevelCovered(g, source, t, dist, d);
  }

  /** At the end of a round the invariant holds again for the grown tree and
      queue, and either the tree grew or the queue shrank. */
  lemma RoundEnd<V(!new), E>(g: Graph<V, E>, source: V, t: Graph<V, E>, q: seq<V>, dist: map<V, nat>,
                             t': Graph<V, E>, q': seq<V>, dist': map<V, nat>)
    requires q != [] && BfsInvariant(g, source, t, q, dist) && Within(g, source, dist[q[0]]) <= t.Keys
    requires TreeOf(g, source, t', dist') && t.Keys <= t'.Keys && t'.Keys <= g.Keys && (t'.Keys == t.Keys ==> q' == q[1..])
    requires QueueOk(t', dist', q', dist[q[0]]) && Settled(g, t', q', {})
    ensures BfsInvariant(g, source, t', q', dist')
    ensures g.Keys - t'.Keys < g.Keys - t.Keys || (t'.Keys == t.Keys && |q'| < |q|)
  {
    var d := dist[q[0]];
    if q' != [] {
      QueueFromHead(t', dist', q', d);
      if dist'[q'[0]] > 0 {
        assert dist'[q'[0]] == d || dist'[q'[0]] == d + 1;
        if d > 0 {
          WithinMonotone(g, source, d - 1, d);
        }
      }
    }
    if t'.Keys != t.Keys {
      FewerUndiscovered(g.Keys, t.Keys, t'.Keys);
    }
  }

  /** One round of breadth-first search: dequeue the head and visit its
      out-neighbours. Either the tree grows or the queue shrinks. */
  method BfsRound<V(!new), E>(g: Graph<V, E>, source: V, t: Graph<V, E>, q: seq<V>, ghost dist: map<V, nat>)
    returns (r: Result<(Graph<V, E>, seq<V>)>, ghost dist': map<V, nat>)
    requires Valid(g) && q != [] && BfsInvariant(g, source, t, q, dist)
    ensures r.Failure? ==> r.error == NoSuchEdge && !Symmetric(g)
    ensures r.Success? ==> var (t', q') := r.value;
      && BfsInvariant(g, source, t', q', dist')
      && t.Keys <= t'.Keys
      && (g.Keys - t'.Keys < g.Keys - t.Keys || (t'.Keys == t.Keys && |q'| < |q|))
  {
    RoundStart(g, source, t, q, dist);
    r, dist' := VisitNeighbors(g, source, q[0], t, q[1..], dist);
    if r.Success? {
      RoundEnd(g, source, t, q, dist, r.value.0, r.value.1, dist');
    }
  }

  /** Breadth-first search from `source`. Out-neighbours are taken in any order:
      the contract holds for every order. The ghost `dist` gives the depth of
      every tree vertex. */
  method Bfs<V(!new), E>(g: Graph<V, E>, source: V) returns (r: Result<Graph<V, E>>, ghost dist: map<V, nat>)
    requires Valid(g)
    ensures r == Failure(UnknownVertex) <==> source !in g
    ensures r.Failure? && source in g ==> r.error == NoSuchEdge && !Symmetric(g)
    ensures source in g && Symmetric(g) ==> r.Success?
    ensures r.Success? ==> ShortestPathTree(g, source, r.value, dist)
  {
    if source !in g {
      return Failure(UnknownVertex), map[];
    }
    var q := [source];
    var t: Graph<V, E> := map[source := map[]];
    dist := map[source := 0];
    while q != []
      invariant t.Keys <= g.Keys
      invariant BfsInvariant(g, source, t, q, dist)
      decreases g.Keys - t.Keys, |q|
    {
      var round;
      round, dist := BfsRound(g, source, t, q, dist);
      if round.Failure? {
        return Failure(round.error), dist;
      }
      t, q := round.value.0, round.value.1;
    }
    Completed(g, source, t, dist);
    r := Success(t);
  }

  /** A breadth-first tree is a forest ranked by its depth map. */
  lemma BfsTreeRanked<V(!new), E>(g: Graph<V, E>, s: V, t: Graph<V, E>, dist: map<V, nat>)
    requires TreeOf(g, s, t, dist)
    ensures Ranked(t, dist)
  {
  }

  /** In a breadth-first tree the path from `v` ends at the source and has
      `dist[v] + 1` vertices; read backwards it is a walk in `g` from the source
      to `v`, and no walk in `g` reaches `v` in fewer steps. */
  lemma BfsPath<V(!new), E>(g: Graph<V, E>, s: V, t: Graph<V, E>, dist: map<V, nat>, v: V)
    requires TreeOf(g, s, t, dist) && v in t
    ensures Ranked(t, dist)
    ensures var p := PathToRoot(t, v, dist);
      && p[|p| - 1] == s
      && |p| == dist[v] + 1
      && IsDistance(g, s, v, |p| - 1)
      && (forall i :: 0 <= i < |p| - 1 ==> HasEdge(g, p[i + 1], p[i]))
  {
    BfsTreeRanked(g, s, t, dist);
    var p := PathToRoot(t, v, dist);
    assert IsDistance(g, s, v, dist[v]);
    forall i | 0 <= i < |p| - 1
      ensures HasEdge(g, p[i + 1], p[i])
    {
      assert HasEdge(t, p[i], p[i + 1]);
    }
  }

  /** Every vertex of a breadth-first tree lies below the source. */
  lemma BfsSubtreeIsAll<V(!new), E>(g: Graph<V, E>, s: V, t: Graph<V, E>, dist: map<V, nat>)
    requires TreeOf(g, s, t, dist)
    ensures Ranked(t, dist) && Subtree(t, dist, s) == t.Keys
  {
    BfsTreeRanked(g, s, t, dist);
    forall v | v in t
      ensures v in Subtree(t, dist, s)
    {
      BfsPath(g, s, t, dist, v);
      InSubtree(t, dist, s, v);
      var p := PathToRoot(t, v, dist);
      assert s == p[|p| - 1];
    }
  }

  /** The path from `v` to the root of `tree`, following the single out-edge
      of each vertex until a vertex without one; a vertex absent from the
      tree is an error. The ghost `rank` certifies that `tree` is a forest. */
  function GetPath<V(!new), E>(tree: Graph<V, E>, v: V, ghost rank: map<V, nat>): (r: Result<seq<V>>)
    requires Ranked(tree, rank)
    ensures r.Failure? <==> v !in tree
    ensures r.Failure? ==> r.error == UnknownVertex
    ensures r.Success? ==> RootPath(tree, v, r.value)
  {
    if v !in tree then Failure(UnknownVertex) else Success(PathToRoot(tree, v, rank))
  }

  /** The path `GetPath` returns is the only walk from `v` to a root. */
  lemma GetPathUnique<V(!new), E>(tree: Graph<V, E>, v: V, rank: map<V, nat>, q: seq<V>)
    requires Ranked(tree, rank) && RootPath(tree, v, q)
    ensures GetPath(tree, v, rank) == Success(q)
  {
    assert v in tree by {
      if |q| > 1 {
        assert HasEdge(tree, q[0], q[1]);
      }
    }
    RootPathIff(tree, v, rank, q);
  }

  /** The vertices of `graph` that `subgraph` lacks. */
  method MissingVertices<V(!new), E>(graph: Graph<V, E>, subgraph: Graph<V, E>) returns (missing: set<V>)
    ensures missing == graph.Keys - subgraph.Keys
  {
    missing := {};
    var rest := Vertices(graph);
    while rest != {}
      invariant rest <= graph.Keys
      invariant missing == (graph.Keys - rest) - subgraph.Keys
      decreases rest
    {
      var vertex :| vertex in rest;
      if vertex !in subgraph {
        missing := missing + {vertex};
      }
      rest := rest - {vertex};
    }
  }

  /** Against a shortest-path tree of `g`, the missing vertices are exactly the
      vertices of `g` unreachable from the source, and together with the tree's
      vertices they partition the vertices of `g`. */
  lemma MissingPartition<V(!new), E>(g: Graph<V, E>, s: V, t: Graph<V, E>, dist: map<V, nat>)
    requires ShortestPathTree(g, s, t, dist)
    ensures forall v :: v in g.Keys - t.Keys <==> v in g && !Reachable(g, s, v)
    ensures (g.Keys - t.Keys) + t.Keys == g.Keys && (g.Keys - t.Keys) !! t.Keys
  {
  }

  /** The sum, over `branches` and every vertex below it, of `height` plus that
      vertex's depth below `branches`: the recursion runs over in-neighbours,
      against the direction of the tree's edges. The ghost `offset` names
      `height - rank[branches]`, the amount every vertex adds to its rank. */
  method AverageSeparationHelper<V(!new), E>(tree: Graph<V, E>, branches: V, height: int,
                                             ghost rank: map<V, nat>, ghost offset: int)
    returns (total: int)
    requires Ranked(tree, rank) && branches in tree && offset == height - rank[branches]
    ensures total == DepthSum(Subtree(tree, rank, branches), rank, offset)
    decreases |Subtree(tree, rank, branches)|, 1
  {
    var below := SumChildren(tree, branches, InNeighbors(tree, branches), height + 1, rank, offset);
    total := height + below;
    CoveredAll(tree, rank, branches, InNeighbors(tree, branches), offset);
  }

  /** The loop of the helper over the in-neighbours `cs` of `branches`, each
      summed one level deeper, at `height`. With `branches` itself, counted at
      `height - 1`, the result is the depth sum over the subtrees of `cs`. */
  method SumChildren<V(!new), E>(tree: Graph<V, E>, branches: V, cs: set<V>, height: int,
                                 ghost rank: map<V, nat>, ghost offset: int)
    returns (total: int)
    requires Ranked(tree, rank) && branches in tree && forall c :: c in cs ==> HasEdge(tree, c, branches)
    requires offset == height - 1 - rank[branches]
    ensures total + height - 1 == DepthSum(Covered(tree, rank, branches, cs), rank, offset)
    decreases |Subtree(tree, rank, branches)|, 0
  {
    var rest := cs;
    total := 0;
    while rest != {}
      invariant forall c :: c in rest ==> HasEdge(tree, c, branches)
      invariant total + ChildrenSum(tree, rank, branches, rest, offset) == ChildrenSum(tree, rank, branches, cs, offset)
      decreases rest
    {
      var vertex :| vertex in rest;
      ChildFewer(tree, rank, branches, vertex);
      ChildOffset(tree, rank, branches, vertex, height, offset);
      var sub := AverageSeparationHelper(tree, vertex, height, rank, offset);
      SubtreeSumIsDepthSum(tree, rank, vertex, offset);
      ChildrenSumStep(tree, rank, branches, cs, rest, offset, total, vertex, sub);
      total := total + sub;
      rest := rest - {vertex};
    }
    ChildrenSumDone(tree, rank, branches, cs, rest, offset, total);
    ChildrenSumIsCovered(tree, rank, branches, cs, offset);
  }

  /** The mean depth of the vertices below `root`, over all vertices of the
      tree. A root absent from the tree is an error. */
  method AverageSeparation<V(!new), E>(tree: Graph<V, E>, root: V, ghost rank: map<V, nat>) returns (r: Result<real>)
    requires Ranked(tree, rank)
    ensures r.Failure? <==> root !in tree
    ensures r.Failure? ==> r.error == UnknownVertex
    ensures r.Success? ==>
      r.value == DepthSum(Subtree(tree, rank, root), rank, -(rank[root] as int)) as real / |tree| as real
    ensures |tree| == 1 && root in tree ==> r == Success(0.0)
  {
    if root !in tree {
      return Failure(UnknownVertex);
    }
    ghost var offset := -(rank[root] as int);
    var total := AverageSeparationHelper(tree, root, 0, rank, offset);
    var nodes := NumVertices(tree);
    MeanOfSubtree(tree, rank, root, offset, total, nodes);
    if nodes == 1 {
      SingleVertexSum(tree, rank, root, offset);
      ZeroMean(total, nodes);
    }
    r := Success(total as real / nodes as real);
  }

  lemma MeanOfSubtree<V(!new), E>(t: Graph<V, E>, rank: map<V, nat>, x: V, offset: int, total: int, nodes: int)
    requires Ranked(t, rank) && x in t && nodes == |t| && offset == -(rank[x] as int)
    requires total == DepthSum(Subtree(t, rank, x), rank, offset)
    ensures total as real / nodes as real == DepthSum(Subtree(t, rank, x), rank, -(rank[x] as int)) as real / |t| as real
  {
  }

  lemma ZeroMean(total: int, nodes: int)
    requires total == 0 && nodes == 1
    ensures total as real / nodes as real == 0.0
  {
  }

  /** On a breadth-first tree from `s`, the separation sum is the sum of the
      distances of all tree vertices from `s`, that is of every vertex reachable
      from `s` when the tree is a shortest-path tree. */
  lemma BfsSeparation<V(!new), E>(g: Graph<V, E>, s: V, t: Graph<V, E>, dist: map<V, nat>)
    requires TreeOf(g, s, t, dist)
    ensures Ranked(t, dist)
    ensures DepthSum(Subtree(t, dist, s), dist, -(dist[s] as int)) == DepthSum(t.Keys, dist, 0)
  {
    BfsSubtreeIsAll(g, s, t, dist);
  }
}
