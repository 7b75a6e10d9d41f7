/**
 Reachability and breadth-first distance in a graph, stated independently of
 any traversal: `Within(g, s, k)` is the set of vertices that some walk of at
 most `k` out-edges leads to from `s`, and a vertex is at distance `k` when it is
 within `k` steps but not within `k - 1`.
 */
module Reachability {
  import opened Graphs

  /** The vertices one out-edge away from some vertex of `s`. */
  ghost function Step<V(!new), E>(g: Graph<V, E>, s: set<V>): set<V> {
    set u, w | u in s && u in g && w in g[u] :: w
  }

  ghost function Within<V(!new), E>(g: Graph<V, E>, src: V, k: nat): set<V>
    decreases k
  {
    if k == 0 then {src} else Within(g, src, k - 1) + Step(g, Within(g, src, k - 1))
  }

  ghost predicate Reachable<V(!new), E>(g: Graph<V, E>, src: V, v: V) {
    exists k: nat :: v in Within(g, src, k)
  }

  /** `v` is exactly `k` out-edges from `src`: no shorter walk reaches it. */
  ghost predicate IsDistance<V(!new), E>(g: Graph<V, E>, src: V, v: V, k: nat) {
    v in Within(g, src, k) && (k > 0 ==> v !in Within(g, src, k - 1))
  }

  /** A walk: consecutive vertices are joined by an out-edge. */
  ghost predicate IsWalk<V(!new), E>(g: Graph<V, E>, p: seq<V>) {
    forall i :: 0 <= i < |p| - 1 ==> HasEdge(g, p[i], p[i + 1])
  }

  lemma {:induction false} WithinMonotone<V(!new), E>(g: Graph<V, E>, src: V, a: nat, b: nat)
    requires a <= b
    ensures Within(g, src, a) <= Within(g, src, b)
    decreases b - a
  {
    if a < b {
      WithinMonotone(g, src, a, b - 1);
    }
  }

  lemma StepInto<V(!new), E>(g: Graph<V, E>, src: V, k: nat, u: V, w: V)
    requires u in Within(g, src, k) && HasEdge(g, u, w)
    ensures w in Within(g, src, k + 1)
  {
    assert w in Step(g, Within(g, src, k));
  }

  /** A vertex within `k` steps is at distance at most `k`. */
  lemma DistanceAtMost<V(!new), E>(g: Graph<V, E>, src: V, v: V, d: nat, k: nat)
    requires IsDistance(g, src, v, d) && v in Within(g, src, k)
    ensures d <= k
  {
    if d > k {
      WithinMonotone(g, src, k, d - 1);
    }
  }

  /** Distances are unique. */
  lemma DistanceUnique<V(!new), E>(g: Graph<V, E>, src: V, v: V, a: nat, b: nat)
    requires IsDistance(g, src, v, a) && IsDistance(g, src, v, b)
    ensures a == b
  {
    DistanceAtMost(g, src, v, a, b);
    DistanceAtMost(g, src, v, b, a);
  }

  /** A walk from `src` of at most `k + 1` vertices ends within `k` steps. */
  ghost predicate WalkWithin<V(!new), E>(g: Graph<V, E>, src: V, k: nat, v: V) {
    exists p :: IsWalk(g, p) && 0 < |p| <= k + 1 && p[0] == src && p[|p| - 1] == v
  }

  lemma {:induction false} WithinHasWalk<V(!new), E>(g: Graph<V, E>, src: V, k: nat, v: V)
    requires v in Within(g, src, k)
    ensures WalkWithin(g, src, k, v)
    decreases k
  {
    if k == 0 {
      var p := [src];
      assert IsWalk(g, p) && 0 < |p| <= k + 1 && p[0] == src && p[|p| - 1] == v;
    } else if v in Within(g, src, k - 1) {
      WithinHasWalk(g, src, k - 1, v);
      var p :| IsWalk(g, p) && 0 < |p| <= k && p[0] == src && p[|p| - 1] == v;
      assert |p| <= k + 1;
    } else {
      var u :| u in Within(g, src, k - 1) && u in g && v in g[u];
      WithinHasWalk(g, src, k - 1, u);
      var p :| IsWalk(g, p) && 0 < |p| <= k && p[0] == src && p[|p| - 1] == u;
      var p' := p + [v];
      assert IsWalk(g, p') by {
        forall i | 0 <= i < |p'| - 1
          ensures HasEdge(g, p'[i], p'[i + 1])
        {
          if i < |p| - 1 {
            assert p'[i] == p[i] && p'[i + 1] == p[i + 1];
          }
        }
      }
      assert 0 < |p'| <= k + 1 && p'[0] == src && p'[|p'| - 1] == v;
    }
  }

  lemma {:induction false} WalkIsWithin<V(!new), E>(g: Graph<V, E>, src: V, k: nat, v: V)
    requires WalkWithin(g, src, k, v)
    ensures v in Within(g, src, k)
    decreases k
  {
    var p :| IsWalk(g, p) && 0 < |p| <= k + 1 && p[0] == src && p[|p| - 1] == v;
    if |p| == 1 {
      WithinMonotone(g, src, 0, k);
    } else {
      var p0 := p[..|p| - 1];
      var u := p[|p| - 2];
      assert IsWalk(g, p0) by {
        forall i | 0 <= i < |p0| - 1
          ensures HasEdge(g, p0[i], p0[i + 1])
        {
          assert p0[i] == p[i] && p0[i + 1] == p[i + 1];
        }
      }
      assert p0[|p0| - 1] == u;
      assert WalkWithin(g, src, k - 1, u);
      WalkIsWithin(g, src, k - 1, u);
      assert HasEdge(g, u, v);
      StepInto(g, src, k - 1, u, v);
    }
  }

  /** The level sets agree with walks: `v` is within `k` steps of `src`
      exactly when a walk of at most `k` edges leads from `src` to `v`. */
  lemma WithinIsWalk<V(!new), E>(g: Graph<V, E>, src: V, k: nat, v: V)
    ensures v in Within(g, src, k) <==> WalkWithin(g, src, k, v)
  {
    if v in Within(g, src, k) {
      WithinHasWalk(g, src, k, v);
    }
    if WalkWithin(g, src, k, v) {
      WalkIsWithin(g, src, k, v);
    }
  }
}
